/** Moves, restores, purges and reclaims keep the invariant. */
module RecycleInvariant {
  import opened Tables
  import opened Recycle
  import opened Invariant

  predicate SameFSeqs(a: Db, b: Db) {
    a.tapes.Keys == b.tapes.Keys && forall v | v in a.tapes :: a.tapes[v].lastFSeq == b.tapes[v].lastFSeq
  }

  /** `a` lists distinct live copies of one archive file, with their present rows. */
  predicate Faithful(db: Db, a: ArchiveFile) {
    && a.id in db.archive
    && (forall i, j | 0 <= i < j < |a.copies| :: a.copies[i].pos != a.copies[j].pos)
    && (forall c | c in a.copies :: c.pos in db.live && db.live[c.pos] == c.row && c.row.archiveFileId == a.id)
  }

  /** `after` is `db` with the copies of `a` moved to the recycle log. */
  predicate Moved(db: Db, a: ArchiveFile, reason: string, now: nat, after: Db) {
    && SameFSeqs(db, after)
    && after.storageClasses == db.storageClasses && after.diskInstances == db.diskInstances
    && after.live == db.live - Positions(a.copies)
    && after.log == LogCopies(db, a.id, a.copies, reason, now).log
    && after.archive == if Positions(a.copies) == CopiesOf(db, a.id) then db.archive - {a.id} else db.archive
  }

  /** An entry of the log after a move is an old one or a moved copy. */
  lemma EntryAfterMove(db: Db, a: ArchiveFile, reason: string, now: nat, e: LogEntry)
    requires Faithful(db, a) && e in LogCopies(db, a.id, a.copies, reason, now).log
    ensures e in db.log ||
      (e.pos in Positions(a.copies) && e == EntryFor(e.pos, db.live[e.pos], db.archive[a.id], reason, now)
       && e.archiveFileId == a.id)
  {
    LogCopiesIs(db, a.id, a.copies, reason, now);
    var log := LogCopies(db, a.id, a.copies, reason, now).log;
    var k :| 0 <= k < |log| && log[k] == e;
    if k < |db.log| {
      assert log[k] == log[..|db.log|][k];
    } else {
      var c := a.copies[k - |db.log|];
      assert log[|db.log| + (k - |db.log|)] == e;
    }
  }

  lemma MoveKeepsLogPositions(db: Db, a: ArchiveFile, reason: string, now: nat)
    requires Faithful(db, a) && PositionsUnique(db)
    ensures DistinctPositions(LogCopies(db, a.id, a.copies, reason, now).log)
  {
    LogCopiesIs(db, a.id, a.copies, reason, now);
    var log := LogCopies(db, a.id, a.copies, reason, now).log;
    var n := |db.log|;
    forall i | 0 <= i < n ensures log[i] == db.log[i] { assert log[i] == log[..n][i]; }
    forall i, j | 0 <= i < j < |log| ensures log[i].pos != log[j].pos {
      if j < n {
        assert db.log[i].pos != db.log[j].pos;
      } else if i < n {
        assert log[n + (j - n)].pos == a.copies[j - n].pos && db.log[i] in db.log;
      } else {
        assert log[n + (i - n)].pos == a.copies[i - n].pos && log[n + (j - n)].pos == a.copies[j - n].pos;
      }
    }
  }

  lemma MoveKeepsArchiveIffLive(db: Db, a: ArchiveFile, reason: string, now: nat, after: Db)
    requires Faithful(db, a) && Moved(db, a, reason, now, after) && ArchiveIffLive(db)
    ensures ArchiveIffLive(after)
  {
    forall id | id in after.archive ensures CopiesOf(after, id) != {} {
      assert CopiesOf(db, id) != {};
      if id == a.id {
        assert Positions(a.copies) <= CopiesOf(db, id);
        var p :| p in CopiesOf(db, id) && p !in Positions(a.copies);
        assert p in CopiesOf(after, id);
      } else {
        var p :| p in CopiesOf(db, id);
        assert p in CopiesOf(after, id);
      }
    }
  }

  lemma MoveKeepsLog(db: Db, a: ArchiveFile, reason: string, now: nat, after: Db)
    requires PositionsBounded(db) && PositionsUnique(db) && ReferencesExist(db)
    requires Faithful(db, a) && Moved(db, a, reason, now, after)
    ensures forall e | e in after.log :: e.pos !in after.live && Bounded(after, e.pos)
    ensures forall e | e in after.log ::
      e.archive.storageClass in after.storageClasses && e.archive.diskInstance in after.diskInstances
  {
    forall e | e in after.log ensures e.pos !in after.live && Bounded(after, e.pos)
      && e.archive.storageClass in after.storageClasses && e.archive.diskInstance in after.diskInstances
    {
      EntryAfterMove(db, a, reason, now, e);
      assert Bounded(db, e.pos);
    }
  }

  /** Moving copies to the recycle log keeps the invariant. */
  lemma MoveKeepsInv(db: Db, a: ArchiveFile, reason: string, now: nat, after: Db)
    requires Inv(db) && Faithful(db, a) && Moved(db, a, reason, now, after)
    ensures Inv(after)
  {
    MoveKeepsLogPositions(db, a, reason, now);
    MoveKeepsArchiveIffLive(db, a, reason, now, after);
    MoveKeepsLog(db, a, reason, now, after);
    FewerCopies(db.live, after.live);
    FewerFiles(db, after);
    forall p | p in after.live ensures Bounded(after, p) { assert Bounded(db, p); }
  }

  lemma FewerCopies(live: map<Pos, TapeFile>, fewer: map<Pos, TapeFile>)
    requires OneCopyPerNumber(live) && BlocksUnique(live)
    requires fewer.Keys <= live.Keys && forall p | p in fewer :: fewer[p] == live[p]
    ensures OneCopyPerNumber(fewer) && BlocksUnique(fewer)
  {
  }

  lemma FewerFiles(db: Db, after: Db)
    requires DiskKeysUnique(db.archive) && ReferencesExist(db)
    requires after.archive.Keys <= db.archive.Keys && forall id | id in after.archive ::
      after.archive[id] == db.archive[id]
    requires after.storageClasses == db.storageClasses && after.diskInstances == db.diskInstances
    ensures DiskKeysUnique(after.archive)
    ensures forall id | id in after.archive ::
      after.archive[id].storageClass in after.storageClasses && after.archive[id].diskInstance in after.diskInstances
  {
  }

  lemma MoveKeepsSizes(db: Db, a: ArchiveFile, reason: string, now: nat, after: Db)
    requires Inv(db) && Sizes(db) && Faithful(db, a) && Moved(db, a, reason, now, after)
    ensures Sizes(after)
  {
    forall e | e in after.log ensures e in db.log ||
      (e.archiveFileId == a.id && e.archive.size == db.archive[a.id].size)
    {
      EntryAfterMove(db, a, reason, now, e);
    }
  }

  lemma MovedFileIsMoved(db: Db, req: DeleteRequest, a: ArchiveFile, now: nat)
    requires IsCurrent(db, a) && a.id == req.archiveFileId && OneCopyPerNumber(db.live)
    ensures Faithful(db, a) && Moved(db, a, DeletionReason(req), now, MovedFile(db, req, a, now))
    ensures AllPositions(MovedFile(db, req, a, now)) == AllPositions(db)
  {
    CurrentSnapshotConserves(db, req, a, now);
    MovedFileIs(db, req, a, now);
    LogCopiesIs(db, a.id, a.copies, DeletionReason(req), now);
  }

  lemma MovedCopiesIsMoved(db: Db, vid: Vid, a: ArchiveFile, reason: string, now: nat)
    requires ForDeletion(db, vid, a)
    ensures Faithful(db, a) && Moved(db, a, AdminReason(reason), now, MovedCopies(db, a, reason, now))
    ensures AllPositions(MovedCopies(db, a, reason, now)) == AllPositions(db)
  {
    MovedCopiesIs(db, a, reason, now);
    LogCopiesIs(db, a.id, a.copies, AdminReason(reason), now);
    assert Positions(a.copies) == {a.copies[0].pos};
    assert Positions(a.copies) != CopiesOf(db, a.id);
    CopyPositionsSet(a.copies);
    assert db.live.Keys * Positions(a.copies) == Positions(a.copies);
    MovedCopiesConserveIff(db, a, reason, now);
  }

  // ----- restoring -----

  lemma {:induction false} FilterKeepsOrder<T(!new)>(s: seq<T>, keep: T -> bool) returns (at: seq<nat>)
    ensures |at| == |Filter(s, keep)|
    ensures forall i | 0 <= i < |at| :: at[i] < |s| && s[at[i]] == Filter(s, keep)[i]
    ensures forall i, j | 0 <= i < j < |at| :: at[i] < at[j]
  {
    if s == [] { at := []; }
    else {
      var n := |s| - 1;
      at := FilterKeepsOrder(s[..n], keep);
      if keep(s[n]) { at := at + [n]; }
    }
  }

  lemma FilterKeepsPositions(log: seq<LogEntry>, keep: LogEntry -> bool)
    requires DistinctPositions(log)
    ensures DistinctPositions(Filter(log, keep))
  {
    var at := FilterKeepsOrder(log, keep);
    forall i, j | 0 <= i < j < |Filter(log, keep)|
      ensures Filter(log, keep)[i].pos != Filter(log, keep)[j].pos
    {
      assert at[i] < at[j] && log[at[i]].pos != log[at[j]].pos;
    }
  }

  lemma SamePosSameEntry(db: Db, e: LogEntry, f: LogEntry)
    requires PositionsUnique(db) && e in db.log && f in db.log && e.pos == f.pos
    ensures e == f
  {
    var i :| 0 <= i < |db.log| && db.log[i] == e;
    var j :| 0 <= j < |db.log| && db.log[j] == f;
  }

  /** Under the invariant the archive row is there exactly when getArchiveFileById finds the file. */
  lemma VisibleIffArchived(db: Db, id: nat)
    requires ArchiveIffLive(db) && ReferencesExist(db)
    ensures Visible(db, id) <==> id in db.archive
  {
  }

  /** Restoring an entry keeps the invariant. */
  lemma RestoreKeepsInv(db: Db, e: LogEntry, newFid: string, now: nat)
    requires Inv(db) && e in db.log && ArchiveRestorable(db, e, newFid) && CopyRestorable(db, e)
    ensures Inv(Restored(db, e, newFid, now))
  {
    RestoreKeepsPositions(db, e, newFid, now);
    RestoreKeepsOneCopy(db, e, newFid, now);
    RestoreKeepsArchiveIffLive(db, e, newFid, now);
    RestoreKeepsRows(db, e, newFid, now);
  }

  lemma RestoreKeepsArchiveIffLive(db: Db, e: LogEntry, newFid: string, now: nat)
    requires ArchiveIffLive(db) && e.pos !in db.live
    ensures ArchiveIffLive(Restored(db, e, newFid, now))
  {
    var after := Restored(db, e, newFid, now);
    forall id | id in after.archive ensures CopiesOf(after, id) != {} {
      if id == e.archiveFileId {
        assert e.pos in CopiesOf(after, id);
      } else {
        assert CopiesOf(db, id) != {};
        var p :| p in CopiesOf(db, id);
        assert p in CopiesOf(after, id);
      }
    }
  }

  lemma RestoreKeepsRows(db: Db, e: LogEntry, newFid: string, now: nat)
    requires ArchiveIffLive(db) && ReferencesExist(db) && BlocksUnique(db.live) && DiskKeysUnique(db.archive)
    requires e in db.log && ArchiveRestorable(db, e, newFid) && CopyRestorable(db, e)
    ensures var after := Restored(db, e, newFid, now);
      ReferencesExist(after) && BlocksUnique(after.live) && DiskKeysUnique(after.archive)
  {
    VisibleIffArchived(db, e.archiveFileId);
  }

  lemma RestoreKeepsPositions(db: Db, e: LogEntry, newFid: string, now: nat)
    requires PositionsBounded(db) && PositionsUnique(db) && e in db.log
    ensures var after := Restored(db, e, newFid, now); PositionsBounded(after) && PositionsUnique(after)
  {
    var after := Restored(db, e, newFid, now);
    FilterKeepsPositions(db.log, NotKey(e));
    forall x | x in after.log ensures x.pos !in after.live && Bounded(after, x.pos) {
      assert x in db.log && !SameLogKey(x, e);
      DifferentPositions(db, x, e);
      assert Bounded(db, x.pos);
    }
    forall p | p in after.live ensures Bounded(after, p) {
      assert Bounded(db, p);
    }
  }

  lemma DifferentPositions(db: Db, e: LogEntry, f: LogEntry)
    requires PositionsUnique(db) && e in db.log && f in db.log && e != f
    ensures e.pos != f.pos
  {
    var i :| 0 <= i < |db.log| && db.log[i] == e;
    var j :| 0 <= j < |db.log| && db.log[j] == f;
  }

  lemma RestoreKeepsOneCopy(db: Db, e: LogEntry, newFid: string, now: nat)
    requires Inv(db) && e in db.log && ArchiveRestorable(db, e, newFid) && CopyRestorable(db, e)
    ensures OneCopyPerNumber(Restored(db, e, newFid, now).live)
  {
    VisibleIffArchived(db, e.archiveFileId);
    forall p | p in db.live ensures !SameCopy(db.live[p], RestoredTapeFile(e, now)) {
      assert db.live[p].archiveFileId == e.archiveFileId ==> p in CopiesOf(db, e.archiveFileId);
    }
    OneMoreCopy(db.live, e.pos, RestoredTapeFile(e, now));
  }

  lemma OneMoreCopy(live: map<Pos, TapeFile>, p: Pos, row: TapeFile)
    requires OneCopyPerNumber(live) && forall q | q in live :: !SameCopy(live[q], row)
    ensures OneCopyPerNumber(live[p := row])
  {
  }

  /** A restore keeps live sizes in agreement if and only if the entry has the size of the archive row
      it finds, where it finds one. */
  lemma RestoreKeepsLiveSizesIff(db: Db, e: LogEntry, newFid: string, now: nat)
    requires Inv(db) && LiveSizesAgree(db) && e in db.log && ArchiveRestorable(db, e, newFid) && CopyRestorable(db, e)
    ensures LiveSizesAgree(Restored(db, e, newFid, now)) <==>
      (e.archiveFileId in db.archive ==> e.archive.size == db.archive[e.archiveFileId].size)
  {
    VisibleIffArchived(db, e.archiveFileId);
    var after := Restored(db, e, newFid, now);
    assert after.live[e.pos].size == e.archive.size && after.live[e.pos].archiveFileId == e.archiveFileId;
    forall p | p in after.live && p != e.pos
      ensures after.live[p].size == after.archive[after.live[p].archiveFileId].size
    {
      assert p in db.live && db.live[p].archiveFileId in db.archive;
    }
  }

  lemma RestoreKeepsSizes(db: Db, e: LogEntry, newFid: string, now: nat)
    requires Inv(db) && Sizes(db) && e in db.log && ArchiveRestorable(db, e, newFid) && CopyRestorable(db, e)
    ensures Sizes(Restored(db, e, newFid, now))
  {
    RestoreKeepsLiveSizesIff(db, e, newFid, now);
    RestoreKeepsLogSizes(db, e, newFid, now);
  }

  lemma RestoreKeepsLogSizes(db: Db, e: LogEntry, newFid: string, now: nat)
    requires Inv(db) && LogSizesAgree(db) && e in db.log && ArchiveRestorable(db, e, newFid) && CopyRestorable(db, e)
    ensures LogSizesAgree(Restored(db, e, newFid, now))
  {
    VisibleIffArchived(db, e.archiveFileId);
    var after := Restored(db, e, newFid, now);
    LogSizesStillAgree(db, e, after.archive, after.log);
  }

  /** Fewer log rows, and at most the archive row of one of them more. */
  lemma LogSizesStillAgree(db: Db, e: LogEntry, archive: map<nat, ArchiveRow>, log: seq<LogEntry>)
    requires LogSizesAgree(db) && e in db.log && forall x | x in log :: x in db.log
    requires archive.Keys == db.archive.Keys + {e.archiveFileId}
    requires forall id | id in db.archive :: archive[id].size == db.archive[id].size
    requires e.archiveFileId !in db.archive ==> archive[e.archiveFileId].size == e.archive.size
    ensures LogSizesAgree(db.(archive := archive, log := log))
  {
  }

  /** Keeping the entries whose position is `good` keeps exactly those positions. */
  lemma {:induction false} FilterPositions(log: seq<LogEntry>, keep: LogEntry -> bool, good: Pos -> bool, p: Pos)
    requires forall x | x in log :: keep(x) <==> good(x.pos)
    ensures LogPositions(Filter(log, keep))[p] == if good(p) then LogPositions(log)[p] else 0
  {
    if log != [] {
      var n := |log| - 1;
      FilterPositions(log[..n], keep, good, p);
      var r := Filter(log[..n], keep);
      assert (r + [log[n]])[..|r|] == r;
    }
  }

  lemma {:induction false} NotRecorded(log: seq<LogEntry>, p: Pos)
    requires forall i | 0 <= i < |log| :: log[i].pos != p
    ensures LogPositions(log)[p] == 0
  {
    if log != [] { NotRecorded(log[..|log| - 1], p); }
  }

  lemma {:induction false} RecordedOnce(log: seq<LogEntry>, k: nat)
    requires DistinctPositions(log) && k < |log|
    ensures LogPositions(log)[log[k].pos] == 1
  {
    var n := |log| - 1;
    if k == n {
      NotRecorded(log[..n], log[n].pos);
    } else {
      RecordedOnce(log[..n], k);
    }
  }

  lemma KeyAdded(keys: set<Pos>, q: Pos, p: Pos)
    ensures multiset(keys + {q})[p] == if p == q then 1 else multiset(keys)[p]
  {
  }

  /** A successful restore moves exactly one position from the log back to the live table. */
  lemma RestoreConserves(db: Db, e: LogEntry, newFid: string, now: nat)
    requires PositionsUnique(db) && e in db.log
    ensures AllPositions(Restored(db, e, newFid, now)) == AllPositions(db)
  {
    var after := Restored(db, e, newFid, now);
    forall x | x in db.log ensures NotKey(e)(x) <==> x.pos != e.pos {
      if x.pos == e.pos { SamePosSameEntry(db, x, e); }
    }
    var k :| 0 <= k < |db.log| && db.log[k] == e;
    RecordedOnce(db.log, k);
    forall p ensures AllPositions(after)[p] == AllPositions(db)[p] {
      FilterPositions(db.log, NotKey(e), (q: Pos) => q != e.pos, p);
      KeyAdded(db.live.Keys, e.pos, p);
    }
  }

  // ----- purging and reclaiming -----

  /** Purging a tape's entries from the recycle log keeps the invariant. */
  lemma PurgeKeepsInv(db: Db, vid: Vid)
    requires Inv(db)
    ensures Inv(Purged(db, vid)) && (Sizes(db) ==> Sizes(Purged(db, vid)))
  {
    FilterKeepsPositions(db.log, OffTape(vid));
  }

  /** Reclaiming a tape resets LAST_FSEQ to zero and still keeps the invariant: the tape then has no
      recorded position at all. */
  lemma ReclaimKeepsInv(db: Db, vid: Vid)
    requires Inv(db) && Reclaimable(db, vid)
    ensures Inv(Reclaimed(db, vid)) && (Sizes(db) ==> Sizes(Reclaimed(db, vid)))
  {
    PurgeKeepsInv(db, vid);
    var after := Reclaimed(db, vid);
    forall p | p in after.live ensures Bounded(after, p) { assert Bounded(db, p); }
    forall e | e in after.log ensures Bounded(after, e.pos) { assert Bounded(db, e.pos); }
  }

  /** A purge removes the recorded positions of its tape from the log and no others. */
  lemma PurgeRemoves(db: Db, vid: Vid, p: Pos)
    ensures LogPositions(Purged(db, vid).log)[p] == if p.vid == vid then 0 else LogPositions(db.log)[p]
  {
    FilterPositions(db.log, OffTape(vid), (q: Pos) => q.vid != vid, p);
  }
}

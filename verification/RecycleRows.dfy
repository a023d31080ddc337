/** Moves to the recycle log, restores, purges and reclaims, said row by row and column by column,
    without the functions of Recycle. */
module RecycleRows {
  import opened Tables
  import opened Recycle

  // ----- moves -----

  /** No tape changes, except that a tape with a live copy of archive file `id` is dirty now. */
  predicate TapesMarked(db: Db, id: nat, db': Db) {
    && db'.tapes.Keys == db.tapes.Keys
    && forall v | v in db.tapes ::
         var t, t' := db.tapes[v], db'.tapes[v];
         && t'.lastFSeq == t.lastFSeq && t'.dataInBytes == t.dataInBytes && t'.nbMasterFiles == t.nbMasterFiles
         && t'.full == t.full
         && t'.dirty == (t.dirty || exists p | p in db.live :: p.vid == v && db.live[p].archiveFileId == id)
  }

  /** The log row for a copy as the caller read it, with the columns of the archive file's row. */
  predicate LogRowOf(e: LogEntry, id: nat, c: Copy, row: ArchiveRow, reason: string, now: nat) {
    && e.pos.vid == c.pos.vid && e.pos.fSeq == c.pos.fSeq && e.blockId == c.row.blockId && e.copyNb == c.row.copyNb
    && e.tapeFileCreationTime == c.row.creationTime && e.archiveFileId == id
    && e.archive.diskInstance == row.diskInstance && e.archive.diskFileId == row.diskFileId
    && e.archive.ownerUid == row.ownerUid && e.archive.gid == row.gid
    && e.archive.size == row.size && e.archive.checksum == row.checksum
    && e.archive.storageClass == row.storageClass && e.archive.creationTime == row.creationTime
    && e.reason == reason && e.time == now
  }

  /** One new log row for each copy of `a`, in order, or none if the archive file is gone. */
  predicate CopiesLogged(db: Db, a: ArchiveFile, reason: string, now: nat, log: seq<LogEntry>) {
    if a.id !in db.archive then log == db.log
    else db.log <= log && AreLogRows(log[|db.log|..], a, db.archive[a.id], reason, now)
  }

  predicate AreLogRows(added: seq<LogEntry>, a: ArchiveFile, row: ArchiveRow, reason: string, now: nat) {
    |added| == |a.copies| && forall i | 0 <= i < |added| :: LogRowOf(added[i], a.id, a.copies[i], row, reason, now)
  }

  /** moveArchiveFileToRecycleLog: the requested file has no row left in ARCHIVE_FILE and TAPE_FILE; all
      other rows stay. */
  ghost predicate FileMoved(db: Db, req: DeleteRequest, a: ArchiveFile, now: nat, db': Db) {
    && db'.storageClasses == db.storageClasses && db'.diskInstances == db.diskInstances
    && TapesMarked(db, req.archiveFileId, db') && FileGone(db, req.archiveFileId, db')
    && CopiesLogged(db, a, "File deleted by " + req.requester + " from the " + req.diskInstance + " instance",
                    now, db'.log)
  }

  ghost predicate FileGone(db: Db, id: nat, db': Db) {
    && (forall x :: x in db'.archive <==> x in db.archive && x != id)
    && (forall x | x in db'.archive :: db'.archive[x] == db.archive[x])
    && (forall p :: p in db'.live <==> p in db.live && db.live[p].archiveFileId != id)
    && (forall p | p in db'.live :: db'.live[p] == db.live[p])
  }

  /** deleteTapeFileCopy: the copies of the snapshot leave TAPE_FILE; all other rows stay. */
  ghost predicate CopiesMoved(db: Db, a: ArchiveFile, reason: string, now: nat, db': Db) {
    && db'.storageClasses == db.storageClasses && db'.diskInstances == db.diskInstances
    && TapesMarked(db, a.id, db') && db'.archive == db.archive && CopiesGone(db.live, a.copies, db'.live)
    && CopiesLogged(db, a, "(Deleted using cta-admin tf rm) " + reason, now, db'.log)
  }

  ghost predicate CopiesGone(live: map<Pos, TapeFile>, copies: seq<Copy>, live': map<Pos, TapeFile>) {
    && (forall p :: p in live' <==> p in live && forall c | c in copies :: c.pos != p)
    && (forall p | p in live' :: live'[p] == live[p])
  }

  lemma LogRowIs(e: LogEntry, id: nat, c: Copy, row: ArchiveRow, reason: string, now: nat)
    ensures LogRowOf(e, id, c, row, reason, now) <==>
      e == EntryFor(c.pos, c.row.(archiveFileId := id), row, reason, now)
  {
  }

  /** The rows that LogCopies adds, by themselves. */
  function LogRows(a: ArchiveFile, row: ArchiveRow, reason: string, now: nat): seq<LogEntry> {
    seq(|a.copies|, i requires 0 <= i < |a.copies| =>
      EntryFor(a.copies[i].pos, a.copies[i].row.(archiveFileId := a.id), row, reason, now))
  }

  lemma RowsAre(added: seq<LogEntry>, a: ArchiveFile, row: ArchiveRow, reason: string, now: nat)
    ensures AreLogRows(added, a, row, reason, now) <==> added == LogRows(a, row, reason, now)
  {
    forall i | 0 <= i < |added| && i < |a.copies|
      ensures LogRowOf(added[i], a.id, a.copies[i], row, reason, now) <==> added[i] == LogRows(a, row, reason, now)[i]
    {
      LogRowIs(added[i], a.id, a.copies[i], row, reason, now);
    }
  }

  lemma LogCopiesAdds(db: Db, a: ArchiveFile, reason: string, now: nat)
    requires a.id in db.archive
    ensures LogCopies(db, a.id, a.copies, reason, now).log == db.log + LogRows(a, db.archive[a.id], reason, now)
  {
    LogCopiesIs(db, a.id, a.copies, reason, now);
    var n, log := |db.log|, LogCopies(db, a.id, a.copies, reason, now).log;
    var rows := LogRows(a, db.archive[a.id], reason, now);
    forall i | 0 <= i < |rows| ensures log[n..][i] == rows[i] { assert log[n..][i] == log[n + i]; }
    assert log[n..] == rows && log == log[..n] + log[n..];
  }

  lemma CopiesLoggedIff(db: Db, a: ArchiveFile, reason: string, now: nat, log: seq<LogEntry>)
    ensures CopiesLogged(db, a, reason, now, log) <==> log == LogCopies(db, a.id, a.copies, reason, now).log
  {
    if a.id in db.archive {
      LogCopiesAdds(db, a, reason, now);
      var rows := LogRows(a, db.archive[a.id], reason, now);
      if db.log <= log {
        RowsAre(log[|db.log|..], a, db.archive[a.id], reason, now);
        assert log == db.log + log[|db.log|..];
      }
    } else {
      LogCopiesIs(db, a.id, a.copies, reason, now);
    }
  }

  lemma SetDirtyIff(db: Db, id: nat, db': Db)
    ensures TapesMarked(db, id, db') <==> db'.tapes == SetDirty(db, id).tapes
  {
    var marked := SetDirty(db, id).tapes;
    forall v | v in db.tapes
      ensures marked[v] == db.tapes[v].(dirty := db.tapes[v].dirty ||
        exists p | p in db.live :: p.vid == v && db.live[p].archiveFileId == id)
    {
      assert (exists p | p in CopiesOf(db, id) :: p.vid == v) <==>
             exists p | p in db.live :: p.vid == v && db.live[p].archiveFileId == id;
    }
  }

  lemma MovedTapes(db: Db, log: seq<LogEntry>, id: nat)
    ensures SetDirty(db.(log := log), id).tapes == SetDirty(db, id).tapes
  {
    assert CopiesOf(db.(log := log), id) == CopiesOf(db, id);
  }

  lemma FileGoneIff(db: Db, id: nat, db': Db)
    ensures FileGone(db, id, db') <==> db'.live == db.live - CopiesOf(db, id) && db'.archive == db.archive - {id}
  {
    if FileGone(db, id, db') {
      assert db'.live == db.live - CopiesOf(db, id);
      assert db'.archive == db.archive - {id};
    }
  }

  lemma CopiesGoneIff(live: map<Pos, TapeFile>, copies: seq<Copy>, live': map<Pos, TapeFile>)
    ensures CopiesGone(live, copies, live') <==> live' == live - Positions(copies)
  {
    forall p ensures p in Positions(copies) <==> !forall c | c in copies :: c.pos != p {}
    if CopiesGone(live, copies, live') { assert live' == live - Positions(copies); }
  }

  lemma MovedFileTables(db: Db, req: DeleteRequest, a: ArchiveFile, now: nat)
    ensures var after := MovedFile(db, req, a, now);
      && after.storageClasses == db.storageClasses && after.diskInstances == db.diskInstances
      && after.tapes == SetDirty(db, req.archiveFileId).tapes
  {
    LogCopiesIs(db, a.id, a.copies, DeletionReason(req), now);
    MovedTapes(db, LogCopies(db, a.id, a.copies, DeletionReason(req), now).log, req.archiveFileId);
  }

  lemma MovedCopiesTables(db: Db, a: ArchiveFile, reason: string, now: nat)
    ensures var after := MovedCopies(db, a, reason, now);
      && after.storageClasses == db.storageClasses && after.diskInstances == db.diskInstances
      && after.tapes == SetDirty(db, a.id).tapes
  {
    LogCopiesIs(db, a.id, a.copies, AdminReason(reason), now);
    MovedTapes(db, LogCopies(db, a.id, a.copies, AdminReason(reason), now).log, a.id);
  }

  /** The move of a file does exactly this. */
  lemma FileMovedIff(db: Db, req: DeleteRequest, a: ArchiveFile, now: nat, db': Db)
    ensures FileMoved(db, req, a, now, db') <==> db' == MovedFile(db, req, a, now)
  {
    MovedFileTables(db, req, a, now);
    MovedFileIs(db, req, a, now);
    FileGoneIff(db, req.archiveFileId, db');
    SetDirtyIff(db, req.archiveFileId, db');
    CopiesLoggedIff(db, a, DeletionReason(req), now, db'.log);
  }

  /** The move of copies does exactly this. */
  lemma CopiesMovedIff(db: Db, a: ArchiveFile, reason: string, now: nat, db': Db)
    ensures CopiesMoved(db, a, reason, now, db') <==> db' == MovedCopies(db, a, reason, now)
  {
    MovedCopiesTables(db, a, reason, now);
    MovedCopiesIs(db, a, reason, now);
    CopiesGoneIff(db.live, a.copies, db'.live);
    SetDirtyIff(db, a.id, db');
    CopiesLoggedIff(db, a, AdminReason(reason), now, db'.log);
  }

  // ----- restores -----

  predicate Wanted<T(==)>(x: Option<T>, y: T) {
    x.None? || x == Some(y)
  }

  /** The log row has the columns that are asked for, and its storage class exists. */
  predicate HasColumns(db: Db, c: Criteria, e: LogEntry) {
    && Wanted(c.vid, e.pos.vid) && Wanted(c.archiveFileId, e.archiveFileId) && Wanted(c.copyNb, e.copyNb)
    && Wanted(c.diskInstance, e.archive.diskInstance)
    && (c.diskFileIds.None? || e.archive.diskFileId in c.diskFileIds.value)
    && e.archive.storageClass in db.storageClasses
  }

  /** Row `k` of the log is the only one with the columns that are asked for. */
  predicate OnlyRow(db: Db, c: Criteria, k: nat) {
    k < |db.log| && forall j | 0 <= j < |db.log| :: HasColumns(db, c, db.log[j]) <==> j == k
  }

  lemma {:induction false} FilterOne<T(!new)>(s: seq<T>, keep: T -> bool, k: nat)
    requires k < |s| && keep(s[k]) && forall j | 0 <= j < |s| && keep(s[j]) :: j == k
    ensures Filter(s, keep) == [s[k]]
  {
    var n := |s| - 1;
    if k < n {
      FilterOne(s[..n], keep, k);
    } else {
      FilterNone(s[..n], keep);
    }
  }

  lemma {:induction false} FilterNone<T(!new)>(s: seq<T>, keep: T -> bool)
    requires forall j | 0 <= j < |s| :: !keep(s[j])
    ensures Filter(s, keep) == []
  {
    if s != [] { FilterNone(s[..|s| - 1], keep); }
  }

  lemma {:induction false} OneOfFilter<T(!new)>(s: seq<T>, keep: T -> bool) returns (k: nat)
    requires |Filter(s, keep)| == 1
    ensures k < |s| && forall j | 0 <= j < |s| :: keep(s[j]) <==> j == k
  {
    var n := |s| - 1;
    var rest := s[..n];
    if keep(s[n]) {
      k := n;
      assert Filter(rest, keep) == [];
      forall j | 0 <= j < n ensures !keep(s[j]) { assert s[j] == rest[j] && s[j] in rest; }
    } else {
      k := OneOfFilter(rest, keep);
      forall j | 0 <= j < |s| ensures keep(s[j]) <==> j == k { if j < n { assert s[j] == rest[j]; } }
    }
  }

  /** The search of a restore finds one row exactly if there is only one with those columns, and finds
      that one. */
  lemma MatchingIsOnlyRow(db: Db, c: Criteria)
    ensures |Matching(db, c)| == 1 <==> exists k: nat :: OnlyRow(db, c, k)
    ensures forall k: nat | OnlyRow(db, c, k) :: Matching(db, c) == [db.log[k]]
  {
    var keep := Listed(c, db.storageClasses);
    assert forall e :: keep(e) <==> HasColumns(db, c, e);
    forall k: nat | OnlyRow(db, c, k) ensures Matching(db, c) == [db.log[k]] { FilterOne(db.log, keep, k); }
    if |Matching(db, c)| == 1 {
      var k := OneOfFilter(db.log, keep);
      assert OnlyRow(db, c, k);
    }
  }

  /** The tables allow log row `e` to come back: its place and block on the tape are free, and either the
      archive file has live copies, none with this number, or its row can be created. */
  predicate MayReturn(db: Db, e: LogEntry, newFid: string) {
    var id := e.archiveFileId;
    && e.pos.vid in db.tapes && e.pos !in db.live
    && (forall p | p in db.live && p.vid == e.pos.vid :: db.live[p].blockId != e.blockId)
    && (id in db.archive ==>
          && db.archive[id].storageClass in db.storageClasses
          && (exists p | p in db.live :: db.live[p].archiveFileId == id)
          && forall p | p in db.live :: db.live[p].archiveFileId == id ==> db.live[p].copyNb != e.copyNb)
    && (id !in db.archive ==>
          && e.archive.storageClass in db.storageClasses && e.archive.diskInstance in db.diskInstances
          && forall x | x in db.archive ::
               db.archive[x].diskInstance != e.archive.diskInstance || db.archive[x].diskFileId != newFid)
  }

  lemma MayReturnIff(db: Db, e: LogEntry, newFid: string)
    ensures MayReturn(db, e, newFid) <==> ArchiveRestorable(db, e, newFid) && CopyRestorable(db, e)
  {
    var id := e.archiveFileId;
    assert CopiesOf(db, id) != {} <==> exists p | p in db.live :: db.live[p].archiveFileId == id by {
      if p :| p in db.live && db.live[p].archiveFileId == id { assert p in CopiesOf(db, id); }
      if p :| p in CopiesOf(db, id) { assert p in db.live; }
    }
  }

  /** What a caller can check before a restore. */
  ghost predicate MayRestore(db: Db, c: Criteria, newFid: string) {
    && (c.vid.Some? ==> c.vid.value in db.tapes)
    && exists k: nat :: OnlyRow(db, c, k) && MayReturn(db, db.log[k], newFid)
  }

  lemma RestorableIff(db: Db, c: Criteria, newFid: string)
    ensures Restorable(db, c, newFid) <==> MayRestore(db, c, newFid)
  {
    MatchingIsOnlyRow(db, c);
    if |Matching(db, c)| == 1 {
      var k: nat :| OnlyRow(db, c, k);
      MayReturnIff(db, db.log[k], newFid);
      forall j: nat | OnlyRow(db, c, j) ensures j == k { assert HasColumns(db, c, db.log[j]); }
    }
  }

  /** The copy of log row `e` is live again, with the present time; a missing archive row is created from
      the log row with the new disk file id; what else was there stays. */
  ghost predicate CopyReturned(db: Db, e: LogEntry, newFid: string, now: nat, db': Db) {
    var id := e.archiveFileId;
    && db'.tapes == db.tapes && db'.storageClasses == db.storageClasses && db'.diskInstances == db.diskInstances
    && (forall p :: p in db'.live <==> p in db.live || p == e.pos)
    && (forall p | p in db.live && p != e.pos :: db'.live[p] == db.live[p])
    && var t := db'.live[e.pos];
    && t.archiveFileId == id && t.copyNb == e.copyNb && t.blockId == e.blockId && t.size == e.archive.size
    && t.creationTime == now
    && (forall x :: x in db'.archive <==> x in db.archive || x == id)
    && (forall x | x in db.archive :: db'.archive[x] == db.archive[x])
    && (id !in db.archive ==>
          var row := db'.archive[id];
          && row.diskInstance == e.archive.diskInstance && row.diskFileId == newFid
          && row.ownerUid == e.archive.ownerUid && row.gid == e.archive.gid && row.size == e.archive.size
          && row.checksum == e.archive.checksum && row.storageClass == e.archive.storageClass
          && row.creationTime == now)
  }

  /** Row `e` and every other row with its file, position, copy number and disk instance has left the log. */
  ghost predicate RowGone(log: seq<LogEntry>, e: LogEntry, log': seq<LogEntry>) {
    forall x :: multiset(log')[x] ==
      if x.archiveFileId == e.archiveFileId && x.pos.vid == e.pos.vid && x.pos.fSeq == e.pos.fSeq
         && x.copyNb == e.copyNb && x.archive.diskInstance == e.archive.diskInstance
      then 0 else multiset(log)[x]
  }

  lemma {:induction false} FilterCounts<T(!new)>(s: seq<T>, keep: T -> bool, x: T)
    ensures multiset(Filter(s, keep))[x] == if keep(x) then multiset(s)[x] else 0
  {
    if s != [] {
      var n := |s| - 1;
      FilterCounts(s[..n], keep, x);
      assert s == s[..n] + [s[n]];
    }
  }

  lemma RowIsGone(db: Db, e: LogEntry)
    ensures RowGone(db.log, e, DeleteLog(db, e).log)
  {
    forall x ensures multiset(Filter(db.log, NotKey(e)))[x] == if SameLogKey(x, e) then 0 else multiset(db.log)[x] {
      FilterCounts(db.log, NotKey(e), x);
    }
  }

  /** The half-way state of a restore, with the copy back and the log as it was. */
  lemma HalfRestoredIs(db: Db, e: LogEntry, newFid: string, now: nat)
    requires MayReturn(db, e, newFid)
    ensures CopyReturned(db, e, newFid, now, HalfRestored(db, e, newFid, now))
    ensures HalfRestored(db, e, newFid, now).log == db.log
  {
    MayReturnIff(db, e, newFid);
  }

  lemma RestoredIs(db: Db, e: LogEntry, newFid: string, now: nat)
    requires MayReturn(db, e, newFid)
    ensures CopyReturned(db, e, newFid, now, Restored(db, e, newFid, now))
    ensures RowGone(db.log, e, Restored(db, e, newFid, now).log)
  {
    HalfRestoredIs(db, e, newFid, now);
    RowIsGone(HalfRestored(db, e, newFid, now), e);
  }

  /** One position is live that was not before. It is on the tape asked for; its row has the archive file id
      and the copy number asked for; an archive row that was created for it has the disk instance asked for. */
  ghost predicate ReturnedIsAskedFor(db: Db, c: Criteria, db': Db) {
    exists p | p in db'.live && p !in db.live ::
      && (forall q | q in db'.live && q !in db.live :: q == p)
      && (c.vid.Some? ==> p.vid == c.vid.value)
      && (c.archiveFileId.Some? ==> db'.live[p].archiveFileId == c.archiveFileId.value)
      && (c.copyNb.Some? ==> db'.live[p].copyNb == c.copyNb.value)
      && db'.live[p].archiveFileId in db'.archive
      && (c.diskInstance.Some? && db'.live[p].archiveFileId !in db.archive ==>
            db'.archive[db'.live[p].archiveFileId].diskInstance == c.diskInstance.value)
  }

  lemma ReturnedCopyIsAskedFor(db: Db, c: Criteria, k: nat, newFid: string, now: nat, db': Db)
    requires OnlyRow(db, c, k) && MayReturn(db, db.log[k], newFid) && CopyReturned(db, db.log[k], newFid, now, db')
    ensures ReturnedIsAskedFor(db, c, db')
  {
    assert HasColumns(db, c, db.log[k]);
    var p := db.log[k].pos;
    assert p in db'.live && p !in db.live;
  }

  /** What a restore leaves if it does anything: the one row asked for has come back, and has left the log
      if the restore is `complete`. */
  ghost predicate AskedForReturned(db: Db, c: Criteria, newFid: string, now: nat, db': Db, complete: bool) {
    && ReturnedIsAskedFor(db, c, db')
    && exists k: nat :: OnlyRow(db, c, k) && MayReturn(db, db.log[k], newFid)
         && CopyReturned(db, db.log[k], newFid, now, db')
         && if complete then RowGone(db.log, db.log[k], db'.log) else db'.log == db.log
  }

  lemma RestoredIsAskedFor(db: Db, c: Criteria, newFid: string, now: nat)
    requires Restorable(db, c, newFid)
    ensures var e := Matching(db, c)[0];
      && AskedForReturned(db, c, newFid, now, Restored(db, e, newFid, now), true)
      && AskedForReturned(db, c, newFid, now, HalfRestored(db, e, newFid, now), false)
  {
    RestorableIff(db, c, newFid);
    MatchingIsOnlyRow(db, c);
    var k: nat :| OnlyRow(db, c, k) && MayReturn(db, db.log[k], newFid);
    var e := db.log[k];
    RestoredIs(db, e, newFid, now);
    HalfRestoredIs(db, e, newFid, now);
    ReturnedCopyIsAskedFor(db, c, k, newFid, now, Restored(db, e, newFid, now));
    ReturnedCopyIsAskedFor(db, c, k, newFid, now, HalfRestored(db, e, newFid, now));
  }

  /** The archive row has the disk instance asked for if and only if it was not there before the restore, or
      had that instance already. */
  lemma RestoredInstanceIff(db: Db, c: Criteria, newFid: string, now: nat)
    requires Restorable(db, c, newFid) && c.diskInstance.Some?
    ensures var e := Matching(db, c)[0];
      var after := Restored(db, e, newFid, now);
      && e.archiveFileId in after.archive
      && (after.archive[e.archiveFileId].diskInstance == c.diskInstance.value <==>
            (e.archiveFileId in db.archive ==> db.archive[e.archiveFileId].diskInstance == c.diskInstance.value))
  {
    RestorableIff(db, c, newFid);
    MatchingIsOnlyRow(db, c);
    var k: nat :| OnlyRow(db, c, k) && MayReturn(db, db.log[k], newFid);
    assert HasColumns(db, c, db.log[k]);
    RestoredIs(db, db.log[k], newFid, now);
  }

  // ----- purging and reclaiming -----

  /** Purging takes exactly the log rows of the tape; reclaiming also resets the tape's row. */
  lemma PurgedIs(db: Db, vid: Vid)
    ensures Purged(db, vid) == db.(log := Purged(db, vid).log)
    ensures forall e :: multiset(Purged(db, vid).log)[e] == if e.pos.vid == vid then 0 else multiset(db.log)[e]
    ensures vid in db.tapes ==>
      Reclaimed(db, vid) == Purged(db, vid).(tapes := db.tapes[vid := Tape(0, 0, 0, false, false)])
  {
    forall e ensures multiset(Purged(db, vid).log)[e] == if e.pos.vid == vid then 0 else multiset(db.log)[e] {
      FilterCounts(db.log, OffTape(vid), e);
    }
  }
}

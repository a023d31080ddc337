/** restoreFileInRecycleLog, statement by statement. insertTapeFile commits half way, so this
    transaction publishes an intermediate state. */
module Restore {
  import opened Tables
  import opened Batch
  import opened Recycle
  import opened Invariant
  import opened Sessions
  import opened Transactions

  /** insertArchiveFile, if getArchiveFileById finds no file. */
  function ArchiveStmts(visible: bool, e: LogEntry, newFid: string, now: nat): seq<Stmt> {
    if visible then [] else [InsertArchiveRow(e.archiveFileId, RestoredRow(e, newFid, now))]
  }

  function InsertStmt(e: LogEntry, now: nat): Stmt {
    InsertLiveRow(e.pos, RestoredTapeFile(e, now))
  }

  /** Only insertTapeFile, with the commit inside it, has an AutoRollback in scope. */
  function RestoreLines(backend: Backend, db: Db, e: LogEntry, newFid: string, now: nat): seq<Line<Stmt>> {
    FirstHalf(backend, ArchiveStmts(Visible(db, e.archiveFileId), e, newFid, now), InsertStmt(e, now))
      + SecondHalf(backend, DeleteLogRow(e))
  }

  /** The check, made before any statement changes anything, that no live copy has this number. */
  predicate NumberFree(db: Db, e: LogEntry) {
    Visible(db, e.archiveFileId) ==> forall p | p in CopiesOf(db, e.archiveFileId) :: db.live[p].copyNb != e.copyNb
  }

  predicate EntryRestorable(db: Db, e: LogEntry, newFid: string) {
    ArchiveRestorable(db, e, newFid) && CopyRestorable(db, e)
  }

  lemma ArchiveEffect(db: Db, e: LogEntry, newFid: string, now: nat)
    requires NumberFree(db, e)
    ensures Effect(ApplyStmt, db, ArchiveStmts(Visible(db, e.archiveFileId), e, newFid, now)) ==
      if ArchiveRestorable(db, e, newFid) then Some(WithArchive(db, e, newFid, now)) else None
  {
    var pre := ArchiveStmts(Visible(db, e.archiveFileId), e, newFid, now);
    if pre != [] { assert pre[..0] == []; }
    assert DiskKeyFree(db.archive, e.archive.(diskFileId := newFid)) <==>
           DiskKeyFree(db.archive, RestoredRow(e, newFid, now));
  }

  lemma CopyEffect(db: Db, e: LogEntry, newFid: string, now: nat)
    requires NumberFree(db, e) && ArchiveRestorable(db, e, newFid)
    ensures ApplyStmt(WithArchive(db, e, newFid, now), InsertStmt(e, now)) ==
      if CopyRestorable(db, e) then Some(HalfRestored(db, e, newFid, now)) else None
  {
  }

  lemma InsertEffect(db: Db, e: LogEntry, newFid: string, now: nat)
    requires NumberFree(db, e)
    ensures Effect(ApplyStmt, db, ArchiveStmts(Visible(db, e.archiveFileId), e, newFid, now) + [InsertStmt(e, now)]) ==
      if EntryRestorable(db, e, newFid) then Some(HalfRestored(db, e, newFid, now)) else None
  {
    var pre := ArchiveStmts(Visible(db, e.archiveFileId), e, newFid, now);
    ArchiveEffect(db, e, newFid, now);
    EffectOfLast(ApplyStmt, db, pre, InsertStmt(e, now));
    if ArchiveRestorable(db, e, newFid) { CopyEffect(db, e, newFid, now); }
  }

  /** How many statements come before insertTapeFile. */
  function Before(db: Db, e: LogEntry): nat {
    if Visible(db, e.archiveFileId) then 0 else 1
  }

  /** The inserts are published. */
  ghost predicate InsertsPublished(backend: Backend, db: Db, e: LogEntry, faults: seq<Fault>) {
    FirstPublishes(backend, Before(db, e), faults)
  }

  /** The delete from the recycle log is published. */
  predicate DeletePublished(backend: Backend, db: Db, e: LogEntry, faults: seq<Fault>) {
    FaultAt(faults, Before(db, e) + 2).NoFault? && SecondPublishes(backend, faults, Before(db, e) + 3)
  }

  lemma HalfDiffers(db: Db, e: LogEntry, newFid: string, now: nat)
    requires EntryRestorable(db, e, newFid) && e in db.log
    ensures HalfRestored(db, e, newFid, now) != db
    ensures HalfRestored(db, e, newFid, now) != Restored(db, e, newFid, now)
    ensures Restored(db, e, newFid, now) != db
  {
    var half, full := HalfRestored(db, e, newFid, now), Restored(db, e, newFid, now);
    assert e.pos in half.live && e.pos in full.live && e.pos !in db.live;
    assert e in half.log && e !in full.log;
  }

  /** Which of three states a restore leaves, for every list of faults: nothing is done exactly when
      the entry is not restorable or the commit inside insertTapeFile is not carried out; everything
      exactly when also the delete is published; and otherwise, and only then, the copy is back in the
      live table and still in the recycle log. */
  lemma RestoreOutcomes(s: Session<Db>, e: LogEntry, newFid: string, now: nat, faults: seq<Fault>)
    requires Idle(s) && NumberFree(s.committed, e) && e in s.committed.log
    ensures var db := s.committed;
      var d := Outcome(ApplyStmt, s, RestoreLines(s.backend, db, e, newFid, now), faults);
      var inserted := EntryRestorable(db, e, newFid) && InsertsPublished(s.backend, db, e, faults);
      && (d == db <==> !inserted)
      && (inserted ==>
            (d == Restored(db, e, newFid, now) <==> DeletePublished(s.backend, db, e, faults)) &&
            (d == HalfRestored(db, e, newFid, now) <==> !DeletePublished(s.backend, db, e, faults)))
  {
    var db := s.committed;
    var pre := ArchiveStmts(Visible(db, e.archiveFileId), e, newFid, now);
    HalfWayOutcomes(ApplyStmt, s, pre, InsertStmt(e, now), DeleteLogRow(e), faults);
    InsertEffect(db, e, newFid, now);
    if EntryRestorable(db, e, newFid) { HalfDiffers(db, e, newFid, now); }
  }

  /** A restore succeeds exactly when the entry is restorable and no statement of it fails. */
  lemma RestoreSucceeds(s: Session<Db>, e: LogEntry, newFid: string, now: nat, faults: seq<Fault>)
    requires Idle(s) && NumberFree(s.committed, e)
    ensures var db := s.committed;
      var lines := RestoreLines(s.backend, db, e, newFid, now);
      var ok := RunLines(ApplyStmt, s, lines, faults).1;
      && ok == (EntryRestorable(db, e, newFid) && AllRun(s.backend, Before(db, e), faults))
      && (ok ==> Outcome(ApplyStmt, s, lines, faults) == Restored(db, e, newFid, now))
  {
    var pre := ArchiveStmts(Visible(s.committed, e.archiveFileId), e, newFid, now);
    assert |pre| == Before(s.committed, e);
    InsertEffect(s.committed, e, newFid, now);
    var half :=
      if EntryRestorable(s.committed, e, newFid) then Some(HalfRestored(s.committed, e, newFid, now)) else None;
    HalfWaySucceeds(ApplyStmt, s, pre, InsertStmt(e, now), DeleteLogRow(e), faults, half);
  }

  /** The lines up to and with the commit inside insertTapeFile. */
  function InsertLines(backend: Backend, db: Db, e: LogEntry, newFid: string, now: nat): seq<Line<Stmt>> {
    FirstHalf(backend, ArchiveStmts(Visible(db, e.archiveFileId), e, newFid, now), InsertStmt(e, now))
  }

  /** Even when a restore succeeds, another session can read the copy in both tables, after the first of
      its two commits. */
  lemma RestoreShowsHalf(s: Session<Db>, e: LogEntry, newFid: string, now: nat, faults: seq<Fault>)
    requires Idle(s) && NumberFree(s.committed, e)
    requires RunLines(ApplyStmt, s, RestoreLines(s.backend, s.committed, e, newFid, now), faults).1
    ensures var db := s.committed;
      var first := InsertLines(s.backend, db, e, newFid, now);
      first <= RestoreLines(s.backend, db, e, newFid, now) &&
      RunLines(ApplyStmt, s, first, faults).0.committed == HalfRestored(db, e, newFid, now)
  {
    var db := s.committed;
    var pre := ArchiveStmts(Visible(db, e.archiveFileId), e, newFid, now);
    var first := InsertLines(s.backend, db, e, newFid, now);
    var second: seq<Line<Stmt>> := SecondHalf(s.backend, DeleteLogRow(e));
    RunConcat(ApplyStmt, s, first, second, faults);
    FirstHalfRuns(ApplyStmt, s, pre, InsertStmt(e, now), faults);
    InsertEffect(db, e, newFid, now);
  }

  /** The half-restored state records the position twice, and the entry cannot be restored again, in
      that state or in any other in which the copy is live. */
  lemma HalfRestoredIsStuck(db: Db, e: LogEntry, newFid: string, now: nat)
    requires e in db.log && EntryRestorable(db, e, newFid) && e.archive.storageClass in db.storageClasses
    ensures var half := HalfRestored(db, e, newFid, now);
      e in half.log && e.pos in half.live && !PositionsUnique(half) && !NumberFree(half, e)
    ensures forall later: Db, otherFid | e.pos in later.live :: !EntryRestorable(later, e, otherFid)
  {
    var half := HalfRestored(db, e, newFid, now);
    assert e.pos in CopiesOf(half, e.archiveFileId);
  }

  /** insertTapeFile first looks for other live copies with this number, to displace them: in a
      restore that has passed its check there are none. */
  lemma RestoreDisplacesNothing(db: Db, e: LogEntry, newFid: string, now: nat)
    requires EntryRestorable(db, e, newFid) && ArchiveIffLive(db)
    ensures Displaced(WithArchive(db, e, newFid, now),
              [FileEvent(e.pos, FileInfo(e.archiveFileId, "", "", 0, 0, 0, "", "", e.blockId, e.copyNb))]) == {}
  {
    var d := WithArchive(db, e, newFid, now);
    forall p | p in d.live ensures d.live[p].archiveFileId != e.archiveFileId || d.live[p].copyNb != e.copyNb {
      assert p in CopiesOf(db, e.archiveFileId) <==> db.live[p].archiveFileId == e.archiveFileId;
    }
  }
}

/** The recycle-log operations of the catalogue, on a connection that may fail at any statement. */
module RecycleOperations {
  import opened Tables
  import opened Recycle
  import opened RecycleRows
  import opened Sessions
  import opened Transactions
  import opened Restore
  import opened Writers
  import Runs

  ghost predicate NoFaults(faults: seq<Fault>) {
    forall i: nat :: FaultAt(faults, i).NoFault?
  }

  /** moveArchiveFileToRecycleLog: nothing to do without a snapshot; an inconsistent request is
      refused; otherwise all or nothing. */
  method MoveArchiveFileToRecycleLog(conn: Conn, req: DeleteRequest, now: nat) returns (ok: bool)
    requires Idle(conn.session)
    modifies conn`session
    ensures var db, d := old(conn.session.committed), conn.session.committed;
      if req.archiveFile.None? then ok && d == db
      else
        var a := req.archiveFile.value;
        if !RequestConsistent(req, a) then !ok && d == db
        else
          && (d == db || (TapesKnown(db, a) && d == MovedFile(db, req, a, now)))
          && (ok ==> d == MovedFile(db, req, a, now))
          && (NoFaults(conn.faults) ==> ok == TapesKnown(db, a))
    ensures var db, d := old(conn.session.committed), conn.session.committed;
      req.archiveFile.Some? ==>
        var a := req.archiveFile.value;
        && (d == db || FileMoved(db, req, a, now, d)) && (ok ==> FileMoved(db, req, a, now, d))
        && (req.diskInstance != a.diskInstance || req.diskFilePath == "" ==> !ok && d == db)
        && (a.id in db.archive && (exists c | c in a.copies :: c.pos.vid !in db.tapes) ==> !ok && d == db)
    ensures NoFaults(conn.faults) ==>
      Runs.Next(old(conn.session.committed), Runs.MoveFile(req, now), conn.session.committed)
  {
    if req.archiveFile.None? { return true; }
    var a := req.archiveFile.value;
    FileMovedIff(conn.session.committed, req, a, now, MovedFile(conn.session.committed, req, a, now));
    if !RequestConsistent(req, a) { return false; }
    MoveFileIsAtomic(conn.session, req, a, now, conn.faults);
    ok := conn.Run(MoveFileLines(conn.session.backend, req, a, now));
    conn.Release();
  }

  /** What a move of copies leaves, by the fault list: Postgres is all or nothing; on Oracle a statement that is
      refused half way leaves what the statements before it had done, unless the connection is lost. */
  ghost predicate MoveOutcome(
      backend: Backend, db: Db, a: ArchiveFile, reason: string, now: nat, faults: seq<Fault>, ok: bool, d: Db)
  {
    var stmts := MoveCopyStmts(a, reason, now);
    && (ok ==> d == MovedCopies(db, a, reason, now))
    && (ok ==> TapesKnown(db, a)) && (NoFaults(faults) ==> ok == TapesKnown(db, a))
    && (backend.Postgres? ==> d == db || (TapesKnown(db, a) && d == MovedCopies(db, a, reason, now)))
    && (backend.Oracle? ==>
          var k := Reach(ApplyStmt, db, stmts, faults, 1);
          Some(d) ==
            if k < |stmts| then
              (if Lost(FaultAt(faults, 1 + k)) then Some(db) else Effect(ApplyStmt, db, stmts[..k]))
            else if Carried(FaultAt(faults, |stmts| + 2)) then Some(MovedCopies(db, a, reason, now))
            else Some(db))
  }

  /** The same on rows and columns; and that, if nothing goes wrong, it is a step of the protocol. */
  ghost predicate MoveMeans(
      backend: Backend, db: Db, a: ArchiveFile, reason: string, now: nat, faults: seq<Fault>, ok: bool, d: Db)
  {
    && (ok ==> CopiesMoved(db, a, reason, now, d))
    && (backend.Postgres? ==> d == db || CopiesMoved(db, a, reason, now, d))
    && (a.id in db.archive && (exists c | c in a.copies :: c.pos.vid !in db.tapes) ==> !ok)
    && (NoFaults(faults) && (backend.Postgres? || ok) ==>
          forall vid :: Runs.Next(db, Runs.MoveCopy(vid, a, reason, now), d))
  }

  lemma MoveOutcomeMeans(
      backend: Backend, db: Db, a: ArchiveFile, reason: string, now: nat, faults: seq<Fault>, ok: bool, d: Db)
    requires MoveOutcome(backend, db, a, reason, now, faults, ok, d)
    ensures MoveMeans(backend, db, a, reason, now, faults, ok, d)
  {
    CopiesMovedIff(db, a, reason, now, d);
  }

  method RunMove(conn: Conn, a: ArchiveFile, reason: string, now: nat) returns (ok: bool)
    requires Idle(conn.session)
    modifies conn`session
    ensures MoveOutcome(old(conn.session.backend), old(conn.session.committed), a, reason, now, conn.faults, ok,
                        conn.session.committed)
  {
    MoveCopyEffect(conn.session.committed, a, reason, now);
    if conn.session.backend.Postgres? {
      PostgresIsAtomic(ApplyStmt, conn.session, MoveCopyStmts(a, reason, now), false, conn.faults);
    } else {
      OffThenCommitOutcome(ApplyStmt, conn.session, MoveCopyStmts(a, reason, now), false, conn.faults);
    }
    ok := conn.Run(MoveCopyLines(conn.session.backend, a, reason, now));
    conn.Release();
  }

  /** deleteTapeFileCopy. */
  method DeleteTapeFileCopy(conn: Conn, a: ArchiveFile, reason: string, now: nat) returns (ok: bool)
    requires Idle(conn.session)
    modifies conn`session
    ensures MoveOutcome(old(conn.session.backend), old(conn.session.committed), a, reason, now, conn.faults, ok,
                        conn.session.committed)
    ensures MoveMeans(old(conn.session.backend), old(conn.session.committed), a, reason, now, conn.faults, ok,
                      conn.session.committed)
  {
    ok := RunMove(conn, a, reason, now);
    MoveOutcomeMeans(old(conn.session.backend), old(conn.session.committed), a, reason, now, conn.faults, ok,
                     conn.session.committed);
  }

  /** Which of three states a restore leaves. */
  ghost predicate RestoreOutcome(
      backend: Backend, db: Db, c: Criteria, newFid: string, now: nat, faults: seq<Fault>, ok: bool, d: Db)
  {
    && (!Restorable(db, c, newFid) ==> !ok && d == db)
    && (Restorable(db, c, newFid) ==>
          var e := Matching(db, c)[0];
          d == (if !InsertsPublished(backend, db, e, faults) then db
                else if DeletePublished(backend, db, e, faults) then Restored(db, e, newFid, now)
                else HalfRestored(db, e, newFid, now)))
    && (ok ==> d == Restored(db, Matching(db, c)[0], newFid, now))
    && (NoFaults(faults) ==> ok == Restorable(db, c, newFid))
  }

  /** The same, without the functions that compute it: a caller can check in advance whether a restore can
      succeed, and it restores the one copy that was asked for. */
  ghost predicate RestoreMeans(db: Db, c: Criteria, newFid: string, now: nat, faults: seq<Fault>, ok: bool, d: Db) {
    && (!MayRestore(db, c, newFid) ==> !ok && d == db)
    && (ok ==> AskedForReturned(db, c, newFid, now, d, true))
    && (d == db || exists complete :: AskedForReturned(db, c, newFid, now, d, complete))
    && (NoFaults(faults) ==> ok == MayRestore(db, c, newFid))
  }

  lemma OutcomeMeans(
      backend: Backend, db: Db, c: Criteria, newFid: string, now: nat, faults: seq<Fault>, ok: bool, d: Db)
    requires RestoreOutcome(backend, db, c, newFid, now, faults, ok, d)
    ensures RestoreMeans(db, c, newFid, now, faults, ok, d)
  {
    RestorableIff(db, c, newFid);
    if Restorable(db, c, newFid) { RestoredIsAskedFor(db, c, newFid, now); }
  }

  /** The checks of a restore, and its statements. */
  method RunRestore(conn: Conn, c: Criteria, newFid: string, now: nat) returns (ok: bool)
    requires Idle(conn.session)
    modifies conn`session
    ensures RestoreOutcome(old(conn.session.backend), old(conn.session.committed), c, newFid, now, conn.faults, ok,
                           conn.session.committed)
  {
    var db := conn.session.committed;
    if c.vid.Some? && c.vid.value !in db.tapes { return false; }
    var matching := Matching(db, c);
    if matching == [] { return false; }
    var e := matching[0];
    if |matching| > 1 { return false; }
    if !NumberFree(db, e) { return false; }
    assert e in matching;
    RestoreOutcomes(conn.session, e, newFid, now, conn.faults);
    RestoreSucceeds(conn.session, e, newFid, now, conn.faults);
    ok := conn.Run(RestoreLines(conn.session.backend, db, e, newFid, now));
    conn.Release();
  }

  /** restoreFileInRecycleLog: refused, with no change, unless exactly one entry matches, its copy
      number is free and its rows fit; otherwise the faults decide which of three states it leaves, one
      of them with the copy in both tables. */
  method RestoreFileInRecycleLog(conn: Conn, c: Criteria, newFid: string, now: nat) returns (ok: bool)
    requires Idle(conn.session)
    modifies conn`session
    ensures RestoreOutcome(old(conn.session.backend), old(conn.session.committed), c, newFid, now, conn.faults, ok,
                           conn.session.committed)
    ensures RestoreMeans(old(conn.session.committed), c, newFid, now, conn.faults, ok, conn.session.committed)
    ensures NoFaults(conn.faults) ==>
      Runs.Next(old(conn.session.committed), Runs.Restore(c, newFid, now), conn.session.committed)
  {
    ok := RunRestore(conn, c, newFid, now);
    OutcomeMeans(old(conn.session.backend), old(conn.session.committed), c, newFid, now, conn.faults, ok,
                 conn.session.committed);
  }

  /** Reclaiming runs as two autocommitted statements. Stopped between them it has purged the log, and
      running it again finishes the job. */
  lemma InterruptedReclaimCompletes(db: Db, vid: Vid)
    requires Reclaimable(db, vid)
    ensures Reclaimable(Purged(db, vid), vid) && Reclaimed(Purged(db, vid), vid) == Reclaimed(db, vid)
  {
    FilterTwice(db.log, OffTape(vid));
  }

  lemma {:induction false} FilterTwice<T(!new)>(s: seq<T>, keep: T -> bool)
    ensures Filter(Filter(s, keep), keep) == Filter(s, keep)
  {
    if s != [] {
      var n := |s| - 1;
      FilterTwice(s[..n], keep);
      var r := Filter(s[..n], keep);
      assert (r + [s[n]])[..|r|] == r;
    }
  }
}

/** The move and restore transactions as the two back ends run them, statement by statement, on a
    session that may fail at any point. */
module Transactions {
  import opened Tables
  import opened Recycle
  import opened Invariant
  import opened Sessions

  datatype Stmt =
    | InsertLogRow(id: nat, copy: Copy, reason: string, now: nat)
    | MarkDirty(id: nat)
    | DeleteLiveOf(id: nat)
    | DeleteLiveAt(pos: Pos)
    | DeleteArchiveRow(id: nat)
    | InsertArchiveRow(id: nat, row: ArchiveRow)
    | InsertLiveRow(pos: Pos, tapeFile: TapeFile)
    | DeleteLogRow(entry: LogEntry)

  function ApplyStmt(db: Db, stmt: Stmt): Option<Db> {
    match stmt
    case InsertLogRow(id, c, reason, now) =>
      if id in db.archive && c.pos.vid !in db.tapes then None else Some(InsertLog(db, id, c, reason, now))
    case MarkDirty(id) => Some(SetDirty(db, id))
    case DeleteLiveOf(id) => Some(DeleteCopiesOf(db, id))
    case DeleteLiveAt(p) => Some(db.(live := db.live - {p}))
    case DeleteArchiveRow(id) =>
      if CopiesOf(db, id) != {} then None else Some(db.(archive := db.archive - {id}))
    case InsertArchiveRow(id, row) =>
      if id in db.archive || row.storageClass !in db.storageClasses || row.diskInstance !in db.diskInstances
         || !DiskKeyFree(db.archive, row) then None
      else Some(db.(archive := db.archive[id := row]))
    case InsertLiveRow(p, row) =>
      if p in db.live || p.vid !in db.tapes || row.archiveFileId !in db.archive
         || !BlockFree(db.live, p.vid, row.blockId) then None
      else Some(db.(live := db.live[p := row]))
    case DeleteLogRow(e) => Some(DeleteLog(db, e))
  }

  /** The foreign keys and the unique constraints. */
  predicate KeysHold(db: Db) {
    && (forall p | p in db.live :: p.vid in db.tapes && db.live[p].archiveFileId in db.archive)
    && (forall e | e in db.log :: e.pos.vid in db.tapes)
    && (forall p, q | p in db.live && q in db.live && p != q && p.vid == q.vid ::
          db.live[p].blockId != db.live[q].blockId)
    && (forall id | id in db.archive ::
          db.archive[id].storageClass in db.storageClasses && db.archive[id].diskInstance in db.diskInstances)
    && DiskKeysUnique(db.archive)
  }

  lemma InsertArchiveKeepsKeys(db: Db, id: nat, row: ArchiveRow)
    requires KeysHold(db) && ApplyStmt(db, InsertArchiveRow(id, row)).Some?
    ensures KeysHold(ApplyStmt(db, InsertArchiveRow(id, row)).value)
  {
  }

  lemma InsertLiveKeepsKeys(db: Db, p: Pos, row: TapeFile)
    requires KeysHold(db) && ApplyStmt(db, InsertLiveRow(p, row)).Some?
    ensures KeysHold(ApplyStmt(db, InsertLiveRow(p, row)).value)
  {
  }

  lemma DeleteArchiveKeepsKeys(db: Db, id: nat)
    requires KeysHold(db) && ApplyStmt(db, DeleteArchiveRow(id)).Some?
    ensures KeysHold(ApplyStmt(db, DeleteArchiveRow(id)).value)
  {
    forall p | p in db.live ensures db.live[p].archiveFileId != id { assert p !in CopiesOf(db, id); }
  }

  /** Without new archive rows or tape files: what is live was live, and the log may have grown. */
  lemma FewerRowsKeepKeys(db: Db, db': Db)
    requires KeysHold(db) && db'.archive == db.archive && db'.tapes.Keys == db.tapes.Keys
    requires db'.storageClasses == db.storageClasses && db'.diskInstances == db.diskInstances
    requires forall p | p in db'.live :: p in db.live && db'.live[p] == db.live[p]
    requires forall e | e in db'.log :: e.pos.vid in db.tapes
    ensures KeysHold(db')
  {
  }

  /** No statement, whatever its place in a program, breaks a constraint. */
  lemma StatementKeepsKeys(db: Db, stmt: Stmt)
    requires KeysHold(db) && ApplyStmt(db, stmt).Some?
    ensures KeysHold(ApplyStmt(db, stmt).value)
  {
    match stmt
    case InsertArchiveRow(id, row) => InsertArchiveKeepsKeys(db, id, row);
    case InsertLiveRow(p, row) => InsertLiveKeepsKeys(db, p, row);
    case DeleteArchiveRow(id) => DeleteArchiveKeepsKeys(db, id);
    case _ => FewerRowsKeepKeys(db, ApplyStmt(db, stmt).value);
  }

  // ----- the statements of the moves -----

  function LogStmts(id: nat, copies: seq<Copy>, reason: string, now: nat): seq<Stmt> {
    seq(|copies|, i requires 0 <= i < |copies| => InsertLogRow(id, copies[i], reason, now))
  }

  function DeleteStmts(copies: seq<Copy>): seq<Stmt> {
    seq(|copies|, i requires 0 <= i < |copies| => DeleteLiveAt(copies[i].pos))
  }

  function MoveFileStmts(req: DeleteRequest, a: ArchiveFile, now: nat): seq<Stmt> {
    LogStmts(a.id, a.copies, DeletionReason(req), now)
      + [MarkDirty(req.archiveFileId), DeleteLiveOf(req.archiveFileId), DeleteArchiveRow(req.archiveFileId)]
  }

  function MoveCopyStmts(a: ArchiveFile, reason: string, now: nat): seq<Stmt> {
    LogStmts(a.id, a.copies, AdminReason(reason), now) + [MarkDirty(a.id)] + DeleteStmts(a.copies)
  }

  lemma {:induction false} LogStmtsEffect(db: Db, id: nat, copies: seq<Copy>, reason: string, now: nat)
    ensures Effect(ApplyStmt, db, LogStmts(id, copies, reason, now)) ==
      if id in db.archive && exists c | c in copies :: c.pos.vid !in db.tapes then None
      else Some(LogCopies(db, id, copies, reason, now))
  {
    if copies != [] {
      var n := |copies| - 1;
      assert LogStmts(id, copies, reason, now)[..n] == LogStmts(id, copies[..n], reason, now);
      LogStmtsEffect(db, id, copies[..n], reason, now);
      LogCopiesIs(db, id, copies[..n], reason, now);
      assert copies == copies[..n] + [copies[n]];
    }
  }

  lemma {:induction false} DeleteStmtsEffect(db: Db, copies: seq<Copy>)
    ensures Effect(ApplyStmt, db, DeleteStmts(copies)) == Some(DeleteAt(db, copies))
  {
    if copies == [] {
      assert db.live - {} == db.live && Positions(copies) == {};
    } else {
      var n := |copies| - 1;
      assert DeleteStmts(copies)[..n] == DeleteStmts(copies[..n]);
      DeleteStmtsEffect(db, copies[..n]);
      assert copies == copies[..n] + [copies[n]];
      assert Positions(copies) == Positions(copies[..n]) + {copies[n].pos};
      assert db.live - Positions(copies) == (db.live - Positions(copies[..n])) - {copies[n].pos};
    }
  }

  /** The statements of a file move together do what MovedFile says; a tape the snapshot names and
      the catalogue does not know stops them. */
  lemma MoveFileEffect(db: Db, req: DeleteRequest, a: ArchiveFile, now: nat)
    ensures Effect(ApplyStmt, db, MoveFileStmts(req, a, now)) ==
      if TapesKnown(db, a) then Some(MovedFile(db, req, a, now)) else None
  {
    var id := req.archiveFileId;
    LogStmtsEffect(db, a.id, a.copies, DeletionReason(req), now);
    EffectConcat(ApplyStmt, db, LogStmts(a.id, a.copies, DeletionReason(req), now),
                 [MarkDirty(id), DeleteLiveOf(id), DeleteArchiveRow(id)]);
    if TapesKnown(db, a) {
      var d := LogCopies(db, a.id, a.copies, DeletionReason(req), now);
      ThreeEffects(d, MarkDirty(id), DeleteLiveOf(id), DeleteArchiveRow(id));
      assert CopiesOf(DeleteCopiesOf(SetDirty(d, id), id), id) == {};
    }
  }

  lemma ThreeEffects(db: Db, a: Stmt, b: Stmt, c: Stmt)
    requires ApplyStmt(db, a).Some? && ApplyStmt(ApplyStmt(db, a).value, b).Some?
    ensures Effect(ApplyStmt, db, [a, b, c]) == ApplyStmt(ApplyStmt(ApplyStmt(db, a).value, b).value, c)
  {
    assert [a, b, c][..2] == [a, b] && [a, b][..1] == [a] && [a][..0] == [];
    assert Effect(ApplyStmt, db, [a]) == ApplyStmt(db, a);
    assert Effect(ApplyStmt, db, [a, b]) == ApplyStmt(ApplyStmt(db, a).value, b);
  }

  lemma MoveCopyEffect(db: Db, a: ArchiveFile, reason: string, now: nat)
    ensures Effect(ApplyStmt, db, MoveCopyStmts(a, reason, now)) ==
      if TapesKnown(db, a) then Some(MovedCopies(db, a, reason, now)) else None
  {
    var logs := LogStmts(a.id, a.copies, AdminReason(reason), now);
    LogStmtsEffect(db, a.id, a.copies, AdminReason(reason), now);
    EffectConcat(ApplyStmt, db, logs, [MarkDirty(a.id)]);
    EffectConcat(ApplyStmt, db, logs + [MarkDirty(a.id)], DeleteStmts(a.copies));
    if TapesKnown(db, a) {
      var d := LogCopies(db, a.id, a.copies, AdminReason(reason), now);
      assert [MarkDirty(a.id)][..0] == [];
      assert Effect(ApplyStmt, d, [MarkDirty(a.id)]) == Some(SetDirty(d, a.id));
      DeleteStmtsEffect(SetDirty(d, a.id), a.copies);
    }
  }

  // ----- moving an archive file, on either back end -----

  function MoveFileLines(backend: Backend, req: DeleteRequest, a: ArchiveFile, now: nat): seq<Line<Stmt>> {
    var stmts := MoveFileStmts(req, a, now);
    if backend.Postgres? then Explicit(stmts, true) else LastAutocommits(stmts, true)
  }

  /** Whatever fails, at whatever statement, other sessions see the archive file either not moved at
      all or wholly moved, on both back ends; without failures both publish the same tables. */
  lemma MoveFileIsAtomic(s: Session<Db>, req: DeleteRequest, a: ArchiveFile, now: nat, faults: seq<Fault>)
    requires Idle(s)
    ensures var lines := MoveFileLines(s.backend, req, a, now);
      var (t, ok) := RunLines(ApplyStmt, s, lines, faults);
      var d := Outcome(ApplyStmt, s, lines, faults);
      && (forall k | 0 <= k <= |lines| ::
            var seen := RunLines(ApplyStmt, s, lines[..k], faults).0.committed;
            seen == s.committed || (TapesKnown(s.committed, a) && seen == MovedFile(s.committed, req, a, now)))
      && (d == s.committed || (TapesKnown(s.committed, a) && d == MovedFile(s.committed, req, a, now)))
      && (ok ==> TapesKnown(s.committed, a) && d == MovedFile(s.committed, req, a, now))
      && ((forall i: nat :: FaultAt(faults, i).NoFault?) ==> (ok <==> TapesKnown(s.committed, a)))
  {
    var stmts := MoveFileStmts(req, a, now);
    MoveFileEffect(s.committed, req, a, now);
    if s.backend.Postgres? {
      PostgresIsAtomic(ApplyStmt, s, stmts, true, faults);
    } else {
      LastAutocommitsIsAtomic(ApplyStmt, s, stmts, faults);
    }
    var lines := MoveFileLines(s.backend, req, a, now);
    forall k | 0 <= k <= |lines| ensures var seen := RunLines(ApplyStmt, s, lines[..k], faults).0.committed;
      seen == s.committed || (TapesKnown(s.committed, a) && seen == MovedFile(s.committed, req, a, now))
    {
      assert StartOrEffect(ApplyStmt, s.committed, stmts, RunLines(ApplyStmt, s, lines[..k], faults).0.committed);
    }
  }

  // ----- moving one copy: no AutoRollback is in scope -----

  function MoveCopyLines(backend: Backend, a: ArchiveFile, reason: string, now: nat): seq<Line<Stmt>> {
    var stmts := MoveCopyStmts(a, reason, now);
    if backend.Postgres? then Explicit(stmts, false) else OffThenCommit(stmts, false)
  }

  /** On Postgres a copy is moved as a whole or not at all, for every other session at every moment. */
  lemma MoveCopyIsAtomicOnPostgres(s: Session<Db>, a: ArchiveFile, reason: string, now: nat, faults: seq<Fault>)
    requires Idle(s) && s.backend.Postgres?
    ensures var lines := MoveCopyLines(s.backend, a, reason, now);
      var d := Outcome(ApplyStmt, s, lines, faults);
      && (forall k | 0 <= k <= |lines| ::
            var seen := RunLines(ApplyStmt, s, lines[..k], faults).0.committed;
            seen == s.committed || (TapesKnown(s.committed, a) && seen == MovedCopies(s.committed, a, reason, now)))
      && (d == s.committed || (TapesKnown(s.committed, a) && d == MovedCopies(s.committed, a, reason, now)))
      && (RunLines(ApplyStmt, s, lines, faults).1 ==> d == MovedCopies(s.committed, a, reason, now))
      && ((forall i: nat :: FaultAt(faults, i).NoFault?) ==>
            (RunLines(ApplyStmt, s, lines, faults).1 <==> TapesKnown(s.committed, a)))
  {
    var stmts := MoveCopyStmts(a, reason, now);
    PostgresIsAtomic(ApplyStmt, s, stmts, false, faults);
    MoveCopyEffect(s.committed, a, reason, now);
    var lines := MoveCopyLines(s.backend, a, reason, now);
    forall k | 0 <= k <= |lines| ensures var seen := RunLines(ApplyStmt, s, lines[..k], faults).0.committed;
      seen == s.committed || (TapesKnown(s.committed, a) && seen == MovedCopies(s.committed, a, reason, now))
    {
      assert StartOrEffect(ApplyStmt, s.committed, stmts, RunLines(ApplyStmt, s, lines[..k], faults).0.committed);
    }
  }

  /** On Oracle a copy ends up in both tables exactly when a statement after the insert into the
      recycle log is refused while the connection survives: returning the connection to its pool
      commits the insert alone. `k` is the statement that is refused. */
  lemma HalfMovedOnOracleIff(s: Session<Db>, a: ArchiveFile, reason: string, now: nat, faults: seq<Fault>)
    requires Idle(s) && s.backend.Oracle? && |a.copies| == 1 && a.id in s.committed.archive
    requires TapesKnown(s.committed, a) && a.copies[0].pos in s.committed.live && PositionsUnique(s.committed)
    ensures var d := Outcome(ApplyStmt, s, MoveCopyLines(s.backend, a, reason, now), faults);
      var k := Reach(ApplyStmt, s.committed, MoveCopyStmts(a, reason, now), faults, 1);
      (a.copies[0].pos in d.live && exists e | e in d.log :: e.pos == a.copies[0].pos) <==>
        (1 <= k < 3 && !Lost(FaultAt(faults, 1 + k)))
  {
    var db := s.committed;
    var stmts := MoveCopyStmts(a, reason, now);
    var c := a.copies[0];
    var logged := InsertLog(db, a.id, c, AdminReason(reason), now);
    assert a.copies == [c] && a.copies[..0] == [];
    assert stmts == [InsertLogRow(a.id, c, AdminReason(reason), now), MarkDirty(a.id), DeleteLiveAt(c.pos)];
    OffThenCommitOutcome(ApplyStmt, s, stmts, false, faults);
    MoveCopyEffect(db, a, reason, now);
    MovedCopiesIs(db, a, reason, now);
    OneAndTwoEffects(db, stmts, logged, SetDirty(logged, a.id));
    assert logged.log[|logged.log| - 1].pos == c.pos && logged.log[|logged.log| - 1] in logged.log;
    assert c in a.copies;
  }

  lemma OneAndTwoEffects(db: Db, stmts: seq<Stmt>, one: Db, two: Db)
    requires |stmts| >= 2 && ApplyStmt(db, stmts[0]) == Some(one) && ApplyStmt(one, stmts[1]) == Some(two)
    ensures Effect(ApplyStmt, db, stmts[..0]) == Some(db)
    ensures Effect(ApplyStmt, db, stmts[..1]) == Some(one)
    ensures Effect(ApplyStmt, db, stmts[..2]) == Some(two)
  {
    assert stmts[..1][..0] == stmts[..0] && stmts[..2][..1] == stmts[..1];
  }
}

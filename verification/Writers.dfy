/** A connection object, and what the two writers share: recording the tape files of a batch. */
module Writers {
  import opened Tables
  import opened Batch
  import opened Sessions
  import opened Transactions
  import opened WriterSteps

  predicate Quiet(faults: seq<Fault>) {
    forall f | f in faults :: f.NoFault?
  }

  class Conn {
    var session: Session<Db>
    /** What the environment does to the statements to come. */
    var faults: seq<Fault>

    constructor (backend: Backend, db: Db, faults: seq<Fault>)
      ensures session == Session(backend, db, db, true, false, true) && this.faults == faults
    {
      this.session := Session(backend, db, db, true, false, true);
      this.faults := faults;
    }

    /** In a transaction that started from `db0` and has `d` pending. */
    ghost predicate InTxn(db0: Db, d: Db)
      reads this
    {
      session.committed == db0 && session.pending == d && session.open && !session.autocommit && !session.aborted
    }

    /** Nothing is pending. */
    ghost predicate Clean(db: Db)
      reads this
    {
      session.committed == db && session.pending == db && !session.aborted
    }

    /** BEGIN, or autocommit off, under an AutoRollback. */
    method Open() returns (ok: bool)
      requires Idle(session)
      modifies this
      ensures session.backend == old(session.backend)
      ensures ok ==> InTxn(old(session.committed), old(session.committed))
      ensures !ok ==> Clean(old(session.committed))
      ensures Quiet(old(faults)) ==> ok && Quiet(faults)
    {
      if session.backend.Postgres? {
        session := session.(autocommit := false);
        ok := Statement(Some(session.pending));
      } else {
        session, ok := session.(autocommit := false), true;
      }
    }

    /** One statement of a transaction, under an AutoRollback; None is a constraint violation. */
    method Statement(next: Option<Db>) returns (ok: bool)
      requires session.open && !session.autocommit && !session.aborted
      modifies this
      ensures session.backend == old(session.backend)
      ensures ok ==> next.Some? && InTxn(old(session.committed), next.value)
      ensures !ok ==> Clean(old(session.committed))
      ensures Quiet(old(faults)) ==> Quiet(faults) && ok == next.Some?
    {
      var (t, done) := Exec(session, next, FaultAt(faults, 0));
      session := if !done && t.open then RolledBack(t) else t;
      faults := Later(faults, 1);
      ok := done;
    }

    /** COMMIT, refused when a deferred constraint does not hold. */
    method Commit(constraintsHold: bool) returns (ok: bool, lost: bool)
      requires session.open && !session.autocommit && !session.aborted
      modifies this
      ensures session.backend == old(session.backend)
      ensures ok ==> constraintsHold && Clean(old(session.pending))
      ensures !ok ==> Clean(old(session.committed)) || (lost && constraintsHold && Clean(old(session.pending)))
      ensures Quiet(old(faults)) ==> Quiet(faults) && ok == constraintsHold && !lost
    {
      var f := FaultAt(faults, 0);
      lost := Lost(f);
      assert f == NoFault || f in faults;
      faults := Later(faults, 1);
      if !constraintsHold && !lost {
        session, ok := RolledBack(session), false;
      } else if !constraintsHold {
        session, ok := Closed(session), false;
      } else {
        var (t, done) := ExecCommit(session, f);
        session, ok := t, done;
      }
    }

    method Rollback()
      requires session.open
      modifies this
      ensures session.backend == old(session.backend)
      ensures Clean(old(session.committed)) && faults == old(faults) && session.open
    {
      session := RolledBack(session);
    }

    /** What a statement that failed throws: the connection is closed if it was lost. */
    function Thrown(): Error
      reads this
    {
      if session.open then DatabaseError else ConnectionLost
    }

    /** Runs a program line by line until one fails. */
    method Run(lines: seq<Line<Stmt>>) returns (ok: bool)
      modifies this`session
      ensures (session, ok) == RunLines(ApplyStmt, old(session), lines, faults)
    {
      ok := true;
      var i := 0;
      while ok && i < |lines|
        invariant 0 <= i <= |lines|
        invariant (session, ok) == RunLines(ApplyStmt, old(session), lines[..i], faults)
      {
        var (t, done) := ExecLine(ApplyStmt, session, lines[i], FaultAt(faults, i));
        session, ok := t, done;
        assert lines[..i + 1][..i] == lines[..i];
        i := i + 1;
      }
      assert lines == lines[..i] + lines[i..];
      RunConcat(ApplyStmt, old(session), lines[..i], lines[i..], faults);
    }

    /** ConnPool::returnConn. */
    method Release()
      modifies this`session
      ensures session == Released(old(session))
    {
      session := Released(session);
    }
  }

  // ----- recording the tape files -----

  /** `d'` is `d` with the files recorded: what both back ends do once the archive rows are there. */
  predicate Recorded(d: Db, files: seq<FileEvent>, now: nat, d': Db) {
    && d' == d.(live := d'.live, log := d'.log)
    && LiveWritten(d, files, now, d'.live)
    && LogWritten(d, files, now, d')
  }

  function RepackRows(d: Db, rows: seq<Pos>, now: nat): seq<LogEntry>
    requires forall p | p in rows :: p in d.live && d.live[p].archiveFileId in d.archive
  {
    seq(|rows|, i requires 0 <= i < |rows| =>
      EntryFor(rows[i], d.live[rows[i]], d.archive[d.live[rows[i]].archiveFileId], REPACK_REASON, now))
  }

  lemma RepackRowsEnumerate(d: Db, files: seq<FileEvent>, rows: seq<Pos>, now: nat)
    requires Enumerates(rows, Displaced(d, files))
    requires forall p | p in d.live :: d.live[p].archiveFileId in d.archive
    ensures forall p | p in rows :: p in d.live
    ensures Enumerates(RepackRows(d, rows, now), RepackEntries(d, files, d.archive, now))
  {
    forall p ensures p in rows <==> p in Displaced(d, files) { EnumeratesMember(rows, Displaced(d, files), p); }
    var s := RepackRows(d, rows, now);
    var entries := RepackEntries(d, files, d.archive, now);
    forall e | e in s ensures e in entries {
      var i :| 0 <= i < |rows| && s[i] == e;
      assert rows[i] in Displaced(d, files);
    }
    forall e | e in entries ensures e in s {
      var p :| p in Displaced(d, files) &&
        e == EntryFor(p, d.live[p], d.archive[d.live[p].archiveFileId], REPACK_REASON, now);
      var i :| 0 <= i < |rows| && rows[i] == p;
      assert s[i] == e;
    }
    assert (set e | e in s) == entries;
  }

  function RowSet(rows: seq<Pos>): set<Pos> {
    set p | p in rows
  }

  /** Inserting the new rows first and then deleting the displaced ones by position removes no new and
      no unrelated row. */
  lemma DeleteAfterInsert(d: Db, files: seq<FileEvent>, rows: seq<Pos>, now: nat, live: map<Pos, TapeFile>)
    requires Enumerates(rows, Displaced(d, files)) && SlotsOk(d, files)
    requires live.Keys == d.live.Keys + NewPositions(files)
    requires forall p | p in d.live :: live[p] == d.live[p]
    requires forall f | f in files :: live[f.pos] == NewTapeFile(f, now)
    ensures LiveWritten(d, files, now, live - RowSet(rows))
  {
    assert RowSet(rows) == Displaced(d, files);
    assert forall f | f in files :: SlotFree(d, f);
    assert NewPositions(files) !! d.live.Keys;
  }

  /** insertOldCopiesOfFilesIfAnyOnFileRecycleLog: one INSERT per displaced row. */
  method LogDisplaced(conn: Conn, ghost db0: Db, d: Db, logged: seq<LogEntry>) returns (ok: bool)
    requires conn.InTxn(db0, d)
    modifies conn
    ensures conn.session.backend == old(conn.session.backend)
    ensures ok ==> conn.InTxn(db0, d.(log := d.log + logged))
    ensures !ok ==> conn.Clean(db0)
    ensures Quiet(old(conn.faults)) ==> ok && Quiet(conn.faults)
  {
    assert d.log + logged[..0] == d.log;
    for i := 0 to |logged|
      invariant conn.InTxn(db0, d.(log := d.log + logged[..i])) && conn.session.backend == old(conn.session.backend)
      invariant Quiet(old(conn.faults)) ==> Quiet(conn.faults)
    {
      assert d.log + logged[..i + 1] == d.log + logged[..i] + [logged[i]];
      ok := conn.Statement(Some(d.(log := d.log + logged[..i + 1])));
      if !ok { return; }
    }
    assert logged[..|logged|] == logged;
    ok := true;
  }

  /** One DELETE by position per displaced row. */
  method DeleteDisplaced(conn: Conn, ghost db0: Db, d: Db, rows: seq<Pos>) returns (ok: bool)
    requires conn.InTxn(db0, d)
    modifies conn
    ensures conn.session.backend == old(conn.session.backend)
    ensures ok ==> conn.InTxn(db0, d.(live := d.live - RowSet(rows)))
    ensures !ok ==> conn.Clean(db0)
    ensures Quiet(old(conn.faults)) ==> ok && Quiet(conn.faults)
  {
    assert d.live - RowSet(rows[..0]) == d.live;
    for i := 0 to |rows|
      invariant conn.InTxn(db0, d.(live := d.live - RowSet(rows[..i]))) &&
        conn.session.backend == old(conn.session.backend)
      invariant Quiet(old(conn.faults)) ==> Quiet(conn.faults)
    {
      assert rows[..i + 1] == rows[..i] + [rows[i]];
      assert RowSet(rows[..i + 1]) == RowSet(rows[..i]) + {rows[i]};
      var live := conn.session.pending.live - {rows[i]};
      assert live == d.live - RowSet(rows[..i + 1]);
      ok := conn.Statement(Some(d.(live := live)));
      if !ok { return; }
    }
    assert rows[..|rows|] == rows;
    ok := true;
  }

  /** Every live row references its tape and its archive file (TAPE_FILE_TAPE_FK and
      TAPE_FILE_ARCHIVE_FILE_FK). */
  predicate LiveReferences(d: Db) {
    forall p | p in d.live :: p.vid in d.tapes && d.live[p].archiveFileId in d.archive
  }

  /** The displaced copies go to the recycle log, the new rows go in, the displaced rows go out. */
  method RecordFiles(conn: Conn, ghost db0: Db, d: Db, files: seq<FileEvent>, now: nat) returns (ok: bool)
    requires conn.InTxn(db0, d) && LiveReferences(d)
    requires forall i, j | 0 <= i < j < |files| :: files[i].pos != files[j].pos && files[i].pos.vid == files[j].pos.vid
    modifies conn
    ensures conn.session.backend == old(conn.session.backend)
    ensures ok ==>
      conn.InTxn(db0, conn.session.pending) && SlotsOk(d, files) && Recorded(d, files, now, conn.session.pending)
    ensures !ok ==> conn.Clean(db0)
    ensures Quiet(old(conn.faults)) ==> Quiet(conn.faults) && ok == SlotsOk(d, files) && conn.session.open
  {
    var rows := SelectDisplaced(d, files);
    RepackRowsEnumerate(d, files, rows, now);
    var logged := RepackRows(d, rows, now);
    ok := LogDisplaced(conn, db0, d, logged);
    if !ok { return; }
    var inserted := InsertTapeFiles(d, files, now);
    if inserted.None? { conn.Rollback(); return false; }
    var d4 := d.(log := d.log + logged, live := inserted.value);
    ok := conn.Statement(Some(d4));
    if !ok { return; }
    ok := DeleteDisplaced(conn, db0, d4, rows);
    if !ok { return; }
    DeleteAfterInsert(d, files, rows, now, inserted.value);
    assert conn.session.pending.log[|d.log|..] == logged;
  }
}

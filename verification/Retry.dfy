/** retryOnLostConnection around filesWrittenToTape, while other sessions change the catalogue between
    the tries. */
module Retry {
  import opened Tables
  import opened Batch
  import opened Recycle
  import opened Sessions
  import opened WriterSteps
  import opened Writers
  import opened FilesWritten
  import opened Runs

  // ----- what other sessions keep -----

  lemma RestoreKeepsSchema(db: Db, e: LogEntry, newFid: string, now: nat)
    requires SchemaHolds(db) && ArchiveRestorable(db, e, newFid) && CopyRestorable(db, e)
    ensures SchemaHolds(Restored(db, e, newFid, now))
  {
  }

  /** Every step, also a move with a stale snapshot, keeps the constraints that the database maintains. */
  lemma StepKeepsSchema(db: Db, step: Step, db': Db)
    requires SchemaHolds(db) && Next(db, step, db')
    ensures SchemaHolds(db')
  {
    match step
    case Write(events, now) => if Accepts(db, events) { WriteKeepsSchema(db, events, now, db'); }
    case MoveFile(req, now) =>
      if req.archiveFile.Some? {
        MovedFileIs(db, req, req.archiveFile.value, now);
        LogCopiesIs(db, req.archiveFile.value.id, req.archiveFile.value.copies, DeletionReason(req), now);
      }
    case MoveCopy(_, a, reason, now) =>
      MovedCopiesIs(db, a, reason, now);
      LogCopiesIs(db, a.id, a.copies, AdminReason(reason), now);
    case Restore(c, newFid, now) =>
      if Restorable(db, c, newFid) { RestoreKeepsSchema(db, Matching(db, c)[0], newFid, now); }
    case _ =>
  }

  lemma {:induction false} RunKeepsSchema(run: Run, n: nat)
    requires run.Valid() && SchemaHolds(run.states[0]) && n < |run.states|
    ensures SchemaHolds(run.states[n])
  {
    if n > 0 {
      RunKeepsSchema(run, n - 1);
      StepKeepsSchema(run.states[n - 1], run.steps[n - 1], run.states[n]);
    }
  }

  /** A call in which nothing goes wrong is a step of the protocol. */
  lemma QuietCallIsStep(db: Db, events: seq<Item>, now: nat, r: Result, db': Db)
    requires WriteOutcome(db, events, now, r, db', true)
    ensures Next(db, Write(events, now), db')
  {
  }

  // ----- histories -----

  /** A step that does not reclaim the tape. */
  ghost predicate Harmless(db: Db, step: Step, db': Db, vid: Vid) {
    Next(db, step, db') && !(step == Reclaim(vid) && Reclaimable(db, vid))
  }

  /** The runs from `db` to `db'` that do not reclaim the tape. */
  ghost function Histories(db: Db, db': Db, vid: Vid): iset<Run> {
    iset run: Run |
      && |run.states| == |run.steps| + 1 && run.states[0] == db && run.states[|run.steps|] == db'
      && forall i | 0 <= i < |run.steps| :: Harmless(run.states[i], run.steps[i], run.states[i + 1], vid)
  }

  lemma HistoryIsRun(run: Run, db: Db, db': Db, vid: Vid)
    requires run in Histories(db, db', vid)
    ensures run.Valid() && forall k | 0 <= k < |run.steps| :: !Reclaims(run, k, vid)
  {
    forall k | 0 <= k < |run.steps|
      ensures Next(run.states[k], run.steps[k], run.states[k + 1])
      ensures !(run.steps[k] == Reclaim(vid) && Reclaimable(run.states[k], vid))
    {
      assert Harmless(run.states[k], run.steps[k], run.states[k + 1], vid);
    }
  }

  lemma HistoryStarts(db: Db, vid: Vid) returns (run: Run)
    ensures run in Histories(db, db, vid) && run.steps == []
  {
    run := Run([db], []);
  }

  lemma Chain<D, S>(ok: (D, S, D) -> bool, ds: seq<D>, ss: seq<S>, es: seq<D>, ts: seq<S>)
    requires |ds| == |ss| + 1 && |es| == |ts| + 1 && ds[|ss|] == es[0]
    requires forall i | 0 <= i < |ss| :: ok(ds[i], ss[i], ds[i + 1])
    requires forall i | 0 <= i < |ts| :: ok(es[i], ts[i], es[i + 1])
    ensures forall i | 0 <= i < |ss + ts| :: ok((ds + es[1..])[i], (ss + ts)[i], (ds + es[1..])[i + 1])
  {
    var n := |ss|;
    forall i | 0 <= i < |ss + ts| ensures ok((ds + es[1..])[i], (ss + ts)[i], (ds + es[1..])[i + 1]) {
      if n <= i {
        assert (ds + es[1..])[i] == es[i - n] && (ds + es[1..])[i + 1] == es[i - n + 1];
        assert ok(es[i - n], ts[i - n], es[i - n + 1]);
      }
    }
  }

  lemma HistoryGoesOn(a: Run, db: Db, mid: Db, vid: Vid, b: Run, db': Db) returns (run: Run)
    requires a in Histories(db, mid, vid) && b in Histories(mid, db', vid)
    ensures run in Histories(db, db', vid)
    ensures run.steps == a.steps + b.steps && run.states == a.states + b.states[1..]
  {
    run := Run(a.states + b.states[1..], a.steps + b.steps);
    Chain((d: Db, step: Step, d': Db) => Harmless(d, step, d', vid), a.states, a.steps, b.states, b.steps);
  }

  lemma OneWrite(db: Db, events: seq<Item>, now: nat, db': Db, vid: Vid) returns (run: Run)
    requires Accepts(db, events) && Written(db, events, now, db')
    ensures run in Histories(db, db', vid) && run == Run([db, db'], [Write(events, now)])
  {
    run := Run([db, db'], [Write(events, now)]);
    assert Harmless(db, Write(events, now), db', vid);
  }

  /** Step `i` writes the batch. */
  ghost predicate Applies(run: Run, i: int, events: seq<Item>) {
    && 0 <= i < |run.steps| && i < |run.states|
    && run.steps[i].Write? && run.steps[i].events == events && Accepts(run.states[i], events)
  }

  ghost predicate AtMostOnce(run: Run, events: seq<Item>) {
    forall i, j | i < j && Applies(run, i, events) :: !Applies(run, j, events)
  }

  lemma AppliedOnce(run: Run, events: seq<Item>, db: Db, db': Db)
    requires events != [] && run in Histories(db, db', events[0].vid)
    ensures AtMostOnce(run, events)
  {
    HistoryIsRun(run, db, db', events[0].vid);
    forall i, j | i < j && Applies(run, i, events) ensures !Applies(run, j, events) {
      if j < |run.steps| { AppliedAtMostOnce(run, i, j); }
    }
  }

  // ----- the retry wrapper -----

  predicate WrittenAtSomeTime(db: Db, events: seq<Item>, nows: seq<nat>, db': Db)
    requires events != []
  {
    Accepts(db, events) && exists k | 0 <= k < |nows| :: Written(db, events, nows[k], db')
  }

  /** What a try adds to the history: the batch, or nothing. */
  lemma TryGoesOn(history: Run, db: Db, d: Db, events: seq<Item>, now: nat, r: Result, d': Db, quiet: bool)
    returns (longer: Run)
    requires events != [] && SchemaHolds(d) && history in Histories(db, d, events[0].vid)
    requires WriteOutcome(d, events, now, r, d', quiet)
    ensures SchemaHolds(d') && longer in Histories(db, d', events[0].vid)
    ensures r.Done? ==> LastApplies(longer, events)
  {
    if d' == d && r.Failed? {
      longer := history;
    } else {
      WriteKeepsSchema(d, events, now, d');
      var write := OneWrite(d, events, now, d', events[0].vid);
      longer := HistoryGoesOn(history, db, d, events[0].vid, write, d');
      assert longer.states[|history.steps|] == d;
    }
  }

  /** What other sessions did is added to the history. */
  lemma OthersGoOn(history: Run, db: Db, d: Db, run: Run, d': Db, vid: Vid) returns (longer: Run)
    requires SchemaHolds(d) && history in Histories(db, d, vid) && run in Histories(d, d', vid)
    ensures SchemaHolds(d') && longer in Histories(db, d', vid)
  {
    HistoryIsRun(run, d, d', vid);
    RunKeepsSchema(run, |run.steps|);
    longer := HistoryGoesOn(history, db, d, vid, run, d');
  }

  /** One try, on a new connection with its own faults. */
  method Try(backend: Backend, db: Db, events: seq<Item>, now: nat, faults: seq<Fault>) returns (r: Result, db': Db)
    requires SchemaHolds(db)
    ensures WriteOutcome(db, events, now, r, db', Quiet(faults))
  {
    var conn := new Conn(backend, db, faults);
    if backend.Postgres? {
      r := PostgresFilesWrittenToTape(conn, events, now);
    } else {
      r := OracleFilesWrittenToTape(conn, events, now);
    }
    db' := conn.session.committed;
  }

  /** The last state of a run. */
  function Last(run: Run): Db
    requires run.states != []
  {
    run.states[|run.states| - 1]
  }

  /** Whatever other sessions do, they do not reclaim the tape. */
  ghost predicate NeverReclaim(others: (nat, Db) -> Run, vid: Vid) {
    forall k: nat, d: Db :: others(k, d).states != [] && others(k, d) in Histories(d, Last(others(k, d)), vid)
  }

  ghost predicate Idlers(others: (nat, Db) -> Run) {
    forall k: nat, d: Db :: others(k, d) == Run([d], [])
  }

  /** The states in which try `k` can find the catalogue. */
  ghost function Found(
      db: Db, events: seq<Item>, nows: seq<nat>, faults: nat -> seq<Fault>, others: (nat, Db) -> Run, k: nat): iset<Db>
    requires events != []
  {
    iset d: Db |
      && (k == 0 ==> d == db)
      && (k > 0 ==> !Quiet(faults(0)))
      && (Idlers(others) ==> d == db || WrittenAtSomeTime(db, events, nows, d))
  }

  /** What the wrapper promises of its result `r` and the tables `d`. */
  ghost predicate Ends(
      db: Db, events: seq<Item>, nows: seq<nat>, faults: nat -> seq<Fault>, others: (nat, Db) -> Run, r: Result, d: Db)
    requires events != []
  {
    && (|nows| > 0 && Quiet(faults(0)) ==> (r.Done? <==> Accepts(db, events)))
    && (Idlers(others) ==> d == db || WrittenAtSomeTime(db, events, nows, d))
    && (Idlers(others) && r.Done? ==> WrittenAtSomeTime(db, events, nows, d))
  }

  ghost function Endings(
      db: Db, events: seq<Item>, nows: seq<nat>, faults: nat -> seq<Fault>, others: (nat, Db) -> Run)
    : iset<(Result, Db)>
    requires events != []
  {
    iset e: (Result, Db) | Ends(db, events, nows, faults, others, e.0, e.1)
  }

  /** All tries lost their connection. */
  lemma TriesEnd(
      db: Db, events: seq<Item>, nows: seq<nat>, faults: nat -> seq<Fault>, others: (nat, Db) -> Run, d: Db)
    requires events != [] && d in Found(db, events, nows, faults, others, |nows|)
    ensures (Failed(ConnectionLost), d) in Endings(db, events, nows, faults, others)
  {
  }

  lemma TryEnds(
      db: Db, events: seq<Item>, nows: seq<nat>, faults: nat -> seq<Fault>, others: (nat, Db) -> Run, k: nat,
      d: Db, r: Result, d': Db)
    requires events != [] && NeverReclaim(others, events[0].vid)
    requires k < |nows| && d in Found(db, events, nows, faults, others, k)
    requires WriteOutcome(d, events, nows[k], r, d', Quiet(faults(k)))
    ensures r != Failed(ConnectionLost) ==> (r, d') in Endings(db, events, nows, faults, others)
    ensures r == Failed(ConnectionLost) ==> Last(others(k, d')) in Found(db, events, nows, faults, others, k + 1)
  {
    AnotherTry(db, events, nows, d, k, r, d', Quiet(faults(k)));
  }

  ghost predicate LastApplies(run: Run, events: seq<Item>) {
    Applies(run, |run.steps| - 1, events)
  }

  /** A try, and what other sessions do after it if it lost its connection. */
  method Round(
      backend: Backend, ghost db: Db, events: seq<Item>, nows: seq<nat>, faults: nat -> seq<Fault>,
      others: (nat, Db) -> Run, k: nat, d: Db, ghost history: Run)
    returns (r: Result, d': Db, ghost longer: Run)
    requires events != [] && NeverReclaim(others, events[0].vid) && k < |nows|
    requires SchemaHolds(d) && history in Histories(db, d, events[0].vid)
    requires d in Found(db, events, nows, faults, others, k)
    ensures SchemaHolds(d') && longer in Histories(db, d', events[0].vid)
    ensures r == Failed(ConnectionLost) ==> d' in Found(db, events, nows, faults, others, k + 1)
    ensures r != Failed(ConnectionLost) ==> (r, d') in Endings(db, events, nows, faults, others)
    ensures r.Done? ==> LastApplies(longer, events)
  {
    r, d' := Try(backend, d, events, nows[k], faults(k));
    longer := TryGoesOn(history, db, d, events, nows[k], r, d', Quiet(faults(k)));
    TryEnds(db, events, nows, faults, others, k, d, r, d');
    if r == Failed(ConnectionLost) {
      var run := others(k, d');
      longer := OthersGoOn(longer, db, d', run, Last(run), events[0].vid);
      d' := Last(run);
    }
  }

  /** One try per clock reading, until a try ends other than by a lost connection; after try `k` that
      left `d`, other sessions do `others(k, d)`. In the history of all this the batch is applied at most
      once, by whomever; a try that succeeds has applied it; and a first try without faults succeeds
      exactly when the batch is acceptable. If nobody else changes anything, the tables are in the end
      as they were or as after the batch. */
  method RetryFilesWrittenToTape(
      backend: Backend, db: Db, events: seq<Item>, nows: seq<nat>, faults: nat -> seq<Fault>,
      others: (nat, Db) -> Run)
    returns (r: Result, db': Db, ghost history: Run)
    requires SchemaHolds(db) && events != [] && NeverReclaim(others, events[0].vid)
    ensures history in Histories(db, db', events[0].vid) && AtMostOnce(history, events)
    ensures r.Done? ==> LastApplies(history, events)
    ensures Ends(db, events, nows, faults, others, r, db')
  {
    r, db' := Failed(ConnectionLost), db;
    history := HistoryStarts(db, events[0].vid);
    var tryNb := 0;
    while tryNb < |nows| && r == Failed(ConnectionLost)
      invariant tryNb <= |nows| && SchemaHolds(db') && history in Histories(db, db', events[0].vid)
      invariant r == Failed(ConnectionLost) ==> db' in Found(db, events, nows, faults, others, tryNb)
      invariant r != Failed(ConnectionLost) ==> (r, db') in Endings(db, events, nows, faults, others)
      invariant r.Done? ==> LastApplies(history, events)
    {
      r, db', history := Round(backend, db, events, nows, faults, others, tryNb, db', history);
      tryNb := tryNb + 1;
    }
    if r == Failed(ConnectionLost) { TriesEnd(db, events, nows, faults, others, db'); }
    AppliedOnce(history, events, db, db');
  }

  /** If the batch was applied from the start, a further try does nothing. */
  lemma AnotherTry(db: Db, events: seq<Item>, nows: seq<nat>, d: Db, k: nat, r: Result, d': Db, quiet: bool)
    requires events != [] && k < |nows| && WriteOutcome(d, events, nows[k], r, d', quiet)
    ensures d == db ==> (d' == db && r.Failed?) || WrittenAtSomeTime(db, events, nows, d')
    ensures WrittenAtSomeTime(db, events, nows, d) ==> d' == d && r.Failed? && (quiet ==> r == Failed(FSeqMismatch))
  {
    if WrittenAtSomeTime(db, events, nows, d) {
      var j :| 0 <= j < |nows| && Written(db, events, nows[j], d);
      WrittenIsOutOfSequence(db, events, nows[j], d);
    }
  }
}

/** Database sessions: what one connection has committed and what it has pending, how a program of
    SQL statements runs on it, and what becomes of the program when a statement fails or the
    connection is lost (rdbms/Conn.cpp, rdbms/AutoRollback.cpp, rdbms/ConnPool.cpp). The tables `D`,
    the statements `S` and what a statement does to the tables are parameters. */
module Sessions {
  import opened Tables

  datatype Backend = Postgres | Oracle

  /** `autocommit` is Oracle's mode, and for Postgres means that no transaction is open.
      `aborted` is set when a statement of an open Postgres transaction has failed. */
  datatype Session<D> = Session(
    backend: Backend, committed: D, pending: D, autocommit: bool, aborted: bool, open: bool)

  /** What the environment does to a statement: nothing, refuse it, or lose the connection before or
      after the server has carried it out. */
  datatype Fault = NoFault | StatementError | LostBefore | LostAfter

  /** The tables after a statement, or None when a constraint refuses it. */
  type Apply<!D, !S> = (D, S) -> Option<D>

  datatype Action<S> = Begin | SetAutocommit(on: bool) | Do(stmt: S) | Commit

  /** An action, and whether an AutoRollback object is in scope while it runs. */
  datatype Line<S> = Line(action: Action<S>, guarded: bool)

  predicate Lost(f: Fault) {
    f.LostBefore? || f.LostAfter?
  }

  function FaultAt(faults: seq<Fault>, i: nat): Fault {
    if i < |faults| then faults[i] else NoFault
  }

  /** The tables after a list of statements, or None as soon as one is refused. */
  function Effect<D, S>(apply: Apply<D, S>, db: D, stmts: seq<S>): Option<D> {
    if stmts == [] then Some(db)
    else
      var n := |stmts| - 1;
      match Effect(apply, db, stmts[..n])
      case None => None
      case Some(d) => apply(d, stmts[n])
  }

  lemma {:induction false} EffectConcat<D, S>(apply: Apply<D, S>, db: D, xs: seq<S>, ys: seq<S>)
    ensures Effect(apply, db, xs + ys) ==
      match Effect(apply, db, xs) { case None => None case Some(d) => Effect(apply, d, ys) }
  {
    if ys == [] {
      assert xs + ys == xs;
    } else {
      var n := |ys| - 1;
      assert (xs + ys)[..|xs + ys| - 1] == xs + ys[..n];
      EffectConcat(apply, db, xs, ys[..n]);
    }
  }

  function Closed<D>(s: Session<D>): Session<D> {
    s.(open := false, pending := s.committed)
  }

  function Failed<D>(s: Session<D>): Session<D> {
    if s.backend.Postgres? && !s.autocommit then s.(aborted := true) else s
  }

  function Exec<D>(s: Session<D>, next: Option<D>, f: Fault): (Session<D>, bool) {
    if !s.open then (s, false)
    else match f
      case NoFault =>
        if next.None? then (Failed(s), false)
        else (s.(pending := next.value, committed := if s.autocommit then next.value else s.committed), true)
      case StatementError => (Failed(s), false)
      case LostBefore => (Closed(s), false)
      case LostAfter =>
        (Closed(if next.Some? && s.autocommit then s.(committed := next.value) else s), false)
  }

  function RolledBack<D>(s: Session<D>): Session<D> {
    s.(pending := s.committed, aborted := false, autocommit := s.autocommit || s.backend.Postgres?)
  }

  /** COMMIT. Postgres turns the commit of an aborted transaction into a rollback. */
  function Committed<D>(s: Session<D>): Session<D> {
    if s.aborted then RolledBack(s)
    else s.(committed := s.pending, autocommit := s.autocommit || s.backend.Postgres?)
  }

  function ExecCommit<D>(s: Session<D>, f: Fault): (Session<D>, bool) {
    if !s.open then (s, false)
    else match f
      case NoFault => (Committed(s), true)
      case StatementError => (RolledBack(s), false)
      case LostBefore => (Closed(s), false)
      case LostAfter => (Closed(Committed(s)), false)
  }

  function ExecAction<D, S>(apply: Apply<D, S>, s: Session<D>, a: Action<S>, f: Fault): (Session<D>, bool) {
    match a
    case Begin => Exec(s.(autocommit := false), Some(s.pending), f)
    case SetAutocommit(on) => (s.(autocommit := on), s.open)
    case Do(stmt) => Exec(s, apply(s.pending, stmt), f)
    case Commit => ExecCommit(s, f)
  }

  /** One line of a program: a guarded action that fails is rolled back before the exception leaves. */
  function ExecLine<D, S>(apply: Apply<D, S>, s: Session<D>, line: Line<S>, f: Fault): (Session<D>, bool) {
    var (t, ok) := ExecAction(apply, s, line.action, f);
    (if !ok && line.guarded && t.open then RolledBack(t) else t, ok)
  }

  /** The session after a program, and whether it ran to its end: the first line that fails throws. */
  function RunLines<D, S>(apply: Apply<D, S>, s: Session<D>, lines: seq<Line<S>>, faults: seq<Fault>)
    : (Session<D>, bool)
  {
    if lines == [] then (s, true)
    else
      var n := |lines| - 1;
      var (t, ok) := RunLines(apply, s, lines[..n], faults);
      if ok then ExecLine(apply, t, lines[n], FaultAt(faults, n)) else (t, false)
  }

  /** The faults that are left after `n` lines. */
  function Later(faults: seq<Fault>, n: nat): seq<Fault> {
    if n <= |faults| then faults[n..] else []
  }

  lemma RunOne<D, S>(apply: Apply<D, S>, s: Session<D>, line: Line<S>, faults: seq<Fault>)
    ensures RunLines(apply, s, [line], faults) == ExecLine(apply, s, line, FaultAt(faults, 0))
  {
    assert [line][..0] == [];
  }

  lemma {:induction false} RunConcat<D, S>(apply: Apply<D, S>, s: Session<D>, xs: seq<Line<S>>, ys: seq<Line<S>>,
                                           faults: seq<Fault>)
    ensures var (t, ok) := RunLines(apply, s, xs, faults);
      RunLines(apply, s, xs + ys, faults) ==
        if ok then RunLines(apply, t, ys, Later(faults, |xs|)) else (t, false)
  {
    if ys == [] {
      assert xs + ys == xs;
    } else {
      var n := |ys| - 1;
      assert (xs + ys)[..|xs + ys| - 1] == xs + ys[..n];
      RunConcat(apply, s, xs, ys[..n], faults);
      assert FaultAt(Later(faults, |xs|), n) == FaultAt(faults, |xs| + n);
    }
  }

  /** ConnPool::returnConn commits what is pending and restores the autocommit mode. */
  function Released<D>(s: Session<D>): Session<D> {
    if s.open then Committed(s).(autocommit := true) else s
  }

  /** A session as the pool hands it out. */
  ghost predicate Idle<D>(s: Session<D>) {
    s.open && s.autocommit && !s.aborted && s.pending == s.committed
  }

  /** Whatever was done on it, a connection that goes back to its pool open is as the pool hands it out. */
  lemma ReleasedIsIdle<D>(s: Session<D>)
    requires s.open
    ensures Idle(Released(s)) && Released(s).backend == s.backend
  {
  }

  /** A commit or a rollback ends a Postgres transaction; Oracle stays in its mode. A rollback publishes
      nothing. Outside a transaction a statement that fails leaves no trace. */
  lemma TransactionEnds<D>(s: Session<D>, next: Option<D>, f: Fault)
    requires s.open
    ensures s.backend.Postgres? ==> Idle(Committed(s)) && Idle(RolledBack(s))
    ensures s.backend.Oracle? ==> Committed(s).autocommit == RolledBack(s).autocommit == s.autocommit
    ensures RolledBack(s).committed == s.committed
    ensures Idle(s) && (next.None? || f.StatementError?) && !Lost(f) ==> Exec(s, next, f) == (s, false)
  {
  }

  /** On a lost connection a program does nothing. */
  lemma {:induction false} LostConnectionDoesNothing<D, S>(
      apply: Apply<D, S>, s: Session<D>, lines: seq<Line<S>>, faults: seq<Fault>)
    requires !s.open
    ensures var (t, ok) := RunLines(apply, s, lines, faults);
      t.committed == s.committed && !t.open && (ok <==> lines == []) && Released(t).committed == s.committed
  {
    if lines != [] { LostConnectionDoesNothing(apply, s, lines[..|lines| - 1], faults); }
  }

  /** What is committed once the program is over and the connection is back in its pool. */
  function Outcome<D, S>(apply: Apply<D, S>, s: Session<D>, lines: seq<Line<S>>, faults: seq<Fault>): D {
    Released(RunLines(apply, s, lines, faults).0).committed
  }

  function Lines<S>(stmts: seq<S>, guarded: bool): seq<Line<S>> {
    seq(|stmts|, i requires 0 <= i < |stmts| => Line(Do(stmts[i]), guarded))
  }

  /** BEGIN, the statements, COMMIT. */
  function Explicit<S>(stmts: seq<S>, guarded: bool): seq<Line<S>> {
    [Line(Begin, guarded)] + Lines(stmts, guarded) + [Line(Commit, guarded)]
  }

  /** Autocommit off, all statements but the last, autocommit on, the last statement. */
  function LastAutocommits<S>(stmts: seq<S>, guarded: bool): seq<Line<S>>
    requires stmts != []
  {
    var n := |stmts| - 1;
    [Line(SetAutocommit(false), guarded)] + Lines(stmts[..n], guarded)
      + [Line(SetAutocommit(true), guarded), Line(Do(stmts[n]), guarded)]
  }

  /** Autocommit off, the statements, autocommit on, COMMIT. */
  function OffThenCommit<S>(stmts: seq<S>, guarded: bool): seq<Line<S>> {
    [Line(SetAutocommit(false), guarded)] + Lines(stmts, guarded)
      + [Line(SetAutocommit(true), guarded), Line(Commit, guarded)]
  }

  // ---------------------------------------------------------------------------------------------

  /** How many of the statements succeed when the first of them is line `at` of the program. */
  ghost function Reach<D, S>(apply: Apply<D, S>, db: D, stmts: seq<S>, faults: seq<Fault>, at: nat): (r: nat)
    ensures r <= |stmts|
  {
    if stmts == [] then 0
    else
      var n := |stmts| - 1;
      var k := Reach(apply, db, stmts[..n], faults, at);
      if k == n && FaultAt(faults, at + n).NoFault? && Effect(apply, db, stmts).Some? then n + 1 else k
  }

  /** The session `t` of an open transaction that started from `s`: nothing new is committed; while
      all goes well, `effect` is pending; after the statement under `f` failed, `effect` is what the
      statements before it had done. */
  ghost predicate Inside<D>(s: Session<D>, t: Session<D>, ok: bool, effect: Option<D>, guarded: bool, f: Fault) {
    && t.committed == s.committed && t.backend == s.backend
    && (ok ==> t.open && !t.aborted && !t.autocommit && Some(t.pending) == effect)
    && (!ok ==> t.open == !Lost(f))
    && (!ok && t.open && guarded ==> t.pending == s.committed && !t.aborted)
    && (!ok && t.open && !guarded ==> t.aborted == t.backend.Postgres? && Some(t.pending) == effect)
  }

  lemma StatementInside<D>(s: Session, t: Session, effect: Option<D>, next: Option<D>, guarded: bool, f: Fault)
    requires Inside(s, t, true, effect, guarded, NoFault)
    ensures var (u, ok) := Exec(t, next, f);
      var v := if !ok && guarded && u.open then RolledBack(u) else u;
      ok == (f.NoFault? && next.Some?) && Inside(s, v, ok, if ok then next else effect, guarded, f)
  {
  }

  predicate Opens<S>(backend: Backend, a: Action<S>) {
    if backend.Postgres? then a.Begin? else a.SetAutocommit? && !a.on
  }

  /** Between opening a transaction and ending it: what the session has after the statements. */
  lemma {:induction false} InsideTransaction<D, S>(apply: Apply<D, S>, s: Session<D>, head: Line<S>, stmts: seq<S>,
                                                   guarded: bool, faults: seq<Fault>)
    requires Idle(s) && Opens(s.backend, head.action)
    requires s.backend.Postgres? ==> FaultAt(faults, 0).NoFault?
    ensures var (t, ok) := RunLines(apply, s, [head] + Lines(stmts, guarded), faults);
      var k := Reach(apply, s.committed, stmts, faults, 1);
      && ok == (k == |stmts|)
      && Inside(s, t, ok, Effect(apply, s.committed, stmts[..k]), guarded, FaultAt(faults, 1 + k))
  {
    var lines := [head] + Lines(stmts, guarded);
    if stmts == [] {
      assert lines[..0] == [] && lines == [head];
    } else {
      var n := |stmts| - 1;
      assert lines[..n + 1] == [head] + Lines(stmts[..n], guarded);
      InsideTransaction(apply, s, head, stmts[..n], guarded, faults);
      var k := Reach(apply, s.committed, stmts[..n], faults, 1);
      assert stmts[..n][..k] == stmts[..k] && stmts[..n + 1] == stmts;
      var (t, ok) := RunLines(apply, s, lines[..n + 1], faults);
      if ok {
        assert lines[n + 1] == Line(Do(stmts[n]), guarded);
        StatementInside(s, t, Effect(apply, s.committed, stmts[..n]), apply(t.pending, stmts[n]), guarded,
          FaultAt(faults, 1 + n));
      }
    }
  }

  /** The start of the program, or the whole effect of its statements. */
  ghost predicate StartOrEffect<D, S>(apply: Apply<D, S>, start: D, stmts: seq<S>, d: D) {
    d == start || Effect(apply, start, stmts) == Some(d)
  }

  /** Whatever another session reads while the program runs, and what is committed once it is over,
      is the start or the whole effect: never part of it. */
  ghost predicate AllOrNothing<D, S>(apply: Apply<D, S>, s: Session<D>, lines: seq<Line<S>>, stmts: seq<S>,
      faults: seq<Fault>) {
    && (forall k | 0 <= k <= |lines| ::
          StartOrEffect(apply, s.committed, stmts, RunLines(apply, s, lines[..k], faults).0.committed))
    && StartOrEffect(apply, s.committed, stmts, Outcome(apply, s, lines, faults))
  }

  /** A program that ends normally has published the effect of all its statements; if nothing goes
      wrong it ends normally unless a constraint refuses a statement. */
  ghost predicate CommitsEffect<D, S>(apply: Apply<D, S>, s: Session<D>, lines: seq<Line<S>>, stmts: seq<S>,
      faults: seq<Fault>) {
    && (RunLines(apply, s, lines, faults).1 ==>
          Effect(apply, s.committed, stmts) == Some(Outcome(apply, s, lines, faults)))
    && ((forall i: nat :: FaultAt(faults, i).NoFault?) ==>
          (RunLines(apply, s, lines, faults).1 <==> Effect(apply, s.committed, stmts).Some?))
  }

  lemma {:induction false} FaultFreeReach<D, S>(apply: Apply<D, S>, db: D, stmts: seq<S>, faults: seq<Fault>, at: nat)
    requires forall i: nat :: FaultAt(faults, i).NoFault?
    ensures Reach(apply, db, stmts, faults, at) == |stmts| <==> Effect(apply, db, stmts).Some?
  {
    if stmts != [] { FaultFreeReach(apply, db, stmts[..|stmts| - 1], faults, at); }
  }

  /** Nothing is published before the transaction is ended. */
  lemma NothingPublishedInside<D, S>(apply: Apply<D, S>, s: Session<D>, head: Line<S>, stmts: seq<S>, guarded: bool,
                                     faults: seq<Fault>, k: nat)
    requires Idle(s) && Opens(s.backend, head.action) && k <= |stmts| + 1
    requires s.backend.Postgres? ==> FaultAt(faults, 0).NoFault?
    ensures RunLines(apply, s, ([head] + Lines(stmts, guarded))[..k], faults).0.committed == s.committed
  {
    if k > 0 {
      assert ([head] + Lines(stmts, guarded))[..k] == [head] + Lines(stmts[..k - 1], guarded);
      InsideTransaction(apply, s, head, stmts[..k - 1], guarded, faults);
    }
  }

  /** A program whose first line failed is over. */
  lemma {:induction false} FailsAtOnce<D, S>(apply: Apply<D, S>, s: Session<D>, lines: seq<Line<S>>,
      faults: seq<Fault>, k: nat)
    requires 1 <= k <= |lines| && !ExecLine(apply, s, lines[0], FaultAt(faults, 0)).1
    ensures RunLines(apply, s, lines[..k], faults) == (ExecLine(apply, s, lines[0], FaultAt(faults, 0)).0, false)
  {
    if k == 1 {
      assert lines[..1][..0] == [];
    } else {
      FailsAtOnce(apply, s, lines, faults, k - 1);
      assert lines[..k][..k - 1] == lines[..k - 1];
    }
  }

  /** What a Postgres transaction has committed after `k` lines, when BEGIN runs. */
  lemma ExplicitSeen<D, S>(apply: Apply<D, S>, s: Session<D>, stmts: seq<S>, guarded: bool, faults: seq<Fault>, k: nat)
    requires Idle(s) && s.backend.Postgres? && k <= |stmts| + 1
    ensures RunLines(apply, s, Explicit(stmts, guarded)[..k], faults).0.committed == s.committed
  {
    var lines: seq<Line<S>> := Explicit(stmts, guarded);
    var head: Line<S> := Line(Begin, guarded);
    if FaultAt(faults, 0).NoFault? {
      assert lines[..k] == ([head] + Lines(stmts, guarded))[..k];
      NothingPublishedInside(apply, s, head, stmts, guarded, faults, k);
    } else if k > 0 {
      FailsAtOnce(apply, s, lines, faults, k);
    }
  }

  /** The last line and the return to the pool. */
  lemma ExplicitEnds<D, S>(apply: Apply<D, S>, s: Session<D>, stmts: seq<S>, guarded: bool, faults: seq<Fault>)
    requires Idle(s) && s.backend.Postgres?
    ensures var (t, ok) := RunLines(apply, s, Explicit(stmts, guarded), faults);
      && StartOrEffect(apply, s.committed, stmts, t.committed)
      && StartOrEffect(apply, s.committed, stmts, Released(t).committed)
      && (ok ==> Effect(apply, s.committed, stmts) == Some(Released(t).committed))
      && ((forall i: nat :: FaultAt(faults, i).NoFault?) ==> (ok <==> Effect(apply, s.committed, stmts).Some?))
  {
    var lines: seq<Line<S>> := Explicit(stmts, guarded);
    var head: Line<S> := Line(Begin, guarded);
    var n := |stmts|;
    assert lines[..n + 2] == lines;
    if FaultAt(faults, 0).NoFault? {
      assert lines[..|lines| - 1] == [head] + Lines(stmts, guarded) && stmts[..n] == stmts;
      InsideTransaction(apply, s, head, stmts, guarded, faults);
    } else {
      FailsAtOnce(apply, s, lines, faults, n + 2);
    }
    if forall i: nat :: FaultAt(faults, i).NoFault? { FaultFreeReach(apply, s.committed, stmts, faults, 1); }
  }

  /** A Postgres transaction is all or nothing, with or without an AutoRollback in scope: the pool's
      commit of an aborted transaction rolls it back. */
  lemma PostgresIsAtomic<D, S>(apply: Apply<D, S>, s: Session<D>, stmts: seq<S>, guarded: bool, faults: seq<Fault>)
    requires Idle(s) && s.backend.Postgres?
    ensures AllOrNothing(apply, s, Explicit(stmts, guarded), stmts, faults)
    ensures CommitsEffect(apply, s, Explicit(stmts, guarded), stmts, faults)
  {
    var lines: seq<Line<S>> := Explicit(stmts, guarded);
    ExplicitEnds(apply, s, stmts, guarded, faults);
    forall k | 0 <= k <= |lines|
      ensures StartOrEffect(apply, s.committed, stmts, RunLines(apply, s, lines[..k], faults).0.committed)
    {
      if k < |lines| { ExplicitSeen(apply, s, stmts, guarded, faults, k); } else { assert lines[..k] == lines; }
    }
  }

  /** What such a program has committed before its last line. */
  lemma LastAutocommitsSeen<D, S>(apply: Apply<D, S>, s: Session<D>, stmts: seq<S>, faults: seq<Fault>, k: nat)
    requires Idle(s) && s.backend.Oracle? && stmts != [] && k <= |stmts| + 1
    ensures RunLines(apply, s, LastAutocommits(stmts, true)[..k], faults).0.committed == s.committed
  {
    var lines: seq<Line<S>> := LastAutocommits(stmts, true);
    var head: Line<S> := Line(SetAutocommit(false), true);
    var n := |stmts| - 1;
    var m := if k <= n + 1 then k else n + 1;
    assert lines[..m] == ([head] + Lines(stmts[..n], true))[..m];
    NothingPublishedInside(apply, s, head, stmts[..n], true, faults, m);
    if k == n + 2 {
      assert lines[..k][..n + 1] == lines[..n + 1] && lines[..k][n + 1] == Line(SetAutocommit(true), true);
    }
  }

  lemma LastAutocommitsEnds<D, S>(apply: Apply<D, S>, s: Session<D>, stmts: seq<S>, faults: seq<Fault>)
    requires Idle(s) && s.backend.Oracle? && stmts != []
    ensures var (t, ok) := RunLines(apply, s, LastAutocommits(stmts, true), faults);
      && StartOrEffect(apply, s.committed, stmts, t.committed)
      && StartOrEffect(apply, s.committed, stmts, Released(t).committed)
      && (ok ==> Effect(apply, s.committed, stmts) == Some(Released(t).committed))
      && ((forall i: nat :: FaultAt(faults, i).NoFault?) ==> (ok <==> Effect(apply, s.committed, stmts).Some?))
  {
    var lines: seq<Line<S>> := LastAutocommits(stmts, true);
    var head: Line<S> := Line(SetAutocommit(false), true);
    var n := |stmts| - 1;
    assert lines[..n + 1] == [head] + Lines(stmts[..n], true) && stmts[..n][..n] == stmts[..n];
    InsideTransaction(apply, s, head, stmts[..n], true, faults);
    var (t, ok) := RunLines(apply, s, lines[..n + 1], faults);
    assert lines[..n + 2][..n + 1] == lines[..n + 1] && lines[..n + 2][n + 1] == Line(SetAutocommit(true), true);
    assert RunLines(apply, s, lines[..n + 2], faults) == if ok then (t.(autocommit := true), true) else (t, false);
    assert lines[..|lines| - 1] == lines[..n + 2] && lines[n + 2] == Line(Do(stmts[n]), true);
    if forall i: nat :: FaultAt(faults, i).NoFault? { FaultFreeReach(apply, s.committed, stmts[..n], faults, 1); }
  }

  /** Oracle, with an AutoRollback in scope: autocommit switched on before the last statement
      publishes all or nothing. */
  lemma LastAutocommitsIsAtomic<D, S>(apply: Apply<D, S>, s: Session<D>, stmts: seq<S>, faults: seq<Fault>)
    requires Idle(s) && s.backend.Oracle? && stmts != []
    ensures AllOrNothing(apply, s, LastAutocommits(stmts, true), stmts, faults)
    ensures CommitsEffect(apply, s, LastAutocommits(stmts, true), stmts, faults)
  {
    var lines: seq<Line<S>> := LastAutocommits(stmts, true);
    LastAutocommitsEnds(apply, s, stmts, faults);
    forall k | 0 <= k <= |lines|
      ensures StartOrEffect(apply, s.committed, stmts, RunLines(apply, s, lines[..k], faults).0.committed)
    {
      if k < |lines| { LastAutocommitsSeen(apply, s, stmts, faults, k); } else { assert lines[..k] == lines; }
    }
  }

  /** Oracle, with or without an AutoRollback in scope: what is committed when the program is over. */
  lemma OffThenCommitOutcome<D, S>(apply: Apply<D, S>, s: Session<D>, stmts: seq<S>, guarded: bool, faults: seq<Fault>)
    requires Idle(s) && s.backend.Oracle?
    ensures var k := Reach(apply, s.committed, stmts, faults, 1);
      var last := FaultAt(faults, |stmts| + 2);
      Some(Outcome(apply, s, OffThenCommit(stmts, guarded), faults)) ==
        if k < |stmts| then
          (if guarded || Lost(FaultAt(faults, 1 + k)) then Some(s.committed)
            else Effect(apply, s.committed, stmts[..k]))
        else if last.NoFault? || last.LostAfter? then Effect(apply, s.committed, stmts) else Some(s.committed)
    ensures CommitsEffect(apply, s, OffThenCommit(stmts, guarded), stmts, faults)
  {
    var lines := OffThenCommit(stmts, guarded);
    var head: Line<S> := Line(SetAutocommit(false), guarded);
    var n := |stmts|;
    assert lines[..n + 1] == [head] + Lines(stmts, guarded) && stmts[..n] == stmts;
    InsideTransaction(apply, s, head, stmts, guarded, faults);
    var (t, ok) := RunLines(apply, s, lines[..n + 1], faults);
    assert lines[..n + 2][..n + 1] == lines[..n + 1] && lines[..n + 2][n + 1] == Line(SetAutocommit(true), guarded);
    assert RunLines(apply, s, lines[..n + 2], faults) == if ok then (t.(autocommit := true), true) else (t, false);
    assert |lines| == n + 3 && lines[..|lines| - 1] == lines[..n + 2] && lines[n + 2] == Line(Commit, guarded);
    if forall i: nat :: FaultAt(faults, i).NoFault? { FaultFreeReach(apply, s.committed, stmts, faults, 1); }
  }

  /** Oracle, with or without an AutoRollback in scope: whatever another session reads while the
      program runs is the start or the whole effect. */
  lemma OffThenCommitSeen<D, S>(apply: Apply<D, S>, s: Session<D>, stmts: seq<S>, guarded: bool,
                                faults: seq<Fault>, k: nat)
    requires Idle(s) && s.backend.Oracle? && k <= |stmts| + 3
    ensures var seen := RunLines(apply, s, OffThenCommit(stmts, guarded)[..k], faults).0.committed;
      StartOrEffect(apply, s.committed, stmts, seen) && (k <= |stmts| + 2 ==> seen == s.committed)
  {
    var lines := OffThenCommit(stmts, guarded);
    var head: Line<S> := Line(SetAutocommit(false), guarded);
    var n := |stmts|;
    var inner := [head] + Lines(stmts, guarded);
    if k <= n + 1 {
      assert lines[..k] == inner[..k];
      NothingPublishedInside(apply, s, head, stmts, guarded, faults, k);
    } else {
      assert lines[..n + 1] == inner && stmts[..n] == stmts;
      InsideTransaction(apply, s, head, stmts, guarded, faults);
      assert lines[..n + 2][..n + 1] == lines[..n + 1] && lines[..n + 2][n + 1] == Line(SetAutocommit(true), guarded);
      assert lines[..n + 3][..n + 2] == lines[..n + 2] && lines[..n + 3][n + 2] == Line(Commit, guarded);
    }
  }

  /** Oracle without an AutoRollback in scope: the program is all or nothing, at every moment and in
      the end, if and only if no statement is refused half way without the connection being lost, or
      the statements before the refused one amount to nothing or to everything. */
  lemma UnguardedOracleIff<D, S>(apply: Apply<D, S>, s: Session<D>, stmts: seq<S>, faults: seq<Fault>)
    requires Idle(s) && s.backend.Oracle?
    ensures var k := Reach(apply, s.committed, stmts, faults, 1);
      AllOrNothing(apply, s, OffThenCommit(stmts, false), stmts, faults) <==>
        || k == |stmts| || Lost(FaultAt(faults, 1 + k))
        || Effect(apply, s.committed, stmts[..k]) == Some(s.committed)
        || Effect(apply, s.committed, stmts[..k]) == Effect(apply, s.committed, stmts)
  {
    OffThenCommitOutcome(apply, s, stmts, false, faults);
    var lines := OffThenCommit(stmts, false);
    forall k | 0 <= k <= |lines|
      ensures StartOrEffect(apply, s.committed, stmts, RunLines(apply, s, lines[..k], faults).0.committed)
    {
      OffThenCommitSeen(apply, s, stmts, false, faults, k);
    }
  }

  // ----- a program that commits half way -----

  function Opening<S>(backend: Backend): Line<S> {
    Line(if backend.Postgres? then Begin else SetAutocommit(false), false)
  }

  /** A transaction with at most one unguarded statement, then a guarded one and a guarded commit. */
  function FirstHalf<S>(backend: Backend, pre: seq<S>, ins: S): seq<Line<S>> {
    ([Opening(backend)] + Lines(pre, false)) + [Line(Do(ins), true)] + [Line(Commit, true)]
  }

  function SecondHalf<S>(backend: Backend, del: S): seq<Line<S>> {
    [Line(Do(del), false)]
      + (if backend.Postgres? then [] else [Line(SetAutocommit(true), false)])
      + [Line(Commit, false)]
  }

  /** A session that has just committed `d`. */
  ghost predicate Between<D>(s: Session<D>, t: Session<D>, d: Option<D>) {
    t.open && !t.aborted && t.backend == s.backend && Some(t.committed) == d && t.pending == t.committed
    && t.autocommit == s.backend.Postgres?
  }

  /** The server carries the statement out. */
  predicate Carried(f: Fault) {
    f.NoFault? || f.LostAfter?
  }

  /** Every line up to the first commit runs; `n` statements come before the guarded one. */
  ghost predicate ReachesCommit(backend: Backend, n: nat, faults: seq<Fault>) {
    (backend.Postgres? ==> FaultAt(faults, 0).NoFault?) && forall i | 1 <= i <= n + 1 :: FaultAt(faults, i).NoFault?
  }

  /** The opening line and the `n` statements after it run. */
  ghost predicate Opened(backend: Backend, n: nat, faults: seq<Fault>) {
    (backend.Postgres? ==> FaultAt(faults, 0).NoFault?) && forall i | 1 <= i <= n :: FaultAt(faults, i).NoFault?
  }

  lemma ReachesCommitIff(backend: Backend, n: nat, faults: seq<Fault>)
    ensures ReachesCommit(backend, n, faults) <==> Opened(backend, n, faults) && FaultAt(faults, n + 1).NoFault?
  {
  }

  /** The first commit is carried out. */
  ghost predicate FirstPublishes(backend: Backend, n: nat, faults: seq<Fault>) {
    ReachesCommit(backend, n, faults) && Carried(FaultAt(faults, n + 2))
  }

  /** After the first commit, the statement that follows it is published: on Postgres by itself, on
      Oracle by the second commit. `at` is the line of the statement. */
  predicate SecondPublishes(backend: Backend, faults: seq<Fault>, at: nat) {
    match backend
    case Postgres => Carried(FaultAt(faults, at))
    case Oracle => FaultAt(faults, at).NoFault? && Carried(FaultAt(faults, at + 2))
  }

  /** The lines of the second half all run. */
  predicate SecondRuns(backend: Backend, faults: seq<Fault>, at: nat) {
    FaultAt(faults, at).NoFault? && FaultAt(faults, at + if backend.Postgres? then 1 else 2).NoFault?
  }

  /** All lines run. */
  ghost predicate AllRun(backend: Backend, n: nat, faults: seq<Fault>) {
    ReachesCommit(backend, n, faults) && FaultAt(faults, n + 2).NoFault? && SecondRuns(backend, faults, n + 3)
  }

  lemma LaterFault(faults: seq<Fault>, n: nat, i: nat)
    ensures FaultAt(Later(faults, n), i) == FaultAt(faults, n + i)
  {
  }

  lemma ReachOfOne<D, S>(apply: Apply<D, S>, db: D, pre: seq<S>, faults: seq<Fault>)
    requires |pre| <= 1
    ensures Reach(apply, db, pre, faults, 1) == |pre| <==>
      Effect(apply, db, pre).Some? && forall i | 1 <= i <= |pre| :: FaultAt(faults, i).NoFault?
  {
    if pre != [] { assert pre[..0] == []; }
  }

  /** The session before the guarded statement. */
  lemma BeforeInsert<D, S>(apply: Apply<D, S>, s: Session<D>, pre: seq<S>, faults: seq<Fault>)
    requires Idle(s) && |pre| <= 1
    ensures var (t, ok) := RunLines(apply, s, [Opening(s.backend)] + Lines(pre, false), faults);
      && ok == (Effect(apply, s.committed, pre).Some? && Opened(s.backend, |pre|, faults))
      && (ok ==> Inside(s, t, true, Effect(apply, s.committed, pre), true, NoFault))
      && (!ok ==> Released(t).committed == s.committed)
  {
    var head: seq<Line<S>> := [Opening(s.backend)] + Lines(pre, false);
    var n := |head|;
    if s.backend.Postgres? && !FaultAt(faults, 0).NoFault? {
      FailsAtOnce(apply, s, head, faults, n);
      assert head[..n] == head;
    } else {
      InsideTransaction(apply, s, Opening(s.backend), pre, false, faults);
      ReachOfOne(apply, s.committed, pre, faults);
      assert pre[..|pre|] == pre && pre[..0] == [];
    }
  }

  /** The guarded statement and the guarded commit, from inside a transaction. */
  lemma InsertAndCommit<D, S>(apply: Apply<D, S>, s: Session<D>, t: Session<D>, before: D, ins: S, faults: seq<Fault>)
    requires Idle(s) && Inside(s, t, true, Some(before), true, NoFault)
    ensures var (v, ok) := RunLines(apply, t, [Line(Do(ins), true)] + [Line(Commit, true)], faults);
      var half := apply(before, ins);
      && ok == (half.Some? && FaultAt(faults, 0).NoFault? && FaultAt(faults, 1).NoFault?)
      && (ok ==> Between(s, v, half))
      && (!ok ==>
            Released(v).committed ==
            if half.Some? && FaultAt(faults, 0).NoFault? && Carried(FaultAt(faults, 1))
            then half.value else s.committed)
  {
    var insert: Line<S>, commit: Line<S> := Line(Do(ins), true), Line(Commit, true);
    RunConcat(apply, t, [insert], [commit], faults);
    RunOne(apply, t, insert, faults);
    var (u, done) := RunLines(apply, t, [insert], faults);
    LaterFault(faults, 1, 0);
    RunOne(apply, u, commit, Later(faults, 1));
    StatementInside(s, t, Some(before), apply(before, ins), true, FaultAt(faults, 0));
  }

  /** The first half: whether it runs, and what it has published if it does not. */
  lemma FirstHalfRuns<D, S>(apply: Apply<D, S>, s: Session<D>, pre: seq<S>, ins: S, faults: seq<Fault>)
    requires Idle(s) && |pre| <= 1
    ensures var (t, ok) := RunLines(apply, s, FirstHalf(s.backend, pre, ins), faults);
      var half := Effect(apply, s.committed, pre + [ins]);
      && ok == (half.Some? && ReachesCommit(s.backend, |pre|, faults) && FaultAt(faults, |pre| + 2).NoFault?)
      && (ok ==> Between(s, t, half))
      && (!ok ==>
            Released(t).committed ==
            if half.Some? && FirstPublishes(s.backend, |pre|, faults) then half.value else s.committed)
  {
    var head: seq<Line<S>> := [Opening(s.backend)] + Lines(pre, false);
    var last: seq<Line<S>> := [Line(Do(ins), true)] + [Line(Commit, true)];
    assert FirstHalf(s.backend, pre, ins) == head + last && |head| == |pre| + 1;
    RunConcat(apply, s, head, last, faults);
    BeforeInsert(apply, s, pre, faults);
    ReachesCommitIff(s.backend, |pre|, faults);
    EffectOfLast(apply, s.committed, pre, ins);
    var later := Later(faults, |pre| + 1);
    LaterFault(faults, |pre| + 1, 0);
    LaterFault(faults, |pre| + 1, 1);
    var (t, ok) := RunLines(apply, s, head, faults);
    if ok { InsertAndCommit(apply, s, t, Effect(apply, s.committed, pre).value, ins, later); }
  }

  lemma EffectOfLast<D, S>(apply: Apply<D, S>, db: D, pre: seq<S>, last: S)
    ensures Effect(apply, db, pre + [last]) ==
      match Effect(apply, db, pre) { case None => None case Some(d) => apply(d, last) }
  {
    assert (pre + [last])[..|pre|] == pre;
  }

  /** The second half on Postgres: the statement is published by itself. */
  lemma SecondHalfOnPostgres<D, S>(apply: Apply<D, S>, s: Session<D>, t: Session<D>, del: S, faults: seq<Fault>)
    requires Between(s, t, Some(t.committed)) && t.backend.Postgres?
    ensures var (u, ok) := RunLines(apply, t, SecondHalf(t.backend, del), faults);
      var full := apply(t.committed, del);
      && ok == (full.Some? && SecondRuns(t.backend, faults, 0))
      && Released(u).committed ==
           if full.Some? && SecondPublishes(t.backend, faults, 0) then full.value else t.committed
  {
    var first: Line<S>, last: Line<S> := Line(Do(del), false), Line(Commit, false);
    assert SecondHalf(t.backend, del) == [first] + [last];
    RunConcat(apply, t, [first], [last], faults);
    RunOne(apply, t, first, faults);
    var (u, ok) := RunLines(apply, t, [first], faults);
    LaterFault(faults, 1, 0);
    RunOne(apply, u, last, Later(faults, 1));
  }

  /** The second half on Oracle: the statement is published by the commit. */
  lemma SecondHalfOnOracle<D, S>(apply: Apply<D, S>, s: Session<D>, t: Session<D>, del: S, faults: seq<Fault>)
    requires Between(s, t, Some(t.committed)) && t.backend.Oracle?
    ensures var (u, ok) := RunLines(apply, t, SecondHalf(t.backend, del), faults);
      var full := apply(t.committed, del);
      && ok == (full.Some? && SecondRuns(t.backend, faults, 0))
      && Released(u).committed ==
           if full.Some? && SecondPublishes(t.backend, faults, 0) then full.value else t.committed
  {
    var first: Line<S>, mid: Line<S>, last: Line<S> :=
      Line(Do(del), false), Line(SetAutocommit(true), false), Line(Commit, false);
    assert SecondHalf(t.backend, del) == [first] + ([mid] + [last]);
    RunConcat(apply, t, [first], [mid] + [last], faults);
    RunOne(apply, t, first, faults);
    var (u, ok) := RunLines(apply, t, [first], faults);
    RunConcat(apply, u, [mid], [last], Later(faults, 1));
    RunOne(apply, u, mid, Later(faults, 1));
    var (v, _) := RunLines(apply, u, [mid], Later(faults, 1));
    LaterFault(faults, 1, 1);
    LaterFault(Later(faults, 1), 1, 0);
    RunOne(apply, v, last, Later(Later(faults, 1), 1));
  }

  /** What a program that commits half way leaves, for every list of faults: the start unless the first
      commit is carried out, then the whole effect if the first half also ran to its end and the
      second publishes, and otherwise what the first half publishes. When it ends normally, another
      session could read that intermediate state between the two commits. */
  lemma HalfWayOutcomes<D, S>(apply: Apply<D, S>, s: Session<D>, pre: seq<S>, ins: S, del: S, faults: seq<Fault>)
    requires Idle(s) && |pre| <= 1
    ensures var a := FirstHalf(s.backend, pre, ins);
      var lines := a + SecondHalf(s.backend, del);
      var ok := RunLines(apply, s, lines, faults).1;
      var half := Effect(apply, s.committed, pre + [ins]);
      var full := if half.Some? then apply(half.value, del) else None;
      && Outcome(apply, s, lines, faults) ==
           (if half.None? || !FirstPublishes(s.backend, |pre|, faults) then s.committed
            else if full.Some? && FaultAt(faults, |pre| + 2).NoFault? && SecondPublishes(s.backend, faults, |pre| + 3)
            then full.value
            else half.value)
      && ok == (full.Some? && AllRun(s.backend, |pre|, faults))
      && (ok ==> Some(RunLines(apply, s, lines[..|a|], faults).0.committed) == half)
  {
    var a: seq<Line<S>> := FirstHalf(s.backend, pre, ins);
    var b: seq<Line<S>> := SecondHalf(s.backend, del);
    RunConcat(apply, s, a, b, faults);
    FirstHalfRuns(apply, s, pre, ins, faults);
    assert (a + b)[..|a|] == a;
    var (t, ok) := RunLines(apply, s, a, faults);
    LaterFault(faults, |a|, 0);
    LaterFault(faults, |a|, 1);
    LaterFault(faults, |a|, 2);
    if ok {
      if s.backend.Postgres? { SecondHalfOnPostgres(apply, s, t, del, Later(faults, |a|)); }
      else { SecondHalfOnOracle(apply, s, t, del, Later(faults, |a|)); }
    }
  }

  /** When such a program ends normally. */
  lemma HalfWaySucceeds<D, S>(
      apply: Apply<D, S>, s: Session<D>, pre: seq<S>, ins: S, del: S, faults: seq<Fault>, half: Option<D>)
    requires Idle(s) && |pre| <= 1 && half == Effect(apply, s.committed, pre + [ins])
    requires half.Some? ==> apply(half.value, del).Some?
    ensures var lines := FirstHalf(s.backend, pre, ins) + SecondHalf(s.backend, del);
      var ok := RunLines(apply, s, lines, faults).1;
      && ok == (half.Some? && AllRun(s.backend, |pre|, faults))
      && (ok ==> Some(Outcome(apply, s, lines, faults)) == apply(half.value, del))
  {
    HalfWayOutcomes(apply, s, pre, ins, del, faults);
  }
}

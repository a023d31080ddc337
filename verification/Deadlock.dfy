/** Concurrent batches, each of which locks its one TAPE row and then inserts rows into ARCHIVE_FILE one
    by one. A row has unique keys: its archive file id and, where the constraint is checked at once, its
    disk key. Inserting a key that another open transaction has inserted waits for that transaction. */
module Deadlock {
  import opened Tables

  /** What the unique constraint ARCHIVE_FILE_DIN_DFI_UN is about. */
  datatype Disk = Disk(instance: string, fileId: string)

  datatype Key = TapeRow(vid: Vid) | IdKey(id: nat) | DiskKey(disk: Disk)

  /** A row to insert. On Oracle `disk` is its disk key; on Postgres that constraint is deferred, and the
      row has none. */
  datatype Row = Row(id: nat, disk: Option<Disk>)

  /** A batch at work: rows before `next` are done; `idTaken` says that the id of row `next` is inserted and
      its disk key is next; `held` are the keys that this transaction has inserted and not committed. */
  datatype Txn = Txn(vid: Vid, rows: seq<Row>, hasTape: bool, next: nat, idTaken: bool, held: set<Key>, over: bool) {
    predicate Inserting() {
      !over && hasTape && next < |rows|
    }

    /** The key that is to be inserted next. */
    function NextKey(): Key
      requires next < |rows|
    {
      if idTaken && rows[next].disk.Some? then DiskKey(rows[next].disk.value) else IdKey(rows[next].id)
    }

    function Wants(): Option<Key> {
      if over then None
      else if !hasTape then Some(TapeRow(vid))
      else if next < |rows| then Some(NextKey())
      else None
    }

    predicate Holds(k: Key) {
      match k
      case TapeRow(v) => hasTape && vid == v
      case _ => k in held
    }

    /** Holds only keys of the rows it has come past, and the id of the row at hand. */
    predicate Valid() {
      && next <= |rows|
      && (!hasTape ==> next == 0 && !idTaken && held == {})
      && (idTaken ==> next < |rows| && rows[next].disk.Some? && IdKey(rows[next].id) in held)
      && (forall k | k in held :: OfRows(k, rows[..next]) || (idTaken && k == IdKey(rows[next].id)))
    }

    /** Inserts the next key, that no other transaction holds. A key that is committed, or that this
        transaction holds, refuses the row: the row keeps neither key, and the error is ignored. */
    function Advance(committed: set<Key>): Txn
      requires next < |rows|
    {
      var k := NextKey();
      if k in committed || k in held then
        this.(next := next + 1, idTaken := false,
              held := if idTaken then held - {IdKey(rows[next].id)} else held)
      else if !idTaken && rows[next].disk.Some? then this.(idTaken := true, held := held + {k})
      else this.(next := next + 1, idTaken := false, held := held + {k})
    }
  }

  /** A key of one of the rows. */
  predicate OfRows(k: Key, rows: seq<Row>) {
    exists j | 0 <= j < |rows| :: k in RowKeys(rows[j])
  }

  function RowKeys(row: Row): set<Key> {
    {IdKey(row.id)} + if row.disk.Some? then {DiskKey(row.disk.value)} else {}
  }

  datatype Sys = Sys(txns: seq<Txn>, committed: set<Key>)

  predicate Free(s: Sys, t: nat, k: Key) {
    forall u | 0 <= u < |s.txns| && u != t :: !s.txns[u].Holds(k)
  }

  datatype Event = LockTape(t: nat) | Insert(t: nat) | Commit(t: nat) | Rollback(t: nat)

  function Over(x: Txn): Txn {
    x.(hasTape := false, next := 0, idTaken := false, held := {}, over := true)
  }

  predicate Next(s: Sys, e: Event, s': Sys) {
    && e.t < |s.txns| && !s.txns[e.t].over
    && var x := s.txns[e.t];
       match e
       case LockTape(t) =>
         !x.hasTape && Free(s, t, TapeRow(x.vid)) && s' == s.(txns := s.txns[t := x.(hasTape := true)])
       case Insert(t) =>
         && x.hasTape && x.next < |x.rows| && Free(s, t, x.NextKey())
         && s' == s.(txns := s.txns[t := x.Advance(s.committed)])
       case Commit(t) =>
         x.hasTape && x.next == |x.rows| && s' == Sys(s.txns[t := Over(x)], s.committed + x.held)
       case Rollback(t) => s' == s.(txns := s.txns[t := Over(x)])
  }

  /** Nobody has started. */
  predicate Init(s: Sys) {
    forall t | 0 <= t < |s.txns| :: Fresh(s.txns[t])
  }

  predicate Fresh(x: Txn) {
    !x.hasTape && x.next == 0 && !x.idTaken && x.held == {} && !x.over
  }

  datatype Run = Run(states: seq<Sys>, events: seq<Event>) {
    predicate Valid() {
      && |states| == |events| + 1 && Init(states[0])
      && forall i | 0 <= i < |events| :: Next(states[i], events[i], states[i + 1])
    }
  }

  // ----- what every step keeps -----

  predicate Exclusive(s: Sys) {
    forall t, u | 0 <= t < |s.txns| && 0 <= u < |s.txns| && t != u :: s.txns[t].held !! s.txns[u].held
  }

  /** One transaction at a time has the row of a tape. */
  predicate TapesExclusive(s: Sys) {
    forall t, u | 0 <= t < |s.txns| && 0 <= u < |s.txns| && t != u && s.txns[t].hasTape && s.txns[u].hasTape ::
      s.txns[t].vid != s.txns[u].vid
  }

  predicate Inv(s: Sys) {
    (forall t | 0 <= t < |s.txns| :: s.txns[t].Valid()) && Exclusive(s) && TapesExclusive(s)
  }

  lemma OfMoreRows(k: Key, rows: seq<Row>, n: nat)
    requires n < |rows| && (OfRows(k, rows[..n]) || k in RowKeys(rows[n]))
    ensures OfRows(k, rows[..n + 1])
  {
    if OfRows(k, rows[..n]) {
      var j :| 0 <= j < n && k in RowKeys(rows[..n][j]);
      assert k in RowKeys(rows[..n + 1][j]);
    } else {
      assert k in RowKeys(rows[..n + 1][n]);
    }
  }

  lemma AdvanceKeepsValid(x: Txn, committed: set<Key>)
    requires x.Valid() && x.hasTape && x.next < |x.rows|
    ensures x.Advance(committed).Valid()
  {
    var y := x.Advance(committed);
    assert x.NextKey() in RowKeys(x.rows[x.next]);
    forall k | k in y.held ensures OfRows(k, y.rows[..y.next]) || (y.idTaken && k == IdKey(y.rows[y.next].id)) {
      if y.next == x.next + 1 {
        if k == x.NextKey() || !OfRows(k, x.rows[..x.next]) { assert k in RowKeys(x.rows[x.next]); }
        OfMoreRows(k, x.rows, x.next);
      }
    }
  }

  /** Transaction `t` is now `y`, which holds nothing that another holds. */
  lemma ChangeKeeps(s: Sys, t: nat, y: Txn, committed: set<Key>)
    requires Inv(s) && t < |s.txns| && y.Valid()
    requires forall u | 0 <= u < |s.txns| && u != t :: s.txns[u].held !! y.held
    requires forall u | 0 <= u < |s.txns| && u != t :: y.hasTape && s.txns[u].hasTape ==> s.txns[u].vid != y.vid
    ensures Inv(Sys(s.txns[t := y], committed))
  {
  }

  lemma StepKeeps(s: Sys, e: Event, s': Sys)
    requires Inv(s) && Next(s, e, s')
    ensures Inv(s')
  {
    var x, y := s.txns[e.t], s'.txns[e.t];
    if e.Insert? {
      AdvanceKeepsValid(x, s.committed);
      assert forall u | 0 <= u < |s.txns| && u != e.t :: !s.txns[u].Holds(x.NextKey());
      assert y.held <= x.held + {x.NextKey()};
    }
    if e.LockTape? {
      assert forall u | 0 <= u < |s.txns| && u != e.t :: !s.txns[u].Holds(TapeRow(x.vid));
    }
    ChangeKeeps(s, e.t, y, s'.committed);
  }

  lemma StepKeepsOrdered(s: Sys, e: Event, s': Sys)
    requires Ordered(s) && Next(s, e, s')
    ensures Ordered(s')
  {
    assert s'.txns[e.t].rows == s.txns[e.t].rows;
  }

  lemma {:induction false} RunKeeps(run: Run, n: nat)
    requires run.Valid() && n < |run.states|
    ensures Inv(run.states[n])
  {
    if n > 0 {
      RunKeeps(run, n - 1);
      StepKeeps(run.states[n - 1], run.events[n - 1], run.states[n]);
    }
  }

  lemma {:induction false} RunKeepsOrdered(run: Run, n: nat)
    requires run.Valid() && n < |run.states| && Ordered(run.states[0])
    ensures Ordered(run.states[n])
  {
    if n > 0 {
      RunKeepsOrdered(run, n - 1);
      StepKeepsOrdered(run.states[n - 1], run.events[n - 1], run.states[n]);
    }
  }

  // ----- sorted rows without disk keys -----

  predicate Sorted(rows: seq<Row>) {
    && (forall i | 0 <= i < |rows| :: rows[i].disk.None?)
    && (forall i, j | 0 <= i < j < |rows| :: rows[i].id <= rows[j].id)
  }

  predicate Ordered(s: Sys) {
    forall t | 0 <= t < |s.txns| :: Sorted(s.txns[t].rows)
  }

  /** Transaction `t` waits for `u`: it wants something that `u` holds. */
  predicate Waits(s: Sys, t: nat, u: nat) {
    && t < |s.txns| && u < |s.txns| && t != u
    && s.txns[t].Wants().Some? && s.txns[u].Holds(s.txns[t].Wants().value)
  }

  predicate Cycle(s: Sys, c: seq<nat>) {
    c != [] && forall i | 0 <= i < |c| :: Waits(s, c[i], c[if i + 1 < |c| then i + 1 else 0])
  }

  /** A transaction that is at work waits exactly while it can neither lock, insert nor commit: it can take
      one of these steps unless another one holds what it wants. One that is over takes no step. */
  lemma WaitsIffStuck(s: Sys, t: nat)
    requires t < |s.txns| && s.txns[t].next <= |s.txns[t].rows|
    ensures !s.txns[t].over ==>
      ((exists u: nat :: Waits(s, t, u)) <==> forall e: Event, s' | e.t == t && !e.Rollback? :: !Next(s, e, s'))
    ensures s.txns[t].over ==> forall e: Event, s' | e.t == t :: !Next(s, e, s')
  {
    var x := s.txns[t];
    if x.over { return; }
    if u: nat :| Waits(s, t, u) {
      assert x.Wants().Some? && s.txns[u].Holds(x.Wants().value);
    } else {
      var s' := if !x.hasTape then s.(txns := s.txns[t := x.(hasTape := true)])
                else if x.next < |x.rows| then s.(txns := s.txns[t := x.Advance(s.committed)])
                else Sys(s.txns[t := Over(x)], s.committed + x.held);
      var e := if !x.hasTape then LockTape(t) else if x.next < |x.rows| then Insert(t) else Commit(t);
      forall u | 0 <= u < |s.txns| && u != t
        ensures x.Wants().Some? ==> !s.txns[u].Holds(x.Wants().value)
      {
        assert !Waits(s, t, u);
      }
      assert Next(s, e, s');
    }
  }

  /** The archive file id that a transaction waits to insert. */
  function WantedId(s: Sys, t: nat): Option<nat> {
    if t < |s.txns| && s.txns[t].Wants().Some? && s.txns[t].Wants().value.IdKey?
    then Some(s.txns[t].Wants().value.id) else None
  }

  /** Along a waiting chain the wanted archive file ids increase. */
  lemma WaitsUpwards(s: Sys, t: nat, u: nat, v: nat)
    requires Inv(s) && Ordered(s) && Waits(s, t, u) && Waits(s, u, v)
    ensures WantedId(s, u).Some?
    ensures WantedId(s, t).Some? ==> WantedId(s, t).value < WantedId(s, u).value
  {
    var x, y := s.txns[t], s.txns[u];
    assert y.Valid() && Sorted(y.rows) && Sorted(x.rows);
    assert y.hasTape;
    if x.Wants().value.IdKey? {
      var k := x.Wants().value;
      var j :| 0 <= j < y.next && k in RowKeys(y.rows[..y.next][j]);
      assert y.rows[..y.next][j] == y.rows[j];
      assert k.id == y.rows[j].id <= y.rows[y.next].id;
      assert k !in s.txns[v].held;
    }
  }

  lemma {:induction false} ChainUpwards(s: Sys, c: seq<nat>, n: nat)
    requires Inv(s) && Ordered(s) && Cycle(s, c) && 0 < n < |c|
    ensures WantedId(s, c[0]).Some? && WantedId(s, c[n]).Some?
    ensures WantedId(s, c[0]).value < WantedId(s, c[n]).value
  {
    var last := |c| - 1;
    assert Waits(s, c[last], c[0]) && Waits(s, c[0], c[1]) && Waits(s, c[n - 1], c[n]);
    assert Waits(s, c[n], c[if n + 1 < |c| then n + 1 else 0]);
    WaitsUpwards(s, c[last], c[0], c[1]);
    WaitsUpwards(s, c[n - 1], c[n], c[if n + 1 < |c| then n + 1 else 0]);
    if n > 1 { ChainUpwards(s, c, n - 1); }
  }

  /** With ascending ids and no disk keys the wait-for graph has no cycle. */
  lemma NoCycle(s: Sys, c: seq<nat>)
    requires Inv(s) && Ordered(s)
    ensures !Cycle(s, c)
  {
    if Cycle(s, c) {
      var last := |c| - 1;
      assert Waits(s, c[last], c[0]);
      if last > 0 {
        ChainUpwards(s, c, last);
        assert Waits(s, c[0], c[1]);
        WaitsUpwards(s, c[last], c[0], c[1]);
      }
      assert false;
    }
  }

  /** Postgres inserts in ascending order of archive file id and checks disk keys later: whatever the
      number of transactions and however they interleave, inserting archive rows leads to no cycle of
      waiting transactions. */
  lemma AscendingInsertsNeverDeadlock(run: Run, n: nat, c: seq<nat>)
    requires run.Valid() && Ordered(run.states[0]) && n < |run.states|
    ensures !Cycle(run.states[n], c)
  {
    RunKeeps(run, n);
    RunKeepsOrdered(run, n);
    NoCycle(run.states[n], c);
  }

  // ----- one writer by itself -----

  /** The writer once it has its tape row and has inserted `m` keys, or been refused for them, with
      nobody in its way. */
  function Solo(x: Txn, committed: set<Key>, m: nat): Txn {
    if m == 0 then x.(hasTape := true)
    else
      var y := Solo(x, committed, m - 1);
      if y.next < |y.rows| then y.Advance(committed) else y
  }

  lemma SoloNext(x: Txn, committed: set<Key>, m: nat, y: Txn)
    requires Solo(x, committed, m) == y
    ensures Solo(x, committed, m + 1) == if y.next < |y.rows| then y.Advance(committed) else y
  {
  }

  /** A started writer on its tape and with its rows, that holds no committed key. */
  predicate Started(x: Txn, y: Txn, committed: set<Key>) {
    y.Valid() && y.hasTape && !y.over && y.vid == x.vid && y.rows == x.rows && y.held !! committed
  }

  lemma AdvanceIsStarted(x: Txn, y: Txn, committed: set<Key>)
    requires Started(x, y, committed) && y.next < |y.rows|
    ensures Started(x, y.Advance(committed), committed)
  {
    AdvanceKeepsValid(y, committed);
  }

  lemma {:induction false} SoloIs(x: Txn, committed: set<Key>, m: nat)
    requires Fresh(x)
    ensures Started(x, Solo(x, committed, m), committed)
  {
    if m > 0 {
      SoloIs(x, committed, m - 1);
      var y := Solo(x, committed, m - 1);
      if y.next < |y.rows| { AdvanceIsStarted(x, y, committed); }
    }
  }

  /** From the id of a row to its disk key, or to the next row. */
  lemma AdvanceGoesTo(y: Txn, committed: set<Key>)
    requires y.next < |y.rows|
    ensures var z := y.Advance(committed);
      && (y.idTaken ==> !z.idTaken && z.next == y.next + 1)
      && (z.idTaken ==> !y.idTaken && z.next == y.next && y.NextKey() == IdKey(y.rows[y.next].id))
      && (z.idTaken ==> y.NextKey() !in y.held && z.held == y.held + {y.NextKey()})
      && (!z.idTaken ==> z.next == y.next + 1)
  {
  }

  /** A key that was inserted, or refused, is committed or held afterwards. */
  lemma KeyStays(y: Txn, committed: set<Key>)
    requires y.Valid() && y.hasTape && y.next < |y.rows|
    ensures y.NextKey() in committed || y.NextKey() in y.Advance(committed).held
  {
  }

  /** What a step gives back: nothing, or the id of a row whose disk key was refused. */
  lemma GivesBack(y: Txn, committed: set<Key>, k: Key)
    requires y.Valid() && y.hasTape && y.next < |y.rows|
    requires k in y.held && k !in y.Advance(committed).held
    ensures y.idTaken && k == IdKey(y.rows[y.next].id) && y.Advance(committed).held == y.held - {k}
  {
  }

  /** If a step gives back a key, the writer held two steps before what it holds now, and wanted that key. */
  lemma GivesBackTwo(x: Txn, committed: set<Key>, m: nat, k: Key, w: Txn, y: Txn, z: Txn)
    requires Fresh(x) && Solo(x, committed, m) == w
    requires Solo(x, committed, m + 1) == y && Solo(x, committed, m + 2) == z
    requires k in y.held && k !in z.held
    ensures w.held == z.held && w.Wants() == Some(k)
  {
    SoloIs(x, committed, m);
    SoloIs(x, committed, m + 1);
    SoloNext(x, committed, m + 1, y);
    GivesBack(y, committed, k);
    SoloNext(x, committed, m, w);
    AdvanceGoesTo(w, committed);
  }

  // ----- two writers -----

  /** Each wants a key that the other holds, and they hold no key in common. */
  predicate FaceOff(x: Txn, y: Txn) {
    && x.Wants().Some? && y.Holds(x.Wants().value)
    && y.Wants().Some? && x.Holds(y.Wants().value)
    && x.held !! y.held
  }

  /** A run from `s0` ends in `s`. */
  ghost predicate EndsIn(run: Run, s0: Sys, s: Sys) {
    run.Valid() && run.states[0] == s0 && run.states[|run.events|] == s
  }

  ghost predicate Reachable(s0: Sys, s: Sys) {
    exists run: Run :: EndsIn(run, s0, s)
  }

  /** The states in which runs from `s0` end. */
  ghost function ReachableFrom(s0: Sys): iset<Sys> {
    iset s: Sys | Reachable(s0, s)
  }

  /** The states in which the two writers, on their own, wait for each other. */
  ghost function Deadlocks(a: Txn, b: Txn, committed: set<Key>): iset<Sys> {
    iset s: Sys | s in ReachableFrom(Sys([a, b], committed)) && Cycle(s, [0, 1])
  }

  ghost predicate CanDeadlock(a: Txn, b: Txn, committed: set<Key>) {
    Deadlocks(a, b, committed) != iset{}
  }

  lemma ReachesItself(s: Sys)
    requires Init(s)
    ensures s in ReachableFrom(s)
  {
    assert EndsIn(Run([s], []), s, s);
  }

  lemma ReachesNext(s0: Sys, s: Sys, e: Event, s': Sys)
    requires s in ReachableFrom(s0) && Next(s, e, s')
    ensures s' in ReachableFrom(s0)
  {
    var run: Run :| EndsIn(run, s0, s);
    assert EndsIn(Run(run.states + [s'], run.events + [e]), s0, s');
  }

  /** The two writers, `m` and `n` keys on. */
  function Pair(a: Txn, b: Txn, committed: set<Key>, m: nat, n: nat): Sys {
    Sys([Solo(a, committed, m), Solo(b, committed, n)], committed)
  }

  ghost predicate Meets(a: Txn, b: Txn, committed: set<Key>, m: nat, n: nat) {
    Pair(a, b, committed, m, n) in ReachableFrom(Sys([a, b], committed))
  }

  lemma MeetsAtStart(a: Txn, b: Txn, committed: set<Key>)
    requires Fresh(a) && Fresh(b) && a.vid != b.vid
    ensures Meets(a, b, committed, 0, 0)
  {
    var s0 := Sys([a, b], committed);
    assert s0.txns[0] == a && s0.txns[1] == b;
    ReachesItself(s0);
    var s1 := Sys([a.(hasTape := true), b], committed);
    assert Free(s0, 0, TapeRow(a.vid)) && s1.txns == s0.txns[0 := a.(hasTape := true)];
    ReachesNext(s0, s0, LockTape(0), s1);
    assert s1.txns[1] == b && Free(s1, 1, TapeRow(b.vid));
    assert Pair(a, b, committed, 0, 0).txns == s1.txns[1 := b.(hasTape := true)];
    ReachesNext(s0, s1, LockTape(1), Pair(a, b, committed, 0, 0));
  }

  /** One of two writers goes one key further if, there, they hold no key in common. */
  lemma InsertReaches(s0: Sys, s: Sys, t: nat)
    requires s in ReachableFrom(s0) && |s.txns| == 2 && t < 2
    requires Started(s.txns[t], s.txns[t], s.committed) && s.txns[t].next < |s.txns[t].rows|
    requires Started(s.txns[1 - t], s.txns[1 - t], s.committed)
    requires s.txns[t].Advance(s.committed).held !! s.txns[1 - t].held
    ensures s.(txns := s.txns[t := s.txns[t].Advance(s.committed)]) in ReachableFrom(s0)
  {
    var x := s.txns[t];
    KeyStays(x, s.committed);
    assert x.NextKey() !in s.txns[1 - t].held;
    ReachesNext(s0, s, Insert(t), s.(txns := s.txns[t := x.Advance(s.committed)]));
  }

  lemma FirstGoesOn(a: Txn, b: Txn, committed: set<Key>, m: nat, n: nat)
    requires Fresh(a) && Fresh(b) && Meets(a, b, committed, m, n)
    requires Solo(a, committed, m + 1).held !! Solo(b, committed, n).held
    ensures Meets(a, b, committed, m + 1, n)
  {
    var x := Solo(a, committed, m);
    SoloIs(a, committed, m);
    SoloIs(b, committed, n);
    SoloNext(a, committed, m, x);
    if x.next < |x.rows| {
      var s := Pair(a, b, committed, m, n);
      InsertReaches(Sys([a, b], committed), s, 0);
      assert s.txns[0 := x.Advance(committed)] == Pair(a, b, committed, m + 1, n).txns;
    }
  }

  lemma SecondGoesOn(a: Txn, b: Txn, committed: set<Key>, m: nat, n: nat)
    requires Fresh(a) && Fresh(b) && Meets(a, b, committed, m, n)
    requires Solo(a, committed, m).held !! Solo(b, committed, n + 1).held
    ensures Meets(a, b, committed, m, n + 1)
  {
    var y := Solo(b, committed, n);
    SoloIs(a, committed, m);
    SoloIs(b, committed, n);
    SoloNext(b, committed, n, y);
    if y.next < |y.rows| {
      var s := Pair(a, b, committed, m, n);
      InsertReaches(Sys([a, b], committed), s, 1);
      assert s.txns[1 := y.Advance(committed)] == Pair(a, b, committed, m, n + 1).txns;
    }
  }

  lemma FaceOffIsCycle(s: Sys)
    requires |s.txns| == 2 && FaceOff(s.txns[0], s.txns[1])
    ensures Cycle(s, [0, 1])
  {
    assert Waits(s, 0, 1) && Waits(s, 1, 0);
  }

  /** A key that a step gave back was wanted two steps before, when the same was held as after it. */
  ghost predicate GivesBackWanted(held: nat -> set<Key>, wants: nat -> Option<Key>) {
    forall m: nat, k :: GaveBackWanted(held, wants, m, k)
  }

  predicate GaveBackWanted(held: nat -> set<Key>, wants: nat -> Option<Key>, m: nat, k: Key) {
    k in held(m + 1) && k !in held(m + 2) ==> held(m) == held(m + 2) && wants(m) == Some(k)
  }

  /** Two writers, known only by what they hold and want: they can go on to where they hold no key in
      common, and face off only if they deadlock. */
  ghost predicate Race(
      heldA: nat -> set<Key>, wantsA: nat -> Option<Key>, heldB: nat -> set<Key>, wantsB: nat -> Option<Key>,
      met: (nat, nat) -> bool, deadlock: bool)
  {
    && heldA(0) == {} && heldB(0) == {} && met(0, 0)
    && GivesBackWanted(heldA, wantsA) && GivesBackWanted(heldB, wantsB)
    && GoOn(heldA, heldB, met) && (deadlock || NeverFaceOff(heldA, wantsA, heldB, wantsB, met))
  }

  ghost predicate GoOn(heldA: nat -> set<Key>, heldB: nat -> set<Key>, met: (nat, nat) -> bool) {
    && (forall m: nat, n: nat | met(m, n) && heldA(m + 1) !! heldB(n) :: met(m + 1, n))
    && (forall m: nat, n: nat | met(m, n) && heldA(m) !! heldB(n + 1) :: met(m, n + 1))
  }

  ghost predicate NeverFaceOff(
      heldA: nat -> set<Key>, wantsA: nat -> Option<Key>, heldB: nat -> set<Key>, wantsB: nat -> Option<Key>,
      met: (nat, nat) -> bool)
  {
    forall m: nat, n: nat, k, l | met(m, n) && heldA(m) !! heldB(n) && k in heldB(n) && l in heldA(m) ::
      !(wantsA(m) == Some(k) && wantsB(n) == Some(l))
  }

  /** Wherever they would hold no key in common, they can be there, or they deadlock. If a common key stands
      in the way of a step back of either, both gave back an id that the other holds, and they face off
      two steps back. */
  lemma {:induction false} MeetsOrDeadlocks(
      heldA: nat -> set<Key>, wantsA: nat -> Option<Key>, heldB: nat -> set<Key>, wantsB: nat -> Option<Key>,
      met: (nat, nat) -> bool, deadlock: bool, m: nat, n: nat)
    requires Race(heldA, wantsA, heldB, wantsB, met, deadlock) && heldA(m) !! heldB(n)
    ensures met(m, n) || deadlock
    decreases m + n
  {
    if m > 0 && heldA(m - 1) !! heldB(n) {
      MeetsOrDeadlocks(heldA, wantsA, heldB, wantsB, met, deadlock, m - 1, n);
      assert met(m - 1, n) ==> met(m - 1 + 1, n);
    } else if n > 0 && heldA(m) !! heldB(n - 1) {
      MeetsOrDeadlocks(heldA, wantsA, heldB, wantsB, met, deadlock, m, n - 1);
      assert met(m, n - 1) ==> met(m, n - 1 + 1);
    } else if m + n > 0 {
      assert m > 0 && n > 0;
      var k :| k in heldA(m - 1) && k in heldB(n);
      var l :| l in heldB(n - 1) && l in heldA(m);
      assert m > 1 && n > 1;
      assert GaveBackWanted(heldA, wantsA, m - 2, k) && GaveBackWanted(heldB, wantsB, n - 2, l);
      MeetsOrDeadlocks(heldA, wantsA, heldB, wantsB, met, deadlock, m - 2, n - 2);
    }
  }

  function HeldOf(x: Txn, committed: set<Key>): nat -> set<Key> {
    (m: nat) => Solo(x, committed, m).held
  }

  function WantsOf(x: Txn, committed: set<Key>): nat -> Option<Key> {
    (m: nat) => Solo(x, committed, m).Wants()
  }

  ghost function MetBy(a: Txn, b: Txn, committed: set<Key>): (nat, nat) -> bool {
    (m: nat, n: nat) => Pair(a, b, committed, m, n) in ReachableFrom(Sys([a, b], committed))
  }

  lemma SoloGivesBack(x: Txn, committed: set<Key>)
    requires Fresh(x)
    ensures GivesBackWanted(HeldOf(x, committed), WantsOf(x, committed))
  {
    var held, wants := HeldOf(x, committed), WantsOf(x, committed);
    forall m: nat, k ensures GaveBackWanted(held, wants, m, k) {
      if k in held(m + 1) && k !in held(m + 2) {
        GivesBackTwo(x, committed, m, k, Solo(x, committed, m), Solo(x, committed, m + 1), Solo(x, committed, m + 2));
      }
    }
  }

  lemma TheyGoOn(a: Txn, b: Txn, committed: set<Key>)
    requires Fresh(a) && Fresh(b)
    ensures GoOn(HeldOf(a, committed), HeldOf(b, committed), MetBy(a, b, committed))
  {
    var heldA, heldB, met := HeldOf(a, committed), HeldOf(b, committed), MetBy(a, b, committed);
    forall m: nat, n: nat | met(m, n) && heldA(m + 1) !! heldB(n) ensures met(m + 1, n) {
      FirstGoesOn(a, b, committed, m, n);
    }
    forall m: nat, n: nat | met(m, n) && heldA(m) !! heldB(n + 1) ensures met(m, n + 1) {
      SecondGoesOn(a, b, committed, m, n);
    }
  }

  lemma FaceOffOrNot(a: Txn, b: Txn, committed: set<Key>)
    requires Fresh(a) && Fresh(b) && !CanDeadlock(a, b, committed)
    ensures NeverFaceOff(HeldOf(a, committed), WantsOf(a, committed), HeldOf(b, committed), WantsOf(b, committed),
                         MetBy(a, b, committed))
  {
    var heldA, heldB, met := HeldOf(a, committed), HeldOf(b, committed), MetBy(a, b, committed);
    var wantsA, wantsB := WantsOf(a, committed), WantsOf(b, committed);
    forall m: nat, n: nat, k, l | met(m, n) && heldA(m) !! heldB(n) && k in heldB(n) && l in heldA(m)
      ensures !(wantsA(m) == Some(k) && wantsB(n) == Some(l))
    {
      if wantsA(m) == Some(k) && wantsB(n) == Some(l) {
        WantsMeet(a, b, committed, m, n, k, l);
        FaceOffDeadlocks(a, b, committed, m, n);
      }
    }
  }

  /** The two writers are such a race. */
  lemma TwoWritersRace(a: Txn, b: Txn, committed: set<Key>, m: nat, n: nat)
    requires Fresh(a) && Fresh(b) && a.vid != b.vid
    requires Solo(a, committed, m).held !! Solo(b, committed, n).held
    ensures Meets(a, b, committed, m, n) || CanDeadlock(a, b, committed)
  {
    MeetsAtStart(a, b, committed);
    SoloGivesBack(a, committed);
    SoloGivesBack(b, committed);
    TheyGoOn(a, b, committed);
    if !CanDeadlock(a, b, committed) { FaceOffOrNot(a, b, committed); }
    assert HeldOf(a, committed)(0) == {} && HeldOf(b, committed)(0) == {};
    MeetsOrDeadlocks(HeldOf(a, committed), WantsOf(a, committed), HeldOf(b, committed), WantsOf(b, committed),
                     MetBy(a, b, committed), CanDeadlock(a, b, committed), m, n);
  }

  lemma WantsMeet(a: Txn, b: Txn, committed: set<Key>, m: nat, n: nat, k: Key, l: Key)
    requires Fresh(a) && Fresh(b) && Solo(a, committed, m).held !! Solo(b, committed, n).held
    requires Solo(a, committed, m).Wants() == Some(k) && k in Solo(b, committed, n).held
    requires Solo(b, committed, n).Wants() == Some(l) && l in Solo(a, committed, m).held
    ensures FaceOff(Solo(a, committed, m), Solo(b, committed, n))
  {
    SoloIs(a, committed, m);
    SoloIs(b, committed, n);
  }

  lemma FaceOffDeadlocks(a: Txn, b: Txn, committed: set<Key>, m: nat, n: nat)
    requires Meets(a, b, committed, m, n) && FaceOff(Solo(a, committed, m), Solo(b, committed, n))
    ensures CanDeadlock(a, b, committed)
  {
    FaceOffIsCycle(Pair(a, b, committed, m, n));
    assert Pair(a, b, committed, m, n) in Deadlocks(a, b, committed);
  }

  /** As long as neither is over, each writer has not started or is some way on by itself. */
  ghost predicate OnItsWay(x: Txn, y: Txn, committed: set<Key>) {
    y == x || exists m: nat :: y == Solo(x, committed, m)
  }

  lemma StaysOnItsWay(x: Txn, y: Txn, committed: set<Key>)
    requires OnItsWay(x, y, committed) && y.hasTape && y.next < |y.rows| && Fresh(x)
    ensures OnItsWay(x, y.Advance(committed), committed)
  {
    var m: nat :| y == Solo(x, committed, m);
    assert Solo(x, committed, m + 1) == y.Advance(committed);
  }

  ghost predicate Apart(a: Txn, b: Txn, committed: set<Key>, s: Sys) {
    && |s.txns| == 2
    && (!s.txns[0].over && !s.txns[1].over ==>
          s.committed == committed && OnItsWay(a, s.txns[0], committed) && OnItsWay(b, s.txns[1], committed))
  }

  lemma StepKeepsApart(a: Txn, b: Txn, committed: set<Key>, s: Sys, e: Event, s': Sys)
    requires Fresh(a) && Fresh(b) && Apart(a, b, committed, s) && Next(s, e, s')
    ensures Apart(a, b, committed, s')
  {
    if !s'.txns[0].over && !s'.txns[1].over {
      assert !s.txns[0].over && !s.txns[1].over;
      var x := if e.t == 0 then a else b;
      if e.Insert? { StaysOnItsWay(x, s.txns[e.t], committed); }
      if e.LockTape? { LockIsOnItsWay(x, s.txns[e.t], committed); }
    }
  }

  lemma LockIsOnItsWay(x: Txn, y: Txn, committed: set<Key>)
    requires Fresh(x) && OnItsWay(x, y, committed) && !y.hasTape
    ensures OnItsWay(x, y.(hasTape := true), committed)
  {
    if y != x {
      var m: nat :| y == Solo(x, committed, m);
      SoloIs(x, committed, m);
    }
    assert x.(hasTape := true) == Solo(x, committed, 0);
  }

  lemma {:induction false} RunKeepsApart(a: Txn, b: Txn, committed: set<Key>, run: Run, n: nat)
    requires Fresh(a) && Fresh(b) && run.Valid() && run.states[0] == Sys([a, b], committed) && n < |run.states|
    ensures Apart(a, b, committed, run.states[n])
  {
    if n > 0 {
      RunKeepsApart(a, b, committed, run, n - 1);
      StepKeepsApart(a, b, committed, run.states[n - 1], run.events[n - 1], run.states[n]);
    }
  }

  lemma StartedIsSolo(x: Txn, y: Txn, committed: set<Key>) returns (m: nat)
    requires Fresh(x) && OnItsWay(x, y, committed) && y.hasTape
    ensures y == Solo(x, committed, m)
  {
    m :| y == Solo(x, committed, m);
  }

  /** A deadlock is such a meeting of the two writers. */
  lemma DeadlockIsFaceOff(a: Txn, b: Txn, committed: set<Key>, s: Sys) returns (m: nat, n: nat)
    requires Fresh(a) && Fresh(b) && s in Deadlocks(a, b, committed)
    ensures a.vid != b.vid && FaceOff(Solo(a, committed, m), Solo(b, committed, n))
  {
    var run: Run :| EndsIn(run, Sys([a, b], committed), s);
    RunKeeps(run, |run.events|);
    RunKeepsApart(a, b, committed, run, |run.events|);
    var c := [0, 1];
    assert Waits(s, c[0], c[1]) && Waits(s, c[1], c[0]);
    var x, y := s.txns[0], s.txns[1];
    assert x.Valid() && y.Valid() && x.hasTape && y.hasTape;
    m := StartedIsSolo(a, x, committed);
    n := StartedIsSolo(b, y, committed);
    SoloIs(a, committed, m);
    SoloIs(b, committed, n);
  }

  // ----- the condition, from the rows and the committed keys -----

  /** The keys that a writer holds before row `i`: those of the rows of which no key was taken. */
  function HeldBefore(rows: seq<Row>, committed: set<Key>, i: nat): set<Key>
    requires i <= |rows|
  {
    if i == 0 then {}
    else
      var held := HeldBefore(rows, committed, i - 1);
      if RowKeys(rows[i - 1]) !! committed + held then held + RowKeys(rows[i - 1]) else held
  }

  /** A point at which a writer can wait: before a row, or between the two keys of one whose id is new. */
  datatype Point = Point(row: nat, between: bool)

  predicate IsPoint(rows: seq<Row>, committed: set<Key>, p: Point) {
    && p.row < |rows|
    && (p.between ==>
          rows[p.row].disk.Some? && IdKey(rows[p.row].id) !in committed + HeldBefore(rows, committed, p.row))
  }

  function HeldAt(rows: seq<Row>, committed: set<Key>, p: Point): set<Key>
    requires p.row < |rows|
  {
    HeldBefore(rows, committed, p.row) + if p.between then {IdKey(rows[p.row].id)} else {}
  }

  function WantedAt(rows: seq<Row>, p: Point): Key
    requires p.row < |rows| && (p.between ==> rows[p.row].disk.Some?)
  {
    if p.between then DiskKey(rows[p.row].disk.value) else IdKey(rows[p.row].id)
  }

  /** At two points the writers hold no key in common, and each wants one that the other holds. */
  predicate Crossed(a: seq<Row>, b: seq<Row>, committed: set<Key>, p: Point, q: Point)
    requires IsPoint(a, committed, p) && IsPoint(b, committed, q)
  {
    && HeldAt(a, committed, p) !! HeldAt(b, committed, q)
    && WantedAt(a, p) in HeldAt(b, committed, q) && WantedAt(b, q) in HeldAt(a, committed, p)
  }

  /** The writer is at a point, and holds what it holds there; or it is past its last row. */
  ghost predicate AtPoint(rows: seq<Row>, committed: set<Key>, y: Txn) {
    && y.rows == rows && y.next <= |rows|
    && (y.next == |rows| ==> y.held == HeldBefore(rows, committed, |rows|) && !y.idTaken)
    && (y.next < |rows| ==>
          var p := Point(y.next, y.idTaken);
          IsPoint(rows, committed, p) && y.held == HeldAt(rows, committed, p))
  }

  lemma {:induction false} SoloIsPoint(x: Txn, committed: set<Key>, m: nat)
    requires Fresh(x)
    ensures AtPoint(x.rows, committed, Solo(x, committed, m))
  {
    if m > 0 {
      SoloIsPoint(x, committed, m - 1);
      SoloIs(x, committed, m - 1);
      AdvanceToPoint(x.rows, committed, Solo(x, committed, m - 1));
    }
  }

  lemma AdvanceToPoint(rows: seq<Row>, committed: set<Key>, y: Txn)
    requires AtPoint(rows, committed, y) && y.Valid()
    ensures y.next < |rows| ==> AtPoint(rows, committed, y.Advance(committed))
  {
    if y.next < |rows| { NextPoint(y, committed); }
  }

  lemma WantsAtPoint(rows: seq<Row>, committed: set<Key>, y: Txn)
    requires AtPoint(rows, committed, y) && y.Valid() && y.Inserting()
    ensures y.Wants() == Some(WantedAt(rows, Point(y.next, y.idTaken)))
  {
  }

  /** From a point to the next. */
  lemma NextPoint(y: Txn, committed: set<Key>)
    requires y.Valid() && y.next < |y.rows| && IsPoint(y.rows, committed, Point(y.next, y.idTaken))
    requires y.held == HeldAt(y.rows, committed, Point(y.next, y.idTaken))
    ensures var z := y.Advance(committed);
      && (z.idTaken ==> z.next == y.next && IsPoint(y.rows, committed, Point(z.next, true))
                        && z.held == HeldAt(y.rows, committed, Point(z.next, true)))
      && (!z.idTaken ==> z.next == y.next + 1 && z.held == HeldBefore(y.rows, committed, z.next))
  {
    var row := y.rows[y.next];
    var held := HeldBefore(y.rows, committed, y.next);
    assert HeldBefore(y.rows, committed, y.next + 1) ==
      if RowKeys(row) !! committed + held then held + RowKeys(row) else held;
  }

  /** Every point is reached. */
  lemma {:induction false} PointIsSolo(x: Txn, committed: set<Key>, p: Point) returns (m: nat)
    requires Fresh(x) && IsPoint(x.rows, committed, p)
    ensures Solo(x, committed, m).next == p.row && Solo(x, committed, m).idTaken == p.between
    decreases p.row, p.between
  {
    if p.between {
      m := PointIsSolo(x, committed, Point(p.row, false));
      BetweenIsNext(x, committed, m);
      m := m + 1;
    } else if p.row == 0 {
      m := 0;
    } else {
      m := PointIsSolo(x, committed, Point(p.row - 1, false));
      SoloIs(x, committed, m);
      var z;
      m, z := RowIsDone(x, committed, m, Solo(x, committed, m));
    }
  }

  lemma BetweenIsNext(x: Txn, committed: set<Key>, m: nat)
    requires Fresh(x) && Solo(x, committed, m).next < |x.rows| && !Solo(x, committed, m).idTaken
    requires IsPoint(x.rows, committed, Point(Solo(x, committed, m).next, true))
    ensures var z := Solo(x, committed, m + 1);
      z.next == Solo(x, committed, m).next && z.idTaken
  {
    SoloIsPoint(x, committed, m);
    SoloIs(x, committed, m);
  }

  lemma RowIsDone(x: Txn, committed: set<Key>, m: nat, y: Txn) returns (n: nat, z: Txn)
    requires Solo(x, committed, m) == y && y.next < |y.rows| && !y.idTaken
    ensures Solo(x, committed, n) == z && z.next == y.next + 1 && !z.idTaken
  {
    SoloNext(x, committed, m, y);
    AdvanceGoesTo(y, committed);
    n, z := m + 1, y.Advance(committed);
    if z.idTaken {
      SoloNext(x, committed, n, z);
      AdvanceGoesTo(z, committed);
      n, z := n + 1, z.Advance(committed);
    }
  }

  /** Two writers can come to wait for each other if and only if they write to different tapes and their
      rows are crossed, for the keys that are committed. */
  lemma TwoWritersDeadlockIff(a: Txn, b: Txn, committed: set<Key>)
    requires Fresh(a) && Fresh(b)
    ensures CanDeadlock(a, b, committed) <==>
      a.vid != b.vid &&
      exists p, q | IsPoint(a.rows, committed, p) && IsPoint(b.rows, committed, q) ::
        Crossed(a.rows, b.rows, committed, p, q)
  {
    if CanDeadlock(a, b, committed) {
      var s :| s in Deadlocks(a, b, committed);
      var m, n := DeadlockIsFaceOff(a, b, committed, s);
      FaceOffIsCrossed(a, b, committed, m, n);
    }
    if a.vid != b.vid {
      forall p, q | IsPoint(a.rows, committed, p) && IsPoint(b.rows, committed, q)
                    && Crossed(a.rows, b.rows, committed, p, q)
        ensures CanDeadlock(a, b, committed)
      {
        CrossedDeadlocks(a, b, committed, p, q);
      }
    }
  }

  lemma FaceOffIsCrossed(a: Txn, b: Txn, committed: set<Key>, m: nat, n: nat)
    requires Fresh(a) && Fresh(b) && a.vid != b.vid
    requires FaceOff(Solo(a, committed, m), Solo(b, committed, n))
    ensures exists p, q | IsPoint(a.rows, committed, p) && IsPoint(b.rows, committed, q) ::
      Crossed(a.rows, b.rows, committed, p, q)
  {
    SoloIs(a, committed, m);
    SoloIs(b, committed, n);
    SoloIsPoint(a, committed, m);
    SoloIsPoint(b, committed, n);
    var x, y := Solo(a, committed, m), Solo(b, committed, n);
    WantsAtPoint(a.rows, committed, x);
    WantsAtPoint(b.rows, committed, y);
    var p, q := Point(x.next, x.idTaken), Point(y.next, y.idTaken);
    assert Crossed(a.rows, b.rows, committed, p, q);
  }

  lemma CrossedDeadlocks(a: Txn, b: Txn, committed: set<Key>, p: Point, q: Point)
    requires Fresh(a) && Fresh(b) && a.vid != b.vid
    requires IsPoint(a.rows, committed, p) && IsPoint(b.rows, committed, q) && Crossed(a.rows, b.rows, committed, p, q)
    ensures CanDeadlock(a, b, committed)
  {
    var m := PointIsSolo(a, committed, p);
    var n := PointIsSolo(b, committed, q);
    SoloIsPoint(a, committed, m);
    SoloIsPoint(b, committed, n);
    SoloIs(a, committed, m);
    SoloIs(b, committed, n);
    WantsAtPoint(a.rows, committed, Solo(a, committed, m));
    WantsAtPoint(b.rows, committed, Solo(b, committed, n));
    TwoWritersRace(a, b, committed, m, n);
    if Meets(a, b, committed, m, n) { FaceOffDeadlocks(a, b, committed, m, n); }
  }

  // ----- when it happens -----

  function Begun(vid: Vid, rows: seq<Row>): Txn {
    Txn(vid, rows, false, 0, false, {}, false)
  }

  lemma HeldAfterOne(rows: seq<Row>, committed: set<Key>)
    requires |rows| > 0 && RowKeys(rows[0]) !! committed
    ensures HeldBefore(rows, committed, 1) == RowKeys(rows[0])
  {
    assert HeldBefore(rows, committed, 0) == {};
  }

  /** Copies of the same two new files, in opposite orders on two tapes. */
  lemma OppositeOrdersCanDeadlock(v: Vid, w: Vid, f: Row, g: Row, committed: set<Key>)
    requires v != w && RowKeys(f) !! RowKeys(g) && RowKeys(f) !! committed && RowKeys(g) !! committed
    ensures CanDeadlock(Begun(v, [f, g]), Begun(w, [g, f]), committed)
  {
    var a, b := Begun(v, [f, g]), Begun(w, [g, f]);
    HeldAfterOne(a.rows, committed);
    HeldAfterOne(b.rows, committed);
    var p := Point(1, false);
    assert IsPoint(a.rows, committed, p) && IsPoint(b.rows, committed, p) && Crossed(a.rows, b.rows, committed, p, p);
    TwoWritersDeadlockIff(a, b, committed);
  }

  /** Four different files, but two disk keys of each writer are those of the other, in opposite orders. */
  lemma DisjointIdsCanDeadlock(v: Vid, w: Vid, ids: seq<nat>, k: Disk, l: Disk, committed: set<Key>)
    requires v != w && k != l && |ids| == 4 && (forall i, j | 0 <= i < j < 4 :: ids[i] != ids[j])
    requires {DiskKey(k), DiskKey(l)} !! committed && (forall i | 0 <= i < 4 :: IdKey(ids[i]) !in committed)
    ensures CanDeadlock(Begun(v, [Row(ids[0], Some(k)), Row(ids[1], Some(l))]),
                        Begun(w, [Row(ids[2], Some(l)), Row(ids[3], Some(k))]), committed)
  {
    var a := Begun(v, [Row(ids[0], Some(k)), Row(ids[1], Some(l))]);
    var b := Begun(w, [Row(ids[2], Some(l)), Row(ids[3], Some(k))]);
    HeldAfterOne(a.rows, committed);
    HeldAfterOne(b.rows, committed);
    var p := Point(1, true);
    assert IsPoint(a.rows, committed, p) && IsPoint(b.rows, committed, p) && Crossed(a.rows, b.rows, committed, p, p);
    TwoWritersDeadlockIff(a, b, committed);
  }

  lemma {:induction false} HeldGrows(rows: seq<Row>, committed: set<Key>, i: nat, j: nat)
    requires i <= j <= |rows|
    ensures HeldBefore(rows, committed, i) <= HeldBefore(rows, committed, j)
  {
    if i < j { HeldGrows(rows, committed, i, j - 1); }
  }

  /** Two writers that begin with the same new file: one waits for the other there, whatever comes after. */
  lemma SameFirstRowNeverDeadlocks(a: Txn, b: Txn, committed: set<Key>)
    requires Fresh(a) && Fresh(b) && |a.rows| > 0 && |b.rows| > 0
    requires a.rows[0] == b.rows[0] && RowKeys(a.rows[0]) !! committed
    ensures !CanDeadlock(a, b, committed)
  {
    HeldAfterOne(a.rows, committed);
    HeldAfterOne(b.rows, committed);
    forall p, q | IsPoint(a.rows, committed, p) && IsPoint(b.rows, committed, q)
      ensures !Crossed(a.rows, b.rows, committed, p, q)
    {
      if p.row > 0 { HeldGrows(a.rows, committed, 1, p.row); }
      if q.row > 0 { HeldGrows(b.rows, committed, 1, q.row); }
      assert IdKey(a.rows[0].id) in RowKeys(a.rows[0]);
    }
    TwoWritersDeadlockIff(a, b, committed);
  }
}

/** Concurrent writers on one tape. Each transaction first locks the TAPE row (SELECT ... FOR UPDATE),
    and keeps it until it commits or rolls back; writers may fail, lose the answer to a commit, and
    try again, in any interleaving. */
module TapeLock {
  import opened Tables
  import opened Batch

  /** `Holding(seen)`: has the row lock and has read LAST_FSEQ as `seen`. */
  datatype Phase = Outside | Holding(seen: nat)

  predicate Known(batches: seq<seq<Item>>, history: seq<nat>) {
    forall i | 0 <= i < |history| :: history[i] < |batches|
  }

  /** `batches[w]` is what writer `w` wants to record; `history` lists the writers whose transactions
      have committed, in order. */
  datatype Sys = Sys(batches: seq<seq<Item>>, tape: Tape, phases: seq<Phase>, history: seq<nat>) {
    predicate WellTyped() {
      |phases| == |batches| && Known(batches, history)
      && forall w | 0 <= w < |batches| :: batches[w] != []
    }

    predicate Locked() {
      exists w | 0 <= w < |phases| :: phases[w].Holding?
    }
  }

  datatype Event = Lock(w: nat) | Commit(w: nat) | GiveUp(w: nat)

  predicate Next(s: Sys, e: Event, s': Sys)
    requires s.WellTyped()
  {
    && e.w < |s.phases|
    && match e
       case Lock(w) =>
         && s.phases[w].Outside? && !s.Locked()
         && s' == s.(phases := s.phases[w := Holding(s.tape.lastFSeq)])
       case Commit(w) =>
         && s.phases[w].Holding? && Consecutive(s.batches[w], s.phases[w].seen)
         && s' == s.(phases := s.phases[w := Outside], tape := UpdatedTape(s.tape, s.batches[w]),
                     history := s.history + [w])
       case GiveUp(w) =>
         && s.phases[w].Holding?
         && s' == s.(phases := s.phases[w := Outside])
  }

  /** The items recorded so far, in commit order. */
  function Recorded(batches: seq<seq<Item>>, history: seq<nat>): seq<Item>
    requires Known(batches, history)
  {
    if history == [] then []
    else Recorded(batches, history[..|history| - 1]) + batches[history[|history| - 1]]
  }

  /** The bytes recorded so far: each batch adds its file sizes, summed in 64 bits. */
  function BytesRecorded(batches: seq<seq<Item>>, history: seq<nat>): nat
    requires Known(batches, history)
  {
    if history == [] then 0
    else BytesRecorded(batches, history[..|history| - 1]) + SumSizes(Files(batches[history[|history| - 1]])) % TWO64
  }

  /** The recorded items fill the sequence numbers above the initial LAST_FSEQ without gap or overlap,
      and the totals of the tape count exactly the recorded files. */
  predicate Tiled(s: Sys, start: Tape)
    requires s.WellTyped()
  {
    var items := Recorded(s.batches, s.history);
    && Consecutive(items, start.lastFSeq)
    && s.tape.lastFSeq == start.lastFSeq + |items|
    && s.tape.nbMasterFiles == start.nbMasterFiles + |Files(items)|
    && s.tape.dataInBytes == start.dataInBytes + BytesRecorded(s.batches, s.history)
  }

  /** The row lock: at most one holder, and what it has read is still true. */
  predicate LockHolds(s: Sys) {
    && (forall w, v | 0 <= w < v < |s.phases| :: !(s.phases[w].Holding? && s.phases[v].Holding?))
    && (forall w | 0 <= w < |s.phases| && s.phases[w].Holding? :: s.phases[w].seen == s.tape.lastFSeq)
  }

  lemma {:induction false} FilesConcat(a: seq<Item>, b: seq<Item>)
    ensures Files(a + b) == Files(a) + Files(b)
  {
    if b == [] {
      assert a + b == a;
    } else {
      assert (a + b)[..|a + b| - 1] == a + b[..|b| - 1];
      FilesConcat(a, b[..|b| - 1]);
    }
  }

  lemma StepKeeps(s: Sys, e: Event, s': Sys, start: Tape)
    requires s.WellTyped() && Next(s, e, s') && LockHolds(s) && Tiled(s, start)
    ensures s'.WellTyped() && LockHolds(s') && Tiled(s', start) && s'.batches == s.batches
  {
    if e.Commit? {
      var b := s.batches[e.w];
      assert s'.history[..|s'.history| - 1] == s.history;
      var items := Recorded(s.batches, s.history);
      FilesConcat(items, b);
      assert Consecutive(items + b, start.lastFSeq);
      assert b[|b| - 1].fSeq == s.tape.lastFSeq + |b|;
    }
  }

  datatype Run = Run(states: seq<Sys>, events: seq<Event>) {
    predicate Valid() {
      && |states| == |events| + 1 && states[0].WellTyped()
      && states[0].history == [] && !states[0].Locked()
      && forall i | 0 <= i < |events| :: states[i].WellTyped() && Next(states[i], events[i], states[i + 1])
    }
  }

  /** Whatever event is possible in the last state of a run continues the run. */
  lemma RunContinues(run: Run, e: Event, s': Sys)
    requires run.Valid() && run.states[|run.events|].WellTyped() && Next(run.states[|run.events|], e, s')
    ensures Run(run.states + [s'], run.events + [e]).Valid()
  {
  }

  lemma {:induction false} RunKeeps(run: Run, n: nat)
    requires run.Valid() && n < |run.states|
    ensures run.states[n].WellTyped() && LockHolds(run.states[n])
    ensures Tiled(run.states[n], run.states[0].tape) && run.states[n].batches == run.states[0].batches
  {
    if n > 0 {
      RunKeeps(run, n - 1);
      StepKeeps(run.states[n - 1], run.events[n - 1], run.states[n], run.states[0].tape);
    }
  }

  lemma {:induction false} RecordedAt(batches: seq<seq<Item>>, history: seq<nat>, k: nat) returns (at: nat)
    requires Known(batches, history) && k < |history|
    requires forall w | 0 <= w < |batches| :: batches[w] != []
    ensures at + |batches[history[k]]| <= |Recorded(batches, history)|
    ensures Recorded(batches, history)[at..at + |batches[history[k]]|] == batches[history[k]]
    ensures at == |Recorded(batches, history[..k])|
  {
    var n := |history| - 1;
    if k == n {
      at := |Recorded(batches, history[..n])|;
    } else {
      at := RecordedAt(batches, history[..n], k);
      assert history[..n][..k] == history[..k];
    }
  }

  lemma {:induction false} RecordedGrows(batches: seq<seq<Item>>, history: seq<nat>, i: nat, j: nat)
    requires Known(batches, history) && i < j <= |history|
    requires forall w | 0 <= w < |batches| :: batches[w] != []
    ensures |Recorded(batches, history[..i])| < |Recorded(batches, history[..j])|
  {
    assert history[..j][..j - 1] == history[..j - 1];
    if i < j - 1 { RecordedGrows(batches, history, i, j - 1); }
  }

  /** In every state of every interleaving: the committed batches tile the sequence numbers above the
      initial LAST_FSEQ, and no batch has been committed twice. */
  lemma CommittedBatchesTile(run: Run, n: nat)
    requires run.Valid() && n < |run.states|
    ensures run.states[n].WellTyped() && Tiled(run.states[n], run.states[0].tape)
    ensures NoDup(run.states[n].history)
  {
    RunKeeps(run, n);
    var s := run.states[n];
    var items := Recorded(s.batches, s.history);
    forall i, j | 0 <= i < j < |s.history| ensures s.history[i] != s.history[j] {
      var x := RecordedAt(s.batches, s.history, i);
      var y := RecordedAt(s.batches, s.history, j);
      RecordedGrows(s.batches, s.history, i, j);
      assert items[x] == s.batches[s.history[i]][0]
        by { assert items[x..x + |s.batches[s.history[i]]|][0] == items[x]; }
      assert items[y] == s.batches[s.history[j]][0]
        by { assert items[y..y + |s.batches[s.history[j]]|][0] == items[y]; }
      assert items[x].fSeq != items[y].fSeq;
    }
  }
}

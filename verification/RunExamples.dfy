/** Runs on which a promise of the tape-file protocol fails. All names are one arbitrary string `s`. */
module RunExamples {
  import opened Tables
  import opened Batch
  import opened Recycle
  import opened Invariant
  import opened Runs

  // ----- a batch with one file -----

  function Row(s: string, size: nat): ArchiveRow {
    ArchiveRow(s, s, 1, 1, size, s, s, 0)
  }

  function Copied(n: nat, size: nat): TapeFile {
    TapeFile(1, n, n, size, 0)
  }

  /** A catalogue with one tape, written up to `last`, and no archive file. */
  function Empty(s: string, last: nat, log: seq<LogEntry>): Db {
    Db(map[s := Tape(last, 0, 0, false, false)], {s}, {s}, map[], map[], log)
  }

  /** That catalogue with copy `n` of archive file 1 at position `n`. */
  function OneCopy(s: string, n: nat, size: nat, log: seq<LogEntry>): Db {
    Db(map[s := Tape(n, size, 1, false, false)], {s}, {s},
       map[1 := Row(s, size)], map[Pos(s, n) := Copied(n, size)], log)
  }

  function Event(s: string, n: nat, size: nat): FileEvent {
    FileEvent(Pos(s, n), FileInfo(1, s, s, 1, 1, size, s, s, n, n))
  }

  function OneFile(s: string, n: nat, size: nat): seq<Item> {
    [Item(s, n, s, Some(Event(s, n, size).info))]
  }

  lemma OneFileIs(s: string, n: nat, size: nat)
    ensures Files(OneFile(s, n, size)) == [Event(s, n, size)] && SumSizes([Event(s, n, size)]) == size
    ensures NewIds([Event(s, n, size)]) == {1} && NewPositions([Event(s, n, size)]) == {Pos(s, n)}
  {
    assert OneFile(s, n, size)[..0] == [];
    assert [Event(s, n, size)][..0] == [];
  }

  lemma OneFileFitsTape(s: string, n: nat, size: nat, log: seq<LogEntry>)
    requires s != "" && n > 0 && size > 0
    ensures TapeAccepts(Empty(s, n - 1, log), OneFile(s, n, size))
  {
  }

  lemma OneFileFits(s: string, n: nat, size: nat, log: seq<LogEntry>)
    requires n > 0
    ensures FilesAccepted(Empty(s, n - 1, log), [Event(s, n, size)])
  {
  }

  lemma OneFileAccepted(s: string, n: nat, size: nat, log: seq<LogEntry>)
    requires s != "" && n > 0 && size > 0
    ensures Accepts(Empty(s, n - 1, log), OneFile(s, n, size))
  {
    OneFileIs(s, n, size);
    OneFileFitsTape(s, n, size, log);
    OneFileFits(s, n, size, log);
  }

  lemma OneFileWritten(s: string, n: nat, size: nat, log: seq<LogEntry>)
    requires n > 0 && size < TWO64
    ensures Written(Empty(s, n - 1, log), OneFile(s, n, size), 0, OneCopy(s, n, size, log))
  {
    OneFileIs(s, n, size);
    var db, db' := Empty(s, n - 1, log), OneCopy(s, n, size, log);
    assert Displaced(db, [Event(s, n, size)]) == {};
    assert RepackEntries(db, [Event(s, n, size)], db'.archive, 0) == {};
    assert db'.log[|db.log|..] == [];
  }

  // ----- a batch that is applied twice -----

  function Snapshot(s: string, size: nat): ArchiveFile {
    ArchiveFile(1, s, [Copy(Pos(s, 1), Copied(1, size))])
  }

  function Delete(s: string, size: nat): DeleteRequest {
    DeleteRequest(1, s, s, s, Some(Snapshot(s, size)))
  }

  /** The deleted file leaves nothing but its entry in the recycle log. */
  lemma DeletedFile(s: string, size: nat)
    ensures var after := MovedFile(OneCopy(s, 1, size, []), Delete(s, size), Snapshot(s, size), 0);
      && after.live == map[] && after.archive == map[] && after.tapes.Keys == {s}
      && after.storageClasses == {s} && after.diskInstances == {s}
      && |after.log| == 1 && after.log[0].pos == Pos(s, 1)
  {
    var db := OneCopy(s, 1, size, []);
    var a := Snapshot(s, size);
    MovedFileIs(db, Delete(s, size), a, 0);
    LogCopiesIs(db, 1, a.copies, DeletionReason(Delete(s, size)), 0);
    assert CopiesOf(db, 1) == {Pos(s, 1)};
    var log := LogCopies(db, 1, a.copies, DeletionReason(Delete(s, size)), 0).log;
    assert log[|db.log| + 0].pos == Pos(s, 1);
  }

  lemma SnapshotIsCurrent(s: string, size: nat)
    requires s != ""
    ensures IsCurrent(OneCopy(s, 1, size, []), Snapshot(s, size))
    ensures RequestConsistent(Delete(s, size), Snapshot(s, size))
    ensures TapesKnown(OneCopy(s, 1, size, []), Snapshot(s, size))
  {
    assert Snapshot(s, size).copies[0] in Snapshot(s, size).copies;
  }

  /** Filled up and reclaimed, the tape is as it was before the batch. */
  lemma ReclaimedIsEmpty(s: string, after: Db)
    requires after.live == map[] && after.archive == map[] && after.tapes.Keys == {s}
    requires after.storageClasses == {s} && after.diskInstances == {s}
    requires |after.log| == 1 && after.log[0].pos == Pos(s, 1)
    ensures Reclaimable(Filled(after, s), s) && Reclaimed(Filled(after, s), s) == Empty(s, 0, [])
  {
    assert after.log[..0] == [];
    assert Filter(after.log, OffTape(s)) == [];
  }

  /** Written, deleted, filled up, reclaimed and written again. */
  lemma WrittenTwice(s: string, size: nat) returns (run: Run)
    requires s != "" && 0 < size < TWO64
    ensures run in SerialisedRuns()
    ensures var write := Write(OneFile(s, 1, size), 0);
      run.steps == [write, MoveFile(Delete(s, size), 0), SetFull(s, true), Reclaim(s), write]
    ensures |run.states| == 6 && run.states[0] == run.states[4] == Empty(s, 0, [])
    ensures run.states[1] == run.states[5] == OneCopy(s, 1, size, [])
  {
    WriteStep(s, 1, size, []);
    DeleteStep(s, size);
    LastSteps(s, size);
    var db0, db1 := Empty(s, 0, []), OneCopy(s, 1, size, []);
    var db2 := MovedFile(db1, Delete(s, size), Snapshot(s, size), 0);
    var write, delete := Write(OneFile(s, 1, size), 0), MoveFile(Delete(s, size), 0);
    run := FiveSteps(db0, write, db1, delete, db2, SetFull(s, true), Filled(db2, s), Reclaim(s), db0, write, db1);
  }

  /** With a reclaim in between a batch is applied twice, and creates again an archive file that was
      deleted. */
  lemma ReclaimAllowsASecondTime(s: string, size: nat) returns (run: Run)
    requires s != "" && 0 < size < TWO64
    ensures run.Serialised() && Inv(run.states[0]) && |run.steps| == 5
    ensures run.steps[0] == run.steps[4] == Write(OneFile(s, 1, size), 0)
    ensures run.steps[1] == MoveFile(Delete(s, size), 0) && run.steps[3] == Reclaim(s)
    ensures Accepts(run.states[0], OneFile(s, 1, size)) && Accepts(run.states[4], OneFile(s, 1, size))
    ensures run.states[1] == run.states[5] == OneCopy(s, 1, size, [])
  {
    run := WrittenTwice(s, size);
    OneFileAccepted(s, 1, size, []);
    EmptyIsSound(s);
  }

  function Filled(db: Db, vid: Vid): Db {
    if vid in db.tapes then db.(tapes := db.tapes[vid := db.tapes[vid].(full := true)]) else db
  }

  lemma EmptyIsSound(s: string)
    ensures Inv(Empty(s, 0, []))
  {
  }

  lemma WriteStep(s: string, n: nat, size: nat, log: seq<LogEntry>)
    requires s != "" && n > 0 && 0 < size < TWO64
    ensures Transition(Empty(s, n - 1, log), Write(OneFile(s, n, size), 0), OneCopy(s, n, size, log)) in Transitions()
  {
    OneFileAccepted(s, n, size, log);
    OneFileWritten(s, n, size, log);
    assert Next(Empty(s, n - 1, log), Write(OneFile(s, n, size), 0), OneCopy(s, n, size, log));
  }

  lemma DeleteStep(s: string, size: nat)
    requires s != ""
    ensures var db1 := OneCopy(s, 1, size, []);
      var db2 := MovedFile(db1, Delete(s, size), Snapshot(s, size), 0);
      Transition(db1, MoveFile(Delete(s, size), 0), db2) in Transitions()
  {
    SnapshotIsCurrent(s, size);
  }

  lemma LastSteps(s: string, size: nat)
    ensures var db2 := MovedFile(OneCopy(s, 1, size, []), Delete(s, size), Snapshot(s, size), 0);
      && Transition(db2, SetFull(s, true), Filled(db2, s)) in Transitions()
      && Transition(Filled(db2, s), Reclaim(s), Empty(s, 0, [])) in Transitions()
  {
    DeletedFile(s, size);
    ReclaimedIsEmpty(s, MovedFile(OneCopy(s, 1, size, []), Delete(s, size), Snapshot(s, size), 0));
  }

  // ----- building runs -----

  datatype Transition = Transition(before: Db, step: Step, after: Db)

  /** The steps, with current snapshots, that lead from one state to another. */
  ghost function Transitions(): iset<Transition> {
    iset t: Transition | Current(t.before, t.step) && Next(t.before, t.step, t.after)
  }

  ghost function SerialisedRuns(): iset<Run> {
    iset run: Run | run.Serialised()
  }

  lemma Started(db: Db) returns (run: Run)
    ensures run in SerialisedRuns() && run == Run([db], [])
  {
    run := Run([db], []);
  }

  lemma Extended(run: Run, last: Db, step: Step, db: Db) returns (longer: Run)
    requires run in SerialisedRuns() && |run.states| == |run.steps| + 1 && run.states[|run.steps|] == last
    requires Transition(last, step, db) in Transitions()
    ensures longer in SerialisedRuns() && longer == Run(run.states + [db], run.steps + [step])
  {
    longer := Run(run.states + [db], run.steps + [step]);
  }

  lemma FiveSteps(d0: Db, s0: Step, d1: Db, s1: Step, d2: Db, s2: Step, d3: Db, s3: Step, d4: Db, s4: Step, d5: Db)
    returns (run: Run)
    requires Transition(d0, s0, d1) in Transitions() && Transition(d1, s1, d2) in Transitions()
    requires Transition(d2, s2, d3) in Transitions() && Transition(d3, s3, d4) in Transitions()
    requires Transition(d4, s4, d5) in Transitions()
    ensures run in SerialisedRuns() && run == Run([d0, d1, d2, d3, d4, d5], [s0, s1, s2, s3, s4])
  {
    run := Run([d0, d1, d2, d3, d4, d5], [s0, s1, s2, s3, s4]);
    var possible := (d: Db, step: Step, d': Db) => Transition(d, step, d') in Transitions();
    AllFive(possible, run.states, run.steps);
    AllPossible(possible, run);
  }

  lemma AllFive<D, S>(possible: (D, S, D) -> bool, ds: seq<D>, ss: seq<S>)
    requires |ds| == 6 && |ss| == 5
    requires possible(ds[0], ss[0], ds[1]) && possible(ds[1], ss[1], ds[2]) && possible(ds[2], ss[2], ds[3])
    requires possible(ds[3], ss[3], ds[4]) && possible(ds[4], ss[4], ds[5])
    ensures forall i | 0 <= i < 5 :: possible(ds[i], ss[i], ds[i + 1])
  {
  }

  lemma AllPossible(possible: (Db, Step, Db) -> bool, run: Run)
    requires |run.states| == |run.steps| + 1
    requires forall d, step, d' | possible(d, step, d') :: Transition(d, step, d') in Transitions()
    requires forall i | 0 <= i < |run.steps| :: possible(run.states[i], run.steps[i], run.states[i + 1])
    ensures run in SerialisedRuns()
  {
    forall i | 0 <= i < |run.steps|
      ensures Current(run.states[i], run.steps[i]) && Next(run.states[i], run.steps[i], run.states[i + 1])
    {
      assert possible(run.states[i], run.steps[i], run.states[i + 1]);
    }
  }

  // ----- why batches must respect the recycle log's sizes -----

  /** The recycle log's entry of copy 1, of size `size`, of archive file 1. */
  function Gone(s: string, size: nat): LogEntry {
    EntryFor(Pos(s, 1), Copied(1, size), Row(s, size), s, 0)
  }

  const BY_COPY := Criteria(None, Some(1), None, None, Some(1))

  lemma GoneIsRestorable(s: string, size: nat, other: nat, newFid: string)
    requires size != other
    ensures var db := OneCopy(s, 2, other, [Gone(s, size)]);
      && Matching(db, BY_COPY) == [Gone(s, size)] && Restorable(db, BY_COPY, newFid)
      && !LiveSizesAgree(Restored(db, Gone(s, size), newFid, 0))
  {
    var db := OneCopy(s, 2, other, [Gone(s, size)]);
    assert Matching(db, BY_COPY) == [Gone(s, size)] by { assert [Gone(s, size)][..0] == []; }
    assert Pos(s, 2) in CopiesOf(db, 1);
    var after := Restored(db, Gone(s, size), newFid, 0);
    assert after.live[Pos(s, 1)].size == size && after.archive[1].size == other;
  }

  lemma GoneIsSound(s: string, size: nat)
    ensures Inv(Empty(s, 1, [Gone(s, size)])) && Sizes(Empty(s, 1, [Gone(s, size)]))
  {
  }

  /** If an archive file whose copy is in the recycle log is created again under another size, restoring
      the old copy leaves a live copy whose size is not that of its archive file. */
  lemma RecreatedFileBreaksSizes(s: string, size: nat, other: nat, newFid: string) returns (run: Run)
    requires s != "" && size != other && 0 < other < TWO64
    ensures run.Serialised() && Inv(run.states[0]) && Sizes(run.states[0]) && |run.steps| == 2
    ensures run.steps[0].Write? && Accepts(run.states[0], run.steps[0].events) && run.steps[1].Restore?
    ensures !LiveSizesAgree(run.states[2])
  {
    var log := [Gone(s, size)];
    var db0, db1 := Empty(s, 1, log), OneCopy(s, 2, other, log);
    OneFileAccepted(s, 2, other, log);
    GoneIsSound(s, size);
    WriteStep(s, 2, other, log);
    RestoreStep(s, size, other, newFid);
    run := Started(db0);
    run := Extended(run, db0, Write(OneFile(s, 2, other), 0), db1);
    run := Extended(run, db1, Restore(BY_COPY, newFid, 0), Restored(db1, Gone(s, size), newFid, 0));
  }

  lemma RestoreStep(s: string, size: nat, other: nat, newFid: string)
    requires size != other
    ensures var db1 := OneCopy(s, 2, other, [Gone(s, size)]);
      var db2 := Restored(db1, Gone(s, size), newFid, 0);
      Transition(db1, Restore(BY_COPY, newFid, 0), db2) in Transitions() && !LiveSizesAgree(db2)
  {
    GoneIsRestorable(s, size, other, newFid);
    RestoreTransition(OneCopy(s, 2, other, [Gone(s, size)]), BY_COPY, newFid, 0, Gone(s, size));
  }

  lemma RestoreTransition(db: Db, c: Criteria, newFid: string, now: nat, e: LogEntry)
    requires Restorable(db, c, newFid) && Matching(db, c) == [e]
    ensures Transition(db, Restore(c, newFid, now), Restored(db, e, newFid, now)) in Transitions()
  {
  }
}

/** Serialised runs of catalogue operations: what holds in every state of every run. */
module Runs {
  import opened Tables
  import opened Batch
  import opened Recycle
  import opened RecycleRows
  import opened Invariant
  import opened RecycleInvariant

  datatype Step =
    | Write(events: seq<Item>, now: nat)
    | MoveFile(req: DeleteRequest, now: nat)
    | MoveCopy(vid: Vid, file: ArchiveFile, reason: string, now: nat)
    | Restore(criteria: Criteria, newFid: string, now: nat)
    | Purge(vid: Vid)
    | Reclaim(vid: Vid)
    | CreateTape(vid: Vid, full: bool)
    | SetFull(vid: Vid, full: bool)

  /** One operation: a refused one leaves the tables as they are. */
  predicate Next(db: Db, step: Step, db': Db) {
    match step
    case Write(events, now) =>
      if Accepts(db, events) then Written(db, events, now, db') else db' == db
    case MoveFile(req, now) =>
      if req.archiveFile.Some? && RequestConsistent(req, req.archiveFile.value) && TapesKnown(db, req.archiveFile.value)
      then db' == MovedFile(db, req, req.archiveFile.value, now) else db' == db
    case MoveCopy(vid, a, reason, now) =>
      if TapesKnown(db, a) then db' == MovedCopies(db, a, reason, now) else db' == db
    case Restore(c, newFid, now) =>
      if Restorable(db, c, newFid) then db' == Restored(db, Matching(db, c)[0], newFid, now) else db' == db
    case Purge(vid) => db' == Purged(db, vid)
    case Reclaim(vid) => if Reclaimable(db, vid) then db' == Reclaimed(db, vid) else db' == db
    case CreateTape(vid, full) =>
      if vid in db.tapes then db' == db else db' == db.(tapes := db.tapes[vid := Tape(0, 0, 0, full, false)])
    case SetFull(vid, full) =>
      if vid in db.tapes then db' == db.(tapes := db.tapes[vid := db.tapes[vid].(full := full)]) else db' == db
  }

  /** The snapshot a caller passes to a move is the one it would read now. */
  predicate Current(db: Db, step: Step) {
    match step
    case MoveFile(req, _) =>
      req.archiveFile.Some? ==> IsCurrent(db, req.archiveFile.value) && req.archiveFile.value.id == req.archiveFileId
    case MoveCopy(vid, a, _, _) => ForDeletion(db, vid, a)
    case _ => true
  }

  predicate SizesKept(db: Db, step: Step) {
    step.Write? && Accepts(db, step.events) ==> AgreesWithLog(db, Files(step.events))
  }

  datatype Run = Run(states: seq<Db>, steps: seq<Step>) {
    predicate Valid() {
      && |states| == |steps| + 1
      && (forall i | 0 <= i < |steps| :: Next(states[i], steps[i], states[i + 1]))
    }

    predicate Serialised() {
      Valid() && forall i | 0 <= i < |steps| :: Current(states[i], steps[i])
    }
  }

  /** A move of a file, a move of a copy and a restore keep the invariant, the sizes and the positions. */
  ghost predicate KeepsAll(db: Db, db': Db) {
    Inv(db') && (Sizes(db) ==> Sizes(db')) && AllPositions(db') == AllPositions(db)
  }

  lemma MoveFileKeepsAll(db: Db, req: DeleteRequest, now: nat, db': Db)
    requires Inv(db) && Current(db, MoveFile(req, now)) && Next(db, MoveFile(req, now), db')
    ensures KeepsAll(db, db')
  {
    if req.archiveFile.Some? && RequestConsistent(req, req.archiveFile.value) {
      var a := req.archiveFile.value;
      MovedFileIsMoved(db, req, a, now);
      if TapesKnown(db, a) {
        MoveKeepsInv(db, a, DeletionReason(req), now, db');
        if Sizes(db) { MoveKeepsSizes(db, a, DeletionReason(req), now, db'); }
      }
    }
  }

  lemma MoveCopyKeepsAll(db: Db, vid: Vid, a: ArchiveFile, reason: string, now: nat, db': Db)
    requires Inv(db) && Current(db, MoveCopy(vid, a, reason, now)) && Next(db, MoveCopy(vid, a, reason, now), db')
    ensures KeepsAll(db, db')
  {
    if TapesKnown(db, a) {
      MovedCopiesIsMoved(db, vid, a, reason, now);
      MoveKeepsInv(db, a, AdminReason(reason), now, db');
      if Sizes(db) { MoveKeepsSizes(db, a, AdminReason(reason), now, db'); }
    }
  }

  lemma RestoreKeepsAll(db: Db, c: Criteria, newFid: string, now: nat, db': Db)
    requires Inv(db) && Next(db, Restore(c, newFid, now), db')
    ensures KeepsAll(db, db')
  {
    if Restorable(db, c, newFid) {
      var e := Matching(db, c)[0];
      assert e in db.log;
      RestoreKeepsInv(db, e, newFid, now);
      RestoreConserves(db, e, newFid, now);
      if Sizes(db) { RestoreKeepsSizes(db, e, newFid, now); }
    }
  }

  lemma BatchKeeps(db: Db, events: seq<Item>, now: nat, db': Db)
    requires Inv(db) && Next(db, Write(events, now), db')
    ensures Inv(db') && (Sizes(db) && SizesKept(db, Write(events, now)) ==> Sizes(db'))
  {
    if Accepts(db, events) {
      WriteKeepsInv(db, events, now, db');
      if Sizes(db) { WriteKeepsSizesIff(db, events, now, db'); }
    }
  }

  lemma TapeStepKeeps(db: Db, step: Step, db': Db)
    requires step.Purge? || step.Reclaim? || step.CreateTape? || step.SetFull?
    requires Inv(db) && Next(db, step, db')
    ensures Inv(db') && (Sizes(db) ==> Sizes(db'))
  {
    match step
    case Purge(vid) => PurgeKeepsInv(db, vid);
    case Reclaim(vid) => if Reclaimable(db, vid) { ReclaimKeepsInv(db, vid); }
    case _ => TapesOnlyKeepsInv(db, db');
  }

  lemma StepKeepsInv(db: Db, step: Step, db': Db)
    requires Inv(db) && Current(db, step) && Next(db, step, db')
    ensures Inv(db')
  {
    match step
    case Write(events, now) => BatchKeeps(db, events, now, db');
    case MoveFile(req, now) => MoveFileKeepsAll(db, req, now, db');
    case MoveCopy(vid, a, reason, now) => MoveCopyKeepsAll(db, vid, a, reason, now, db');
    case Restore(c, newFid, now) => RestoreKeepsAll(db, c, newFid, now, db');
    case _ => TapeStepKeeps(db, step, db');
  }

  lemma TapesOnlyKeepsInv(db: Db, db': Db)
    requires Inv(db) && db' == db.(tapes := db'.tapes)
    requires forall v | v in db.tapes :: v in db'.tapes && db'.tapes[v].lastFSeq == db.tapes[v].lastFSeq
    ensures Inv(db') && (Sizes(db) ==> Sizes(db'))
  {
    forall p | Bounded(db, p) ensures Bounded(db', p) {}
    assert forall id :: CopiesOf(db', id) == CopiesOf(db, id);
  }

  lemma StepKeepsSizes(db: Db, step: Step, db': Db)
    requires Inv(db) && Sizes(db) && Current(db, step) && SizesKept(db, step) && Next(db, step, db')
    ensures Sizes(db')
  {
    match step
    case Write(events, now) => BatchKeeps(db, events, now, db');
    case MoveFile(req, now) => MoveFileKeepsAll(db, req, now, db');
    case MoveCopy(vid, a, reason, now) => MoveCopyKeepsAll(db, vid, a, reason, now, db');
    case Restore(c, newFid, now) => RestoreKeepsAll(db, c, newFid, now, db');
    case _ => TapeStepKeeps(db, step, db');
  }

  /** In every serialised run from a sound state, every state is sound: positions are unique and
      bounded, and a copy number of an archive file is live at most once. */
  lemma {:induction false} InvAlways(run: Run, n: nat)
    requires run.Serialised() && Inv(run.states[0]) && n < |run.states|
    ensures Inv(run.states[n])
  {
    if n > 0 {
      InvAlways(run, n - 1);
      StepKeepsInv(run.states[n - 1], run.steps[n - 1], run.states[n]);
    }
  }

  /** In every serialised run whose batches respect the recycle log's sizes, every live copy has the
      size of its archive file, also after restores. */
  lemma {:induction false} SizesAlways(run: Run, n: nat)
    requires run.Serialised() && Inv(run.states[0]) && Sizes(run.states[0]) && n < |run.states|
    requires forall i | 0 <= i < n :: SizesKept(run.states[i], run.steps[i])
    ensures Inv(run.states[n]) && Sizes(run.states[n])
  {
    InvAlways(run, n);
    if n > 0 {
      SizesAlways(run, n - 1);
      StepKeepsSizes(run.states[n - 1], run.steps[n - 1], run.states[n]);
    }
  }

  // ----- accounting for positions -----

  lemma EntriesPositions(s: seq<LogEntry>, ps: set<Pos>)
    requires DistinctPositions(s) && (set e | e in s :: e.pos) == ps
    ensures LogPositions(s) == multiset(ps)
  {
    forall p ensures LogPositions(s)[p] == multiset(ps)[p] {
      if p in ps {
        var k :| 0 <= k < |s| && s[k].pos == p;
        RecordedOnce(s, k);
      } else {
        forall i | 0 <= i < |s| ensures s[i].pos != p { assert s[i] in s; }
        NotRecorded(s, p);
      }
    }
  }

  lemma WrittenLogPositions(db: Db, fs: seq<FileEvent>, now: nat, db': Db)
    requires FilesAccepted(db, fs) && PositionsUnique(db) && LogWritten(db, fs, now, db')
    requires ArchiveWritten(db, fs, now, db'.archive)
    ensures LogPositions(db'.log) == LogPositions(db.log) + multiset(Displaced(db, fs))
  {
    WriteKeepsLogPositions(db, fs, now, db');
    var n := |db.log|;
    var s := db'.log[n..];
    assert db'.log == db.log + s;
    forall i, j | 0 <= i < j < |s| ensures s[i].pos != s[j].pos {
      assert s[i] == db'.log[n + i] && s[j] == db'.log[n + j];
    }
    var entries := RepackEntries(db, fs, db'.archive, now);
    assert (set x | x in s) == entries;
    forall p | p in Displaced(db, fs) ensures exists e | e in s :: e.pos == p {
      var f :| f in fs && f.info.archiveFileId == db.live[p].archiveFileId;
      assert f.info.archiveFileId in NewIds(fs);
      var e := EntryFor(p, db.live[p], db'.archive[db.live[p].archiveFileId], REPACK_REASON, now);
      assert e in entries;
    }
    forall e | e in s ensures e.pos in Displaced(db, fs) { assert e in entries; }
    assert (set e | e in s :: e.pos) == Displaced(db, fs);
    EntriesPositions(s, Displaced(db, fs));
    LogPositionsConcat(db.log, s);
  }

  lemma SwappedKeys(before: set<Pos>, gone: set<Pos>, added: set<Pos>, log: multiset<Pos>)
    requires gone <= before && added !! before
    ensures multiset((before - gone) + added) + (log + multiset(gone)) == (multiset(before) + log) + multiset(added)
  {
    forall p ensures
      multiset((before - gone) + added)[p] + multiset(gone)[p] == multiset(before)[p] + multiset(added)[p] {}
  }

  /** An accepted batch adds exactly the positions of its files: displaced rows stay on record. */
  lemma WriteAddsPositions(db: Db, events: seq<Item>, now: nat, db': Db)
    requires Inv(db) && Accepts(db, events) && Written(db, events, now, db')
    ensures AllPositions(db') == AllPositions(db) + multiset(NewPositions(Files(events)))
  {
    var fs := Files(events);
    WrittenLogPositions(db, fs, now, db');
    assert forall f | f in fs :: SlotFree(db, f);
    SwappedKeys(db.live.Keys, Displaced(db, fs), NewPositions(fs), LogPositions(db.log));
  }

  /** What a step leaves on record: accepted batches add the positions of their files, purges and
      reclaims remove recycled ones of their tape, and every other step conserves them. */
  ghost function PositionsAfter(db: Db, step: Step): multiset<Pos> {
    match step
    case Write(events, _) =>
      if Accepts(db, events) then AllPositions(db) + multiset(NewPositions(Files(events))) else AllPositions(db)
    case Purge(vid) => multiset(db.live.Keys) + LogPositions(Purged(db, vid).log)
    case Reclaim(vid) =>
      if Reclaimable(db, vid) then multiset(db.live.Keys) + LogPositions(Purged(db, vid).log) else AllPositions(db)
    case _ => AllPositions(db)
  }

  lemma TapeStepPositions(db: Db, step: Step, db': Db)
    requires step.Purge? || step.Reclaim? || step.CreateTape? || step.SetFull?
    requires Next(db, step, db')
    ensures AllPositions(db') == PositionsAfter(db, step)
  {
  }

  lemma StepPositions(db: Db, step: Step, db': Db)
    requires Inv(db) && Current(db, step) && Next(db, step, db')
    ensures AllPositions(db') == PositionsAfter(db, step)
  {
    match step
    case Write(events, now) => if Accepts(db, events) { WriteAddsPositions(db, events, now, db'); }
    case MoveFile(req, now) => MoveFileKeepsAll(db, req, now, db');
    case MoveCopy(vid, a, reason, now) => MoveCopyKeepsAll(db, vid, a, reason, now, db');
    case Restore(c, newFid, now) => RestoreKeepsAll(db, c, newFid, now, db');
    case _ => TapeStepPositions(db, step, db');
  }

  // ----- a batch is applied at most once -----

  /** LAST_FSEQ never falls except by reclaiming the tape. */
  lemma StepRaisesFSeq(db: Db, step: Step, db': Db, vid: Vid)
    requires vid in db.tapes && Next(db, step, db')
    requires !(step == Reclaim(vid) && Reclaimable(db, vid))
    ensures vid in db'.tapes && db.tapes[vid].lastFSeq <= db'.tapes[vid].lastFSeq
  {
    match step
    case Write(events, now) => if Accepts(db, events) { FilePositions(db, events); }
    case MoveFile(req, now) =>
      if req.archiveFile.Some? {
        LogCopiesIs(db, req.archiveFile.value.id, req.archiveFile.value.copies, DeletionReason(req), now);
      }
    case MoveCopy(_, a, reason, now) => LogCopiesIs(db, a.id, a.copies, AdminReason(reason), now);
    case _ =>
  }

  predicate Reclaims(run: Run, k: nat, vid: Vid)
    requires run.Valid() && k < |run.steps|
  {
    run.steps[k] == Reclaim(vid) && Reclaimable(run.states[k], vid)
  }

  lemma {:induction false} FSeqBetween(run: Run, i: nat, j: nat, vid: Vid)
    requires run.Valid() && i <= j < |run.states| && vid in run.states[i].tapes
    requires forall k | i <= k < j :: !Reclaims(run, k, vid)
    ensures vid in run.states[j].tapes && run.states[i].tapes[vid].lastFSeq <= run.states[j].tapes[vid].lastFSeq
  {
    if i < j {
      FSeqBetween(run, i, j - 1, vid);
      assert !Reclaims(run, j - 1, vid);
      StepRaisesFSeq(run.states[j - 1], run.steps[j - 1], run.states[j], vid);
    }
  }

  /** Reclaiming a tape that is full and has no live file resets its row and takes its rows out of the
      recycle log; any other reclaim changes nothing. */
  lemma ReclaimIs(db: Db, vid: Vid, db': Db)
    requires Next(db, Reclaim(vid), db')
    ensures if vid in db.tapes && db.tapes[vid].full && forall p | p in db.live :: p.vid != vid then
      && db' == db.(tapes := db.tapes[vid := Tape(0, 0, 0, false, false)], log := db'.log)
      && forall e :: multiset(db'.log)[e] == if e.pos.vid == vid then 0 else multiset(db.log)[e]
    else db' == db
  {
    PurgedIs(db, vid);
  }

  /** In every run a tape's LAST_FSEQ falls only by a reclaim, while the tape is full and has no live file. */
  lemma {:induction false} ResetOnlyWhenFull(run: Run, i: nat, j: nat, vid: Vid) returns (k: nat)
    requires run.Valid() && i <= j < |run.states| && vid in run.states[i].tapes && vid in run.states[j].tapes
    requires run.states[j].tapes[vid].lastFSeq < run.states[i].tapes[vid].lastFSeq
    ensures i <= k < j && run.steps[k] == Reclaim(vid)
    ensures vid in run.states[k].tapes && run.states[k].tapes[vid].full
    ensures forall p | p in run.states[k].live :: p.vid != vid
    decreases j - i
  {
    if Reclaims(run, i, vid) {
      k := i;
    } else {
      StepRaisesFSeq(run.states[i], run.steps[i], run.states[i + 1], vid);
      k := ResetOnlyWhenFull(run, i + 1, j, vid);
    }
  }

  /** A batch that was committed once fails the sequence check for ever after, whatever other steps
      come between, unless its tape is reclaimed: so however often a caller that lost its connection
      sends it again, it is applied at most once. */
  lemma AppliedAtMostOnce(run: Run, i: nat, j: nat)
    requires run.Valid() && i < j < |run.states|
    requires run.steps[i].Write? && Accepts(run.states[i], run.steps[i].events)
    requires forall k | i < k < j :: !Reclaims(run, k, run.steps[i].events[0].vid)
    ensures var events := run.steps[i].events; var vid := events[0].vid;
      && WellFormed(events) && vid in run.states[j].tapes
      && !Consecutive(events, run.states[j].tapes[vid].lastFSeq)
      && !Accepts(run.states[j], events)
  {
    var events := run.steps[i].events;
    var vid := events[0].vid;
    FilePositions(run.states[i], events);
    FSeqBetween(run, i + 1, j, vid);
    assert events[0].fSeq == run.states[i].tapes[vid].lastFSeq + 1 + 0;
    assert events[0].fSeq != run.states[j].tapes[vid].lastFSeq + 1 + 0;
  }

  lemma NoFilesNoLog(db: Db, now: nat, db': Db)
    ensures LogWritten(db, [], now, db') <==> db'.log == db.log
  {
    assert RepackEntries(db, [], db'.archive, now) == {};
    if db'.log == db.log { assert db'.log[|db.log|..] == []; }
    if LogWritten(db, [], now, db') {
      var s := db'.log[|db.log|..];
      assert Enumerates(s, {});
      if s != [] { EnumeratesMember(s, {}, s[0]); }
      assert db'.log == db.log + s;
    }
  }

  lemma NoFilesNoRows(db: Db, now: nat, archive: map<nat, ArchiveRow>, live: map<Pos, TapeFile>)
    ensures ArchiveWritten(db, [], now, archive) <==> archive == db.archive
    ensures LiveWritten(db, [], now, live) <==> live == db.live
  {
    assert NewIds([]) == {} && NewPositions([]) == {} && Displaced(db, []) == {};
    if ArchiveWritten(db, [], now, archive) { assert archive == db.archive; }
    if LiveWritten(db, [], now, live) { assert live == db.live; }
  }

  /** A batch of placeholders changes LAST_FSEQ and nothing else. */
  lemma PlaceholdersOnly(db: Db, events: seq<Item>, now: nat, db': Db)
    requires events != [] && events[0].vid in db.tapes && Files(events) == []
    ensures Written(db, events, now, db') <==>
      db' == db.(tapes := db.tapes[events[0].vid :=
        db.tapes[events[0].vid].(lastFSeq := events[|events| - 1].fSeq)])
  {
    NoFilesNoLog(db, now, db');
    NoFilesNoRows(db, now, db'.archive, db'.live);
    var t := db.tapes[events[0].vid];
    assert UpdatedTape(t, events) == t.(lastFSeq := events[|events| - 1].fSeq);
  }
}

/** Moving copies to the recycle log and restoring them gives back what was there. */
module RoundTrips {
  import opened Tables
  import opened Batch
  import opened Recycle
  import opened Invariant
  import opened RecycleInvariant

  datatype Call = Call(criteria: Criteria, newFid: string, now: nat)

  /** Restores one after the other; None as soon as one is refused. */
  function RestoreRun(d: Db, calls: seq<Call>): Option<Db> {
    if calls == [] then Some(d)
    else
      var n := |calls| - 1;
      match RestoreRun(d, calls[..n])
      case None => None
      case Some(d1) => RestoreNext(d1, calls[n])
  }

  function RestoreNext(d: Db, call: Call): Option<Db> {
    if Restorable(d, call.criteria, call.newFid)
    then Some(Restored(d, Matching(d, call.criteria)[0], call.newFid, call.now))
    else None
  }

  // ----- facts about filters -----

  lemma {:induction false} FilterConcat<T(!new)>(s: seq<T>, t: seq<T>, keep: T -> bool)
    ensures Filter(s + t, keep) == Filter(s, keep) + Filter(t, keep)
  {
    if t == [] {
      assert s + t == s;
    } else {
      var n := |t| - 1;
      assert (s + t)[..|s + t| - 1] == s + t[..n];
      FilterConcat(s, t[..n], keep);
    }
  }

  lemma {:induction false} FilterAll<T(!new)>(s: seq<T>, keep: T -> bool)
    requires forall x | x in s :: keep(x)
    ensures Filter(s, keep) == s
  {
    if s != [] {
      var n := |s| - 1;
      FilterAll(s[..n], keep);
      assert s == s[..n] + [s[n]];
    }
  }

  /** Removing entries that a search would not list leaves its result as it was. */
  lemma {:induction false} FilterCommutes<T(!new)>(s: seq<T>, keep: T -> bool, listed: T -> bool)
    requires forall x | x in s && listed(x) :: keep(x)
    ensures Filter(Filter(s, keep), listed) == Filter(s, listed)
  {
    if s != [] {
      var n := |s| - 1;
      FilterCommutes(s[..n], keep, listed);
      var r := Filter(s[..n], keep);
      assert (r + [s[n]])[..|r|] == r;
    }
  }

  // ----- a whole file -----

  /** The recycle-log entry of the file's copy at `p`. */
  function EntryOf(db: Db, id: nat, reason: string, t: nat, p: Pos): LogEntry
    requires p in db.live && id in db.archive
  {
    EntryFor(p, db.live[p], db.archive[id], reason, t)
  }

  /** No other archive file of the instance has this disk file id. */
  predicate FidFree(db: Db, id: nat, newFid: string)
    requires id in db.archive
  {
    forall a | a in db.archive && a != id :: !SameDiskKey(db.archive[a], db.archive[id].(diskFileId := newFid))
  }

  /** `after` is `db` with archive file `id` moved to the recycle log at time `t`; `order` lists its
      copies; call `k` selects the entry of copy `order[k]` and no other; and the disk file id that the
      first call gives is not in use. */
  predicate FileTrip(db: Db, id: nat, reason: string, t: nat, after: Db, order: seq<Pos>, calls: seq<Call>) {
    && Inv(db) && Sizes(db) && id in db.archive
    && Enumerates(order, CopiesOf(db, id)) && |calls| == |order|
    && (forall p | p in order :: p in db.live && db.live[p].archiveFileId == id)
    && after.storageClasses == db.storageClasses && after.diskInstances == db.diskInstances
    && SameFSeqs(db, after)
    && after.live == db.live - CopiesOf(db, id)
    && after.archive == db.archive - {id}
    && db.log <= after.log
    && (forall x | x in after.log[|db.log|..] :: x.pos in order && x == EntryOf(db, id, reason, t, x.pos))
    && (forall k | 0 <= k < |calls| ::
          Matching(after, calls[k].criteria) == [EntryOf(db, id, reason, t, order[k])])
    && FidFree(db, id, calls[0].newFid)
  }

  function BackRow(db: Db, id: nat, calls: seq<Call>): ArchiveRow
    requires id in db.archive && calls != []
  {
    db.archive[id].(diskFileId := calls[0].newFid, creationTime := calls[0].now)
  }

  function FirstPositions(order: seq<Pos>, i: nat): set<Pos>
    requires i <= |order|
  {
    set k | 0 <= k < i :: order[k]
  }

  /** The live table when the first `i` copies are back. */
  predicate LiveBack(db: Db, id: nat, order: seq<Pos>, calls: seq<Call>, i: nat, live: map<Pos, TapeFile>)
    requires i <= |order| == |calls| && forall p | p in order :: p in db.live
  {
    && live.Keys == (db.live.Keys - CopiesOf(db, id)) + FirstPositions(order, i)
    && (forall p | p in db.live && p !in CopiesOf(db, id) && p in live :: live[p] == db.live[p])
    && (forall k | 0 <= k < i && order[k] in live :: live[order[k]] == db.live[order[k]].(creationTime := calls[k].now))
  }

  /** The recycle log when the first `i` copies are back. */
  predicate LogBack(db: Db, id: nat, reason: string, t: nat, order: seq<Pos>, calls: seq<Call>, i: nat,
      log: seq<LogEntry>)
    requires i <= |order| == |calls| && id in db.archive && forall p | p in order :: p in db.live
  {
    && db.log <= log
    && (forall x | x in log[|db.log|..] ::
      x.pos in order[i..] && x.pos in db.live && x == EntryOf(db, id, reason, t, x.pos))
    && (forall k | i <= k < |order| ::
          Filter(log, Listed(calls[k].criteria, db.storageClasses)) == [EntryOf(db, id, reason, t, order[k])])
  }

  predicate Progress(db: Db, id: nat, reason: string, t: nat, after: Db, order: seq<Pos>, calls: seq<Call>, i: nat,
      d: Db)
    requires i <= |order| == |calls| && id in db.archive && forall p | p in order :: p in db.live
  {
    && d == after.(archive := d.archive, live := d.live, log := d.log)
    && LiveBack(db, id, order, calls, i, d.live)
    && d.archive == (if i == 0 then db.archive - {id} else db.archive[id := BackRow(db, id, calls)])
    && LogBack(db, id, reason, t, order, calls, i, d.log)
  }

  lemma StartsWith(db: Db, id: nat, reason: string, t: nat, after: Db, order: seq<Pos>, calls: seq<Call>)
    requires FileTrip(db, id, reason, t, after, order, calls)
    ensures Progress(db, id, reason, t, after, order, calls, 0, after) && RestoreRun(after, calls[..0]) == Some(after)
  {
    assert FirstPositions(order, 0) == {};
    assert order[0..] == order;
    forall k | 0 <= k < |order| ensures
      Filter(after.log, Listed(calls[k].criteria, db.storageClasses)) == [EntryOf(db, id, reason, t, order[k])]
    {
      assert Matching(after, calls[k].criteria) == [EntryOf(db, id, reason, t, order[k])];
    }
  }

  /** The next entry can be restored. */
  lemma NextIsRestorable(db: Db, id: nat, reason: string, t: nat, after: Db, order: seq<Pos>, calls: seq<Call>,
      i: nat, d: Db)
    requires FileTrip(db, id, reason, t, after, order, calls) && i < |order|
    requires Progress(db, id, reason, t, after, order, calls, i, d)
    ensures var e := EntryOf(db, id, reason, t, order[i]);
      && Matching(d, calls[i].criteria) == [e]
      && CopyRestorable(d, e) && ArchiveRestorable(d, e, calls[i].newFid)
      && Restorable(d, calls[i].criteria, calls[i].newFid)
  {
    var e := EntryOf(db, id, reason, t, order[i]);
    assert Matching(d, calls[i].criteria) == Filter(d.log, Listed(calls[i].criteria, db.storageClasses)) == [e];
    assert e in Matching(d, calls[i].criteria);
    assert order[i] in order && Bounded(db, order[i]);
    assert order[i] !in FirstPositions(order, i);
    RowsElsewhere(db, id, order, calls, i, d.live);
    if i > 0 {
      assert order[0] in FirstPositions(order, i) && order[0] in order && order[0] in CopiesOf(d, id);
      assert Visible(d, id);
    } else {
      assert DiskKeyFree(d.archive, e.archive.(diskFileId := calls[0].newFid));
    }
  }

  /** The rows that are live half way share neither a block nor a copy number with the next one. */
  lemma RowsElsewhere(db: Db, id: nat, order: seq<Pos>, calls: seq<Call>, i: nat, live: map<Pos, TapeFile>)
    requires BlocksUnique(db.live) && OneCopyPerNumber(db.live)
    requires i < |order| == |calls| && forall p | p in order :: p in db.live && db.live[p].archiveFileId == id
    requires LiveBack(db, id, order, calls, i, live) && order[i] !in FirstPositions(order, i)
    ensures order[i] !in live
    ensures BlockFree(live, order[i].vid, db.live[order[i]].blockId)
    ensures forall p | p in live && live[p].archiveFileId == id :: live[p].copyNb != db.live[order[i]].copyNb
  {
    assert order[i] in order && order[i] in CopiesOf(db, id);
    forall p | p in live ensures p in db.live && p != order[i]
      && live[p] == db.live[p].(creationTime := live[p].creationTime)
    {
      if p in FirstPositions(order, i) {
        var k :| 0 <= k < i && order[k] == p;
        assert order[k] in order;
      }
    }
    forall p | p in live && live[p].archiveFileId == id ensures live[p].copyNb != db.live[order[i]].copyNb {
      assert !SameCopy(db.live[p], db.live[order[i]]);
    }
  }

  lemma NextLive(db: Db, id: nat, order: seq<Pos>, calls: seq<Call>, i: nat, live: map<Pos, TapeFile>, row: TapeFile)
    requires i < |order| == |calls| && NoDup(order) && forall p | p in order :: p in db.live
    requires LiveBack(db, id, order, calls, i, live)
    requires row == db.live[order[i]].(creationTime := calls[i].now) && order[i] in CopiesOf(db, id)
    ensures LiveBack(db, id, order, calls, i + 1, live[order[i] := row])
  {
    assert FirstPositions(order, i + 1) == FirstPositions(order, i) + {order[i]};
  }

  /** The entry of the next copy leaves the recycle log; all others stay. */
  lemma NextLogEntries(db: Db, id: nat, reason: string, t: nat, order: seq<Pos>, calls: seq<Call>, i: nat,
      log: seq<LogEntry>)
    requires i < |order| == |calls| && id in db.archive && NoDup(order) && forall p | p in order :: p in db.live
    requires PositionsUnique(db) && LogBack(db, id, reason, t, order, calls, i, log)
    ensures var log' := Filter(log, NotKey(EntryOf(db, id, reason, t, order[i])));
      && db.log <= log'
      && forall x | x in log'[|db.log|..] ::
           x.pos in order[i + 1..] && x.pos in db.live && x == EntryOf(db, id, reason, t, x.pos)
  {
    var e := EntryOf(db, id, reason, t, order[i]);
    var rest := log[|db.log|..];
    assert order[i] in order;
    SplitFilter(db.log, log, NotKey(e));
    forall x | x in Filter(rest, NotKey(e))
      ensures x.pos in order[i + 1..] && x.pos in db.live && x == EntryOf(db, id, reason, t, x.pos)
    {
      assert x in rest && x != e;
      InLaterSlice(order, i, x.pos);
    }
  }

  lemma InLaterSlice<T>(s: seq<T>, i: nat, x: T)
    requires i < |s| && x in s[i..] && x != s[i]
    ensures x in s[i + 1..]
  {
    assert s[i..] == [s[i]] + s[i + 1..];
  }

  lemma SplitFilter<T(!new)>(front: seq<T>, s: seq<T>, keep: T -> bool)
    requires front <= s && forall x | x in front :: keep(x)
    ensures front <= Filter(s, keep) && Filter(s, keep)[|front|..] == Filter(s[|front|..], keep)
  {
    assert s == front + s[|front|..];
    FilterConcat(front, s[|front|..], keep);
    FilterAll(front, keep);
  }

  /** The searches for the other copies find what they found before. */
  lemma NextLogListed(db: Db, id: nat, reason: string, t: nat, order: seq<Pos>, calls: seq<Call>, i: nat, k: nat,
      log: seq<LogEntry>)
    requires i < k < |order| == |calls| && id in db.archive && NoDup(order) && forall p | p in order :: p in db.live
    requires Filter(log, Listed(calls[k].criteria, db.storageClasses)) == [EntryOf(db, id, reason, t, order[k])]
    ensures
      Filter(Filter(log, NotKey(EntryOf(db, id, reason, t, order[i]))), Listed(calls[k].criteria, db.storageClasses))
      == [EntryOf(db, id, reason, t, order[k])]
  {
    var e := EntryOf(db, id, reason, t, order[i]);
    var listed := Listed(calls[k].criteria, db.storageClasses);
    forall x | x in log && listed(x) ensures NotKey(e)(x) {
      assert x in Filter(log, listed);
      assert order[k] != order[i];
    }
    FilterCommutes(log, NotKey(e), listed);
  }

  lemma NextLog(db: Db, id: nat, reason: string, t: nat, order: seq<Pos>, calls: seq<Call>, i: nat, log: seq<LogEntry>)
    requires i < |order| == |calls| && id in db.archive && NoDup(order) && forall p | p in order :: p in db.live
    requires PositionsUnique(db) && LogBack(db, id, reason, t, order, calls, i, log)
    ensures LogBack(db, id, reason, t, order, calls, i + 1, Filter(log, NotKey(EntryOf(db, id, reason, t, order[i]))))
  {
    NextLogEntries(db, id, reason, t, order, calls, i, log);
    forall k | i + 1 <= k < |order| ensures
      Filter(Filter(log, NotKey(EntryOf(db, id, reason, t, order[i]))), Listed(calls[k].criteria, db.storageClasses))
        == [EntryOf(db, id, reason, t, order[k])]
    {
      NextLogListed(db, id, reason, t, order, calls, i, k, log);
    }
  }

  lemma RestoredParts(d: Db, e: LogEntry, newFid: string, now: nat)
    ensures Restored(d, e, newFid, now) == d.(
      archive := WithArchive(d, e, newFid, now).archive,
      live := d.live[e.pos := RestoredTapeFile(e, now)],
      log := Filter(d.log, NotKey(e)))
  {
  }

  /** Only the first restore inserts the archive row. */
  lemma NextArchive(db: Db, id: nat, order: seq<Pos>, calls: seq<Call>, i: nat, d: Db, e: LogEntry)
    requires i < |order| == |calls| && id in db.archive && ReferencesExist(db)
    requires forall p | p in order :: p in db.live && db.live[p].archiveFileId == id
    requires LiveBack(db, id, order, calls, i, d.live) && d.storageClasses == db.storageClasses
    requires d.archive == (if i == 0 then db.archive - {id} else db.archive[id := BackRow(db, id, calls)])
    requires e.archiveFileId == id && e.archive == db.archive[id]
    ensures WithArchive(d, e, calls[i].newFid, calls[i].now).archive == db.archive[id := BackRow(db, id, calls)]
  {
    if i > 0 {
      assert order[0] in order && order[0] in FirstPositions(order, i);
      assert order[0] in CopiesOf(d, id);
    }
  }

  lemma NextStep(db: Db, id: nat, reason: string, t: nat, after: Db, order: seq<Pos>, calls: seq<Call>, i: nat, d: Db)
    returns (d': Db)
    requires FileTrip(db, id, reason, t, after, order, calls) && i < |order|
    requires Progress(db, id, reason, t, after, order, calls, i, d)
    ensures RestoreNext(d, calls[i]) == Some(d')
    ensures Progress(db, id, reason, t, after, order, calls, i + 1, d')
  {
    NextIsRestorable(db, id, reason, t, after, order, calls, i, d);
    d' := Restored(d, EntryOf(db, id, reason, t, order[i]), calls[i].newFid, calls[i].now);
    assert order[i] in order;
    NextProgress(db, id, reason, t, after, order, calls, i, d);
  }

  lemma NextProgress(db: Db, id: nat, reason: string, t: nat, after: Db, order: seq<Pos>, calls: seq<Call>, i: nat,
      d: Db)
    requires i < |order| == |calls| && id in db.archive && NoDup(order) && PositionsUnique(db) && ReferencesExist(db)
    requires LiveSizesAgree(db) && after.storageClasses == db.storageClasses
    requires forall p | p in order :: p in db.live && db.live[p].archiveFileId == id
    requires Progress(db, id, reason, t, after, order, calls, i, d)
    ensures Progress(db, id, reason, t, after, order, calls, i + 1,
      Restored(d, EntryOf(db, id, reason, t, order[i]), calls[i].newFid, calls[i].now))
  {
    var e := EntryOf(db, id, reason, t, order[i]);
    RestoredParts(d, e, calls[i].newFid, calls[i].now);
    assert order[i] in order && order[i] in CopiesOf(db, id);
    NextArchive(db, id, order, calls, i, d, e);
    NextLive(db, id, order, calls, i, d.live, RestoredTapeFile(e, calls[i].now));
    NextLog(db, id, reason, t, order, calls, i, d.log);
  }

  lemma RunUnfolds(after: Db, calls: seq<Call>, i: nat, d: Db)
    requires i < |calls| && RestoreRun(after, calls[..i]) == Some(d)
    ensures RestoreRun(after, calls[..i + 1]) == RestoreNext(d, calls[i])
  {
    assert calls[..i + 1][..i] == calls[..i];
  }

  lemma RunStep(db: Db, id: nat, reason: string, t: nat, after: Db, order: seq<Pos>, calls: seq<Call>, i: nat, d: Db)
    returns (d': Db)
    requires FileTrip(db, id, reason, t, after, order, calls) && i < |calls|
    requires RestoreRun(after, calls[..i]) == Some(d) && Progress(db, id, reason, t, after, order, calls, i, d)
    ensures RestoreRun(after, calls[..i + 1]) == Some(d')
    ensures Progress(db, id, reason, t, after, order, calls, i + 1, d')
  {
    d' := NextStep(db, id, reason, t, after, order, calls, i, d);
    RunUnfolds(after, calls, i, d);
  }

  /** After `i` calls the run is at `d`, with the first `i` copies back. */
  predicate At(db: Db, id: nat, reason: string, t: nat, after: Db, order: seq<Pos>, calls: seq<Call>, i: nat, d: Db) {
    && i <= |order| == |calls| && id in db.archive && (forall p | p in order :: p in db.live)
    && RestoreRun(after, calls[..i]) == Some(d) && Progress(db, id, reason, t, after, order, calls, i, d)
  }

  ghost predicate OnTheWay(db: Db, id: nat, reason: string, t: nat, after: Db, order: seq<Pos>, calls: seq<Call>,
      i: nat) {
    exists d :: At(db, id, reason, t, after, order, calls, i, d)
  }

  lemma OnTheWayFirst(db: Db, id: nat, reason: string, t: nat, after: Db, order: seq<Pos>, calls: seq<Call>)
    requires FileTrip(db, id, reason, t, after, order, calls)
    ensures OnTheWay(db, id, reason, t, after, order, calls, 0)
  {
    StartsWith(db, id, reason, t, after, order, calls);
    assert At(db, id, reason, t, after, order, calls, 0, after);
  }

  lemma OnTheWayNext(db: Db, id: nat, reason: string, t: nat, after: Db, order: seq<Pos>, calls: seq<Call>, i: nat)
    requires FileTrip(db, id, reason, t, after, order, calls) && i < |calls|
    requires OnTheWay(db, id, reason, t, after, order, calls, i)
    ensures OnTheWay(db, id, reason, t, after, order, calls, i + 1)
  {
    var d :| At(db, id, reason, t, after, order, calls, i, d);
    var d' := RunStep(db, id, reason, t, after, order, calls, i, d);
    assert At(db, id, reason, t, after, order, calls, i + 1, d');
  }

  lemma {:induction false} StepByStep(at: nat -> bool, n: nat)
    requires at(0) && forall i: nat | i < n && at(i) :: at(i + 1)
    ensures at(n)
  {
    if n > 0 { StepByStep(at, n - 1); }
  }

  /** The numbers of calls that a run can make. */
  ghost function Stages(db: Db, id: nat, reason: string, t: nat, after: Db, order: seq<Pos>,
      calls: seq<Call>): iset<nat> {
    iset i: nat | OnTheWay(db, id, reason, t, after, order, calls, i)
  }

  lemma RunArrives(db: Db, id: nat, reason: string, t: nat, after: Db, order: seq<Pos>, calls: seq<Call>)
    requires FileTrip(db, id, reason, t, after, order, calls)
    ensures |calls| in Stages(db, id, reason, t, after, order, calls)
  {
    var stages := Stages(db, id, reason, t, after, order, calls);
    OnTheWayFirst(db, id, reason, t, after, order, calls);
    forall i: nat | i < |calls| && i in stages ensures i + 1 in stages {
      OnTheWayNext(db, id, reason, t, after, order, calls, i);
    }
    StepByStep((i: nat) => i in stages, |calls|);
  }

  lemma LastStage(db: Db, id: nat, reason: string, t: nat, after: Db, order: seq<Pos>, calls: seq<Call>) returns (d: Db)
    requires |calls| in Stages(db, id, reason, t, after, order, calls)
    ensures |order| == |calls| && id in db.archive && (forall p | p in order :: p in db.live)
    ensures RestoreRun(after, calls) == Some(d) && Progress(db, id, reason, t, after, order, calls, |calls|, d)
  {
    assert OnTheWay(db, id, reason, t, after, order, calls, |calls|);
    d :| At(db, id, reason, t, after, order, calls, |calls|, d);
    assert calls[..|calls|] == calls;
  }

  /** Restoring, in any order, all entries of an archive file that was moved to the recycle log gives
      back its live copies and the recycle log, and its archive row except for the disk file id and the
      creation time, which the first restore sets. The copies come back with new creation times. */
  lemma MoveThenRestoreAll(db: Db, id: nat, reason: string, t: nat, after: Db, order: seq<Pos>, calls: seq<Call>)
    requires FileTrip(db, id, reason, t, after, order, calls)
    ensures RestoreRun(after, calls).Some?
    ensures var d := RestoreRun(after, calls).value;
      && d.live.Keys == db.live.Keys
      && (forall p | p in db.live && p !in CopiesOf(db, id) :: d.live[p] == db.live[p])
      && (forall k | 0 <= k < |order| :: d.live[order[k]] == db.live[order[k]].(creationTime := calls[k].now))
      && d.archive == db.archive[id := BackRow(db, id, calls)]
      && d.log == db.log && d.tapes == after.tapes
  {
    RunArrives(db, id, reason, t, after, order, calls);
    var d := LastStage(db, id, reason, t, after, order, calls);
    AllBack(db, id, order, calls, d.live);
    NothingLeft(db, id, reason, t, order, calls, d.log);
  }

  lemma AllBack(db: Db, id: nat, order: seq<Pos>, calls: seq<Call>, live: map<Pos, TapeFile>)
    requires |order| == |calls| && Enumerates(order, CopiesOf(db, id)) && forall p | p in order :: p in db.live
    requires LiveBack(db, id, order, calls, |order|, live)
    ensures live.Keys == db.live.Keys
    ensures forall k | 0 <= k < |order| :: live[order[k]] == db.live[order[k]].(creationTime := calls[k].now)
  {
    forall p ensures p in FirstPositions(order, |order|) <==> p in CopiesOf(db, id) {
      EnumeratesMember(order, CopiesOf(db, id), p);
      assert p in order <==> p in FirstPositions(order, |order|);
    }
    forall k | 0 <= k < |order| ensures order[k] in live { assert order[k] in order; }
  }

  lemma FirstIsMember<T>(s: seq<T>)
    ensures s == [] || s[0] in s
  {
  }

  lemma NothingLeft(db: Db, id: nat, reason: string, t: nat, order: seq<Pos>, calls: seq<Call>, log: seq<LogEntry>)
    requires |order| == |calls| && id in db.archive && forall p | p in order :: p in db.live
    requires LogBack(db, id, reason, t, order, calls, |order|, log)
    ensures log == db.log
  {
    var rest := log[|db.log|..];
    assert log == db.log + rest;
    FirstIsMember(rest);
  }

  /** Every call selects, after the move, the entry of its copy and no other. */
  predicate Selects(after: Db, db: Db, id: nat, reason: string, t: nat, order: seq<Pos>, calls: seq<Call>)
    requires |order| == |calls| && id in db.archive && forall p | p in order :: p in db.live
  {
    forall k | 0 <= k < |calls| :: Matching(after, calls[k].criteria) == [EntryOf(db, id, reason, t, order[k])]
  }

  lemma MovedEntry(db: Db, a: ArchiveFile, reason: string, now: nat, order: seq<Pos>, i: nat)
    requires IsCurrent(db, a) && Enumerates(order, CopiesOf(db, a.id)) && forall p | p in order :: p in db.live
    requires i < |a.copies|
    ensures var log := LogCopies(db, a.id, a.copies, reason, now).log;
      |log| == |db.log| + |a.copies| && a.copies[i].pos in order
      && log[|db.log| + i] == EntryOf(db, a.id, reason, now, a.copies[i].pos)
  {
    LogCopiesIs(db, a.id, a.copies, reason, now);
    assert a.copies[i] in a.copies;
    EnumeratesMember(order, CopiesOf(db, a.id), a.copies[i].pos);
  }

  lemma MovedTrip(db: Db, a: ArchiveFile, reason: string, now: nat, after: Db, order: seq<Pos>, calls: seq<Call>)
    requires Inv(db) && Sizes(db) && IsCurrent(db, a) && Moved(db, a, reason, now, after)
    requires Positions(a.copies) == CopiesOf(db, a.id)
    requires Enumerates(order, CopiesOf(db, a.id)) && |calls| == |order| && forall p | p in order :: p in db.live
    requires Selects(after, db, a.id, reason, now, order, calls)
    requires calls != [] && FidFree(db, a.id, calls[0].newFid)
    ensures FileTrip(db, a.id, reason, now, after, order, calls)
  {
    AllMovedEntries(db, a, reason, now, order);
  }

  lemma AllMovedEntries(db: Db, a: ArchiveFile, reason: string, now: nat, order: seq<Pos>)
    requires IsCurrent(db, a) && Enumerates(order, CopiesOf(db, a.id)) && forall p | p in order :: p in db.live
    ensures forall p | p in order :: db.live[p].archiveFileId == a.id
    ensures var log := LogCopies(db, a.id, a.copies, reason, now).log;
      && db.log <= log
      && forall x | x in log[|db.log|..] :: x.pos in order && x == EntryOf(db, a.id, reason, now, x.pos)
  {
    forall p | p in order ensures db.live[p].archiveFileId == a.id {
      EnumeratesMember(order, CopiesOf(db, a.id), p);
    }
    LogCopiesIs(db, a.id, a.copies, reason, now);
    var rest := LogCopies(db, a.id, a.copies, reason, now).log[|db.log|..];
    forall x | x in rest ensures x.pos in order && x == EntryOf(db, a.id, reason, now, x.pos) {
      var i :| 0 <= i < |rest| && rest[i] == x;
      MovedEntry(db, a, reason, now, order, i);
    }
  }

  /** moveArchiveFileToRecycleLog sets such a round trip up. */
  lemma MovedFileTrip(db: Db, req: DeleteRequest, a: ArchiveFile, now: nat, order: seq<Pos>, calls: seq<Call>)
    requires Inv(db) && Sizes(db) && IsCurrent(db, a) && a.id == req.archiveFileId
    requires Enumerates(order, CopiesOf(db, a.id)) && |calls| == |order| && forall p | p in order :: p in db.live
    requires Selects(MovedFile(db, req, a, now), db, a.id, DeletionReason(req), now, order, calls)
    requires calls != [] && FidFree(db, a.id, calls[0].newFid)
    ensures FileTrip(db, a.id, DeletionReason(req), now, MovedFile(db, req, a, now), order, calls)
  {
    CurrentSnapshotConserves(db, req, a, now);
    MovedFileIsMoved(db, req, a, now);
    MovedTrip(db, a, DeletionReason(req), now, MovedFile(db, req, a, now), order, calls);
  }

  // ----- one copy -----

  /** Deleting one copy and restoring its entry succeeds and is the identity on the recycle log and on
      the archive rows; on the live table it is the identity, up to the copy's creation time, if and
      only if the copy has the size of its archive file (which the restore takes it from). */
  lemma DeleteCopyThenRestore(db: Db, vid: Vid, a: ArchiveFile, reason: string, now: nat, call: Call)
    requires Inv(db) && ForDeletion(db, vid, a)
    requires Selects(MovedCopies(db, a, reason, now), db, a.id, AdminReason(reason), now, [a.copies[0].pos], [call])
    ensures var r := RestoreNext(MovedCopies(db, a, reason, now), call);
      var p := a.copies[0].pos;
      && r.Some? && r.value.log == db.log && r.value.archive == db.archive
      && (r.value.live == db.live[p := db.live[p].(creationTime := call.now)] <==>
            db.live[p].size == db.archive[a.id].size)
  {
    var d := MovedCopies(db, a, reason, now);
    var p := a.copies[0].pos;
    var e := EntryOf(db, a.id, AdminReason(reason), now, p);
    CopyMovedAway(db, vid, a, reason, now);
    assert [call][0] == call && [p][0] == p;
    assert Matching(d, call.criteria) == [e];
    assert Bounded(db, p);
    OneCopyBack(db, a.id, d, e, call);
  }

  lemma OneCopyBack(db: Db, id: nat, d: Db, e: LogEntry, call: Call)
    requires BlocksUnique(db.live) && OneCopyPerNumber(db.live) && ReferencesExist(db) && PositionsUnique(db)
    requires id in db.archive && e.pos in CopiesOf(db, id) && CopiesOf(db, id) != {e.pos} && e.pos.vid in db.tapes
    requires d.live == db.live - {e.pos} && d.archive == db.archive && d.tapes.Keys == db.tapes.Keys
    requires d.storageClasses == db.storageClasses && d.log == db.log + [e]
    requires e == EntryFor(e.pos, db.live[e.pos], db.archive[id], e.reason, e.time)
    requires Matching(d, call.criteria) == [e]
    ensures var r := RestoreNext(d, call);
      && r.Some? && r.value.log == db.log && r.value.archive == db.archive
      && (r.value.live == db.live[e.pos := db.live[e.pos].(creationTime := call.now)] <==>
            db.live[e.pos].size == db.archive[id].size)
  {
    CopyCanComeBack(db, id, d, e, call.newFid);
    LastEntryOut(db, e);
    BackInPlace(db, d, e, call);
    RestoredParts(d, e, call.newFid, call.now);
  }

  lemma BackInPlace(db: Db, d: Db, e: LogEntry, call: Call)
    requires e.pos in db.live && d.live == db.live - {e.pos} && Visible(d, e.archiveFileId)
    requires e == EntryFor(e.pos, db.live[e.pos], e.archive, e.reason, e.time)
    ensures var r := Restored(d, e, call.newFid, call.now);
      r.live == db.live[e.pos := db.live[e.pos].(creationTime := call.now)] <==> db.live[e.pos].size == e.archive.size
  {
    var r := Restored(d, e, call.newFid, call.now);
    assert r.live == db.live[e.pos := RestoredTapeFile(e, call.now)];
    assert r.live[e.pos] == RestoredTapeFile(e, call.now);
  }

  lemma CopyMovedAway(db: Db, vid: Vid, a: ArchiveFile, reason: string, now: nat)
    requires ForDeletion(db, vid, a)
    ensures var d := MovedCopies(db, a, reason, now);
      && d.live == db.live - {a.copies[0].pos} && d.archive == db.archive
      && d.log == db.log + [EntryOf(db, a.id, AdminReason(reason), now, a.copies[0].pos)]
      && d.storageClasses == db.storageClasses && d.diskInstances == db.diskInstances && d.tapes.Keys == db.tapes.Keys
  {
    MovedCopiesIs(db, a, reason, now);
    LogCopiesIs(db, a.id, a.copies, AdminReason(reason), now);
    assert Positions(a.copies) == {a.copies[0].pos};
    var log := LogCopies(db, a.id, a.copies, AdminReason(reason), now).log;
    assert log == log[..|db.log|] + [log[|db.log| + 0]];
  }

  lemma CopyCanComeBack(db: Db, id: nat, d: Db, e: LogEntry, newFid: string)
    requires BlocksUnique(db.live) && OneCopyPerNumber(db.live) && ReferencesExist(db) && id in db.archive
    requires e.pos in CopiesOf(db, id) && CopiesOf(db, id) != {e.pos} && e.pos.vid in db.tapes
    requires d.live == db.live - {e.pos} && d.archive == db.archive && d.tapes.Keys == db.tapes.Keys
    requires d.storageClasses == db.storageClasses
    requires e.archiveFileId == id && e.copyNb == db.live[e.pos].copyNb && e.blockId == db.live[e.pos].blockId
    ensures Visible(d, id) && CopyRestorable(d, e) && ArchiveRestorable(d, e, newFid)
  {
    var p :| p in CopiesOf(db, id) && p != e.pos;
    assert p in CopiesOf(d, id);
    forall p | p in CopiesOf(d, id) ensures d.live[p].copyNb != e.copyNb {
      assert !SameCopy(db.live[p], db.live[e.pos]);
    }
  }

  lemma LastEntryOut(db: Db, e: LogEntry)
    requires PositionsUnique(db) && e.pos in db.live
    ensures Filter(db.log + [e], NotKey(e)) == db.log
  {
    FilterConcat(db.log, [e], NotKey(e));
    FilterAll(db.log, NotKey(e));
    assert [e][..0] == [];
  }

  // ----- a copy that repack replaced -----

  /** The entry of a copy that a batch displaced cannot be restored while the batch's copy is live:
      its number is taken. */
  lemma DisplacedIsNotRestorable(db: Db, events: seq<Item>, now: nat, db': Db, p: Pos, newFid: string)
    requires Inv(db) && Accepts(db, events) && Written(db, events, now, db') && p in Displaced(db, Files(events))
    ensures var id := db.live[p].archiveFileId;
      id in db'.archive && EntryFor(p, db.live[p], db'.archive[id], REPACK_REASON, now) in db'.log
      && !ArchiveRestorable(db', EntryFor(p, db.live[p], db'.archive[id], REPACK_REASON, now), newFid)
  {
    var fs := Files(events);
    WriteKeepsInv(db, events, now, db');
    var id := db.live[p].archiveFileId;
    var f :| f in fs && f.info.archiveFileId == id && f.info.copyNb == db.live[p].copyNb;
    assert id in NewIds(fs) && f.pos in NewPositions(fs);
    var e := EntryFor(p, db.live[p], db'.archive[id], REPACK_REASON, now);
    assert e in RepackEntries(db, fs, db'.archive, now);
    LogAfterWrite(db, events, now, db', e);
    assert f.pos in CopiesOf(db', id);
  }
}

/** filesWrittenToTape seen from the items of the batch: which batches are taken and what each item
    leaves in which column. Stated on items, rows and columns, without the functions of Batch. */
module BatchItems {
  import opened Tables
  import opened Batch

  predicate IsFile(events: seq<Item>, k: int) {
    0 <= k < |events| && events[k].file.Some?
  }

  // ----- which batches are taken -----

  /** Item `k` continues the tape, has every field it needs, agrees with the archive file that is there or
      brings one that may be created, and has a free place on the tape. */
  predicate ItemFits(db: Db, vid: Vid, k: nat, i: Item)
    requires vid in db.tapes
  {
    && i.vid == vid && i.vid != "" && i.tapeDrive != "" && i.fSeq == db.tapes[vid].lastFSeq + 1 + k
    && (i.file.Some? ==> var f := i.file.value;
          && f.diskInstance != "" && f.diskFileId != "" && f.checksum != "" && f.storageClass != ""
          && f.ownerUid != 0 && f.size != 0 && f.copyNb != 0 && (f.blockId != 0 || i.fSeq == 1)
          && (f.archiveFileId in db.archive ==>
                var row := db.archive[f.archiveFileId];
                row.size == f.size && row.checksum == f.checksum)
          && (f.archiveFileId !in db.archive ==>
                && f.storageClass in db.storageClasses && f.diskInstance in db.diskInstances
                && forall id | id in db.archive ::
                     db.archive[id].diskInstance != f.diskInstance || db.archive[id].diskFileId != f.diskFileId)
          && Pos(vid, i.fSeq) !in db.live
          && forall p | p in db.live && p.vid == vid :: db.live[p].blockId != f.blockId)
  }

  /** Two files of a batch are different archive files in different blocks, and do not both create a row
      for one disk file. */
  predicate FilesDiffer(db: Db, f: FileInfo, g: FileInfo) {
    && f.archiveFileId != g.archiveFileId && f.blockId != g.blockId
    && (f.archiveFileId !in db.archive && g.archiveFileId !in db.archive ==>
          f.diskInstance != g.diskInstance || f.diskFileId != g.diskFileId)
  }

  ghost predicate ItemsFit(db: Db, events: seq<Item>) {
    && events != [] && events[0].vid in db.tapes
    && (forall k | 0 <= k < |events| :: ItemFits(db, events[0].vid, k, events[k]))
    && (forall k, l | IsFile(events, k) && IsFile(events, l) && k != l ::
          FilesDiffer(db, events[k].file.value, events[l].file.value))
  }

  lemma FileOfItem(events: seq<Item>, k: nat) returns (i: nat)
    requires IsFile(events, k)
    ensures i < |Files(events)|
    ensures Files(events)[i] == FileEvent(Pos(events[k].vid, events[k].fSeq), events[k].file.value)
  {
    FilesContain(events, k);
    i :| 0 <= i < |Files(events)| &&
         Files(events)[i] == FileEvent(Pos(events[k].vid, events[k].fSeq), events[k].file.value);
  }

  lemma AcceptedItemFits(db: Db, events: seq<Item>, k: nat)
    requires Accepts(db, events) && k < |events|
    ensures ItemFits(db, events[0].vid, k, events[k])
  {
    assert FieldsSet(events[k]);
    if events[k].file.Some? {
      var i := FileOfItem(events, k);
      assert ArchiveAgrees(db, Files(events)[i]) && SlotFree(db, Files(events)[i]);
    }
  }

  lemma AcceptedFilesDiffer(db: Db, events: seq<Item>, k: nat, l: nat)
    requires Accepts(db, events) && IsFile(events, k) && IsFile(events, l) && k != l
    ensures FilesDiffer(db, events[k].file.value, events[l].file.value)
  {
    var i := FileOfItem(events, k);
    var j := FileOfItem(events, l);
    assert events[k].fSeq != events[l].fSeq;
    assert i != j;
    assert NoClash(db, Files(events)[if i < j then i else j], Files(events)[if i < j then j else i]);
  }

  lemma FittingFileIsAccepted(db: Db, events: seq<Item>, i: nat) returns (k: nat)
    requires ItemsFit(db, events) && i < |Files(events)|
    ensures ArchiveAgrees(db, Files(events)[i]) && SlotFree(db, Files(events)[i])
    ensures IsFile(events, k) && Files(events)[i].info == events[k].file.value
    ensures Files(events)[i].pos.fSeq == db.tapes[events[0].vid].lastFSeq + 1 + k
  {
    k := FilesFrom(events, Files(events)[i]);
    assert ItemFits(db, events[0].vid, k, events[k]);
  }

  lemma FittingFilesDoNotClash(db: Db, events: seq<Item>, i: nat, j: nat)
    requires ItemsFit(db, events) && i < j < |Files(events)| && Consecutive(events, db.tapes[events[0].vid].lastFSeq)
    ensures Files(events)[i].info.archiveFileId != Files(events)[j].info.archiveFileId
    ensures NoClash(db, Files(events)[i], Files(events)[j])
  {
    FilePositionsIncrease(events, db.tapes[events[0].vid].lastFSeq);
    var k := FittingFileIsAccepted(db, events, i);
    var l := FittingFileIsAccepted(db, events, j);
    assert k != l;
    assert FilesDiffer(db, events[k].file.value, events[l].file.value);
  }

  /** The catalogue takes exactly the batches whose items fit. */
  lemma AcceptsIff(db: Db, events: seq<Item>)
    ensures Accepts(db, events) <==> ItemsFit(db, events)
  {
    if Accepts(db, events) {
      forall k | 0 <= k < |events| ensures ItemFits(db, events[0].vid, k, events[k]) {
        AcceptedItemFits(db, events, k);
      }
      forall k, l | IsFile(events, k) && IsFile(events, l) && k != l
        ensures FilesDiffer(db, events[k].file.value, events[l].file.value)
      {
        AcceptedFilesDiffer(db, events, k, l);
      }
    }
    if ItemsFit(db, events) {
      forall k | 0 <= k < |events|
        ensures FieldsSet(events[k]) && events[k].vid == events[0].vid
        ensures events[k].fSeq == db.tapes[events[0].vid].lastFSeq + 1 + k
      {
        assert ItemFits(db, events[0].vid, k, events[k]);
      }
      forall i | 0 <= i < |Files(events)|
        ensures ArchiveAgrees(db, Files(events)[i]) && SlotFree(db, Files(events)[i])
      {
        var k := FittingFileIsAccepted(db, events, i);
      }
      forall i, j | 0 <= i < j < |Files(events)|
        ensures Files(events)[i].info.archiveFileId != Files(events)[j].info.archiveFileId
        ensures NoClash(db, Files(events)[i], Files(events)[j])
      {
        FittingFilesDoNotClash(db, events, i, j);
      }
    }
  }

  // ----- what they leave -----

  function Bytes(events: seq<Item>): nat {
    if events == [] then 0
    else (if events[0].file.Some? then events[0].file.value.size else 0) + Bytes(events[1..])
  }

  function FileCount(events: seq<Item>): nat {
    if events == [] then 0 else (if events[0].file.Some? then 1 else 0) + FileCount(events[1..])
  }

  lemma {:induction false} CountsOfMore(events: seq<Item>, i: Item)
    ensures Bytes(events + [i]) == Bytes(events) + if i.file.Some? then i.file.value.size else 0
    ensures FileCount(events + [i]) == FileCount(events) + if i.file.Some? then 1 else 0
  {
    if events == [] {
      assert events + [i] == [i];
    } else {
      assert (events + [i])[1..] == events[1..] + [i];
      CountsOfMore(events[1..], i);
    }
  }

  lemma {:induction false} CountsAre(events: seq<Item>)
    ensures SumSizes(Files(events)) == Bytes(events) && |Files(events)| == FileCount(events)
  {
    if events != [] {
      var n := |events| - 1;
      CountsAre(events[..n]);
      CountsOfMore(events[..n], events[n]);
      assert events == events[..n] + [events[n]];
      var fs := Files(events);
      if events[n].file.Some? { assert fs[..|fs| - 1] == Files(events[..n]); }
    }
  }

  /** The batch's tape has its counters raised, and nothing else about any tape changes. */
  predicate TapesCounted(db: Db, events: seq<Item>, db': Db)
    requires events != [] && events[0].vid in db.tapes
  {
    var vid := events[0].vid;
    && db'.tapes.Keys == db.tapes.Keys
    && (forall v | v in db.tapes && v != vid :: db'.tapes[v] == db.tapes[v])
    && var t, t' := db.tapes[vid], db'.tapes[vid];
       && t'.lastFSeq == t.lastFSeq + |events| && t'.nbMasterFiles == t.nbMasterFiles + FileCount(events)
       && t'.dataInBytes == t.dataInBytes + Bytes(events) % 0x1_0000_0000_0000_0000
       && t'.full == t.full && t'.dirty == t.dirty
  }

  /** An archive row that file `f` has created at time `now`. */
  predicate RowOf(row: ArchiveRow, f: FileInfo, now: nat) {
    && row.diskInstance == f.diskInstance && row.diskFileId == f.diskFileId
    && row.ownerUid == f.ownerUid && row.gid == f.gid
    && row.size == f.size && row.checksum == f.checksum
    && row.storageClass == f.storageClass && row.creationTime == now
  }

  predicate CopyRowOf(row: TapeFile, f: FileInfo, now: nat) {
    && row.archiveFileId == f.archiveFileId && row.copyNb == f.copyNb && row.blockId == f.blockId
    && row.size == f.size && row.creationTime == now
  }

  /** Old archive rows stay; the others are those of the files, column by column. */
  ghost predicate ArchiveRowsCreated(db: Db, events: seq<Item>, now: nat, db': Db) {
    && (forall id | id in db.archive :: id in db'.archive && db'.archive[id] == db.archive[id])
    && (forall id | id in db'.archive && id !in db.archive ::
          exists k | IsFile(events, k) :: events[k].file.value.archiveFileId == id)
    && (forall k | IsFile(events, k) ::
          var f := events[k].file.value;
          f.archiveFileId in db'.archive &&
          (f.archiveFileId !in db.archive ==> RowOf(db'.archive[f.archiveFileId], f, now)))
  }

  /** An item is another copy of what the row is a copy of, with the same number. */
  ghost predicate Replaces(events: seq<Item>, row: TapeFile) {
    exists k | IsFile(events, k) ::
      events[k].file.value.archiveFileId == row.archiveFileId && events[k].file.value.copyNb == row.copyNb
  }

  /** Every file is live at its item's position; a copy that was live before stays, unchanged, unless an
      item replaces it. */
  ghost predicate CopiesRecorded(db: Db, events: seq<Item>, now: nat, db': Db) {
    && (forall k | IsFile(events, k) ::
          var p := Pos(events[k].vid, events[k].fSeq);
          p in db'.live && CopyRowOf(db'.live[p], events[k].file.value, now))
    && (forall p | p in db.live :: p in db'.live <==> !Replaces(events, db.live[p]))
    && (forall p | p in db.live && p in db'.live :: db'.live[p] == db.live[p])
    && (forall p | p in db'.live && p !in db.live ::
          exists k | IsFile(events, k) :: p == Pos(events[k].vid, events[k].fSeq))
  }

  /** The recycle log keeps its rows and gets one for each copy that is live no more. */
  predicate ReplacedLogged(db: Db, now: nat, db': Db) {
    db.log <= db'.log && AddedAre(db, now, db', db'.log[|db.log|..])
  }

  predicate AddedAre(db: Db, now: nat, db': Db, added: seq<LogEntry>) {
    && (forall i, j | 0 <= i < j < |added| :: added[i].pos != added[j].pos)
    && (forall p | p in db.live && p !in db'.live :: exists e | e in added :: e.pos == p)
    && (forall e | e in added :: LoggedFrom(db, e, now, db'))
  }

  predicate LoggedFrom(db: Db, e: LogEntry, now: nat, db': Db) {
    && e.pos in db.live && e.pos !in db'.live
    && var row := db.live[e.pos];
       && e.archiveFileId == row.archiveFileId && e.copyNb == row.copyNb && e.blockId == row.blockId
       && e.tapeFileCreationTime == row.creationTime && e.reason == "REPACK" && e.time == now
       && row.archiveFileId in db'.archive && e.archive == db'.archive[row.archiveFileId]
  }

  ghost predicate ItemsRecorded(db: Db, events: seq<Item>, now: nat, db': Db)
    requires events != [] && events[0].vid in db.tapes
  {
    && db'.storageClasses == db.storageClasses && db'.diskInstances == db.diskInstances
    && TapesCounted(db, events, db') && ArchiveRowsCreated(db, events, now, db')
    && CopiesRecorded(db, events, now, db') && ReplacedLogged(db, now, db')
  }

  lemma TapesAreCounted(db: Db, events: seq<Item>, now: nat, db': Db)
    requires Accepts(db, events) && Written(db, events, now, db')
    ensures TapesCounted(db, events, db')
  {
    CountsAre(events);
    FilePositions(db, events);
  }

  lemma ArchiveRowsAreCreated(db: Db, events: seq<Item>, now: nat, db': Db)
    requires Accepts(db, events) && Written(db, events, now, db')
    ensures ArchiveRowsCreated(db, events, now, db')
  {
    forall id | id in db'.archive && id !in db.archive
      ensures exists k | IsFile(events, k) :: events[k].file.value.archiveFileId == id
    {
      var f :| f in Files(events) && f.info.archiveFileId == id;
      var k := FilesFrom(events, f);
      assert IsFile(events, k);
    }
    forall k | IsFile(events, k)
      ensures var f := events[k].file.value;
        f.archiveFileId in db'.archive &&
        (f.archiveFileId !in db.archive ==> RowOf(db'.archive[f.archiveFileId], f, now))
    {
      var i := FileOfItem(events, k);
      assert Files(events)[i] in Files(events);
    }
  }

  /** A live row is displaced exactly if an item replaces it. */
  lemma DisplacedIff(db: Db, events: seq<Item>, p: Pos)
    requires Accepts(db, events) && p in db.live
    ensures p in Displaced(db, Files(events)) <==> Replaces(events, db.live[p])
    ensures p !in NewPositions(Files(events))
  {
    var fs := Files(events);
    if p in Displaced(db, fs) {
      var f :| f in fs && f.info.archiveFileId == db.live[p].archiveFileId && f.info.copyNb == db.live[p].copyNb;
      var k := FilesFrom(events, f);
      assert IsFile(events, k);
    }
    forall f | f in fs ensures f.pos != p { assert SlotFree(db, f); }
    if Replaces(events, db.live[p]) {
      var k :| IsFile(events, k) && events[k].file.value.archiveFileId == db.live[p].archiveFileId &&
               events[k].file.value.copyNb == db.live[p].copyNb;
      var i := FileOfItem(events, k);
      assert fs[i] in fs;
    }
  }

  lemma CopiesAreRecorded(db: Db, events: seq<Item>, now: nat, db': Db)
    requires Accepts(db, events) && Written(db, events, now, db')
    ensures CopiesRecorded(db, events, now, db')
  {
    var fs := Files(events);
    forall k | IsFile(events, k)
      ensures var p := Pos(events[k].vid, events[k].fSeq);
        p in db'.live && CopyRowOf(db'.live[p], events[k].file.value, now)
    {
      var i := FileOfItem(events, k);
      assert fs[i] in fs && fs[i].pos in NewPositions(fs);
    }
    forall p | p in db.live
      ensures p in db'.live <==> !Replaces(events, db.live[p])
      ensures p in db'.live ==> db'.live[p] == db.live[p]
    {
      DisplacedIff(db, events, p);
    }
    forall p | p in db'.live && p !in db.live
      ensures exists k | IsFile(events, k) :: p == Pos(events[k].vid, events[k].fSeq)
    {
      var f :| f in fs && f.pos == p;
      var k := FilesFrom(events, f);
      assert IsFile(events, k);
    }
  }

  lemma AddedIsLogged(db: Db, events: seq<Item>, now: nat, db': Db, e: LogEntry)
    requires Accepts(db, events) && Written(db, events, now, db') && e in db'.log[|db.log|..]
    ensures LoggedFrom(db, e, now, db')
  {
    EnumeratesMember(db'.log[|db.log|..], RepackEntries(db, Files(events), db'.archive, now), e);
    DisplacedIff(db, events, e.pos);
  }

  lemma AddedAreDistinct(db: Db, events: seq<Item>, now: nat, db': Db, i: nat, j: nat)
    requires Accepts(db, events) && Written(db, events, now, db') && i < j < |db'.log[|db.log|..]|
    ensures db'.log[|db.log|..][i].pos != db'.log[|db.log|..][j].pos
  {
    var added := db'.log[|db.log|..];
    var entries := RepackEntries(db, Files(events), db'.archive, now);
    EnumeratesMember(added, entries, added[i]);
    EnumeratesMember(added, entries, added[j]);
  }

  lemma ReplacedIsLogged(db: Db, events: seq<Item>, now: nat, db': Db, p: Pos) returns (e: LogEntry)
    requires Accepts(db, events) && Written(db, events, now, db') && p in db.live && p !in db'.live
    ensures e in db'.log[|db.log|..] && e.pos == p
  {
    var fs, added := Files(events), db'.log[|db.log|..];
    assert p in Displaced(db, fs);
    var f :| f in fs && f.info.archiveFileId == db.live[p].archiveFileId;
    assert f.info.archiveFileId in NewIds(fs);
    e := EntryFor(p, db.live[p], db'.archive[db.live[p].archiveFileId], REPACK_REASON, now);
    EnumeratesMember(added, RepackEntries(db, fs, db'.archive, now), e);
  }

  lemma ReplacedAreLogged(db: Db, events: seq<Item>, now: nat, db': Db)
    requires Accepts(db, events) && Written(db, events, now, db')
    ensures ReplacedLogged(db, now, db')
  {
    var added := db'.log[|db.log|..];
    forall e | e in added ensures LoggedFrom(db, e, now, db') { AddedIsLogged(db, events, now, db', e); }
    forall i, j | 0 <= i < j < |added| ensures added[i].pos != added[j].pos {
      AddedAreDistinct(db, events, now, db', i, j);
    }
    forall p | p in db.live && p !in db'.live ensures exists e | e in added :: e.pos == p {
      var e := ReplacedIsLogged(db, events, now, db', p);
    }
  }

  /** What a batch that is taken writes, item by item and column by column. */
  lemma WrittenItems(db: Db, events: seq<Item>, now: nat, db': Db)
    requires Accepts(db, events) && Written(db, events, now, db')
    ensures ItemsFit(db, events) && ItemsRecorded(db, events, now, db')
  {
    AcceptsIff(db, events);
    TapesAreCounted(db, events, now, db');
    ArchiveRowsAreCreated(db, events, now, db');
    CopiesAreRecorded(db, events, now, db');
    ReplacedAreLogged(db, events, now, db');
  }

  // ----- nothing is left open -----

  lemma LogRowsAgree(db: Db, now: nat, a: Db, b: Db, addedA: seq<LogEntry>, addedB: seq<LogEntry>, e: LogEntry)
    requires AddedAre(db, now, a, addedA) && AddedAre(db, now, b, addedB)
    requires a.archive == b.archive && a.live == b.live && e in addedA
    ensures e in addedB
  {
    assert LoggedFrom(db, e, now, a);
    var x :| x in addedB && x.pos == e.pos;
    assert LoggedFrom(db, x, now, b);
  }

  lemma AddedPermute(db: Db, now: nat, a: Db, b: Db, addedA: seq<LogEntry>, addedB: seq<LogEntry>)
    requires AddedAre(db, now, a, addedA) && AddedAre(db, now, b, addedB) && a.archive == b.archive && a.live == b.live
    ensures multiset(addedA) == multiset(addedB)
  {
    forall e ensures e in addedA <==> e in addedB {
      if e in addedA { LogRowsAgree(db, now, a, b, addedA, addedB, e); }
      if e in addedB { LogRowsAgree(db, now, b, a, addedB, addedA, e); }
    }
    EnumerationsPermute(addedA, addedB, set e | e in addedA);
  }

  lemma LogsPermute(db: Db, now: nat, a: Db, b: Db)
    requires ReplacedLogged(db, now, a) && ReplacedLogged(db, now, b) && a.archive == b.archive && a.live == b.live
    ensures multiset(a.log) == multiset(b.log)
  {
    var addedA, addedB := a.log[|db.log|..], b.log[|db.log|..];
    AddedPermute(db, now, a, b, addedA, addedB);
    assert a.log == db.log + addedA && b.log == db.log + addedB;
  }

  lemma LiveRowsAgree(db: Db, events: seq<Item>, now: nat, a: Db, b: Db, p: Pos)
    requires CopiesRecorded(db, events, now, a) && CopiesRecorded(db, events, now, b) && p in a.live
    ensures p in b.live && a.live[p] == b.live[p]
  {
    if p !in db.live { var k :| IsFile(events, k) && p == Pos(events[k].vid, events[k].fSeq); }
  }

  lemma ArchiveRowsAgree(db: Db, events: seq<Item>, now: nat, a: Db, b: Db, id: nat)
    requires ArchiveRowsCreated(db, events, now, a) && ArchiveRowsCreated(db, events, now, b) && id in a.archive
    ensures id in b.archive && a.archive[id] == b.archive[id]
  {
    if id !in db.archive { var k :| IsFile(events, k) && events[k].file.value.archiveFileId == id; }
  }

  lemma TapesAgree(db: Db, events: seq<Item>, a: Db, b: Db)
    requires events != [] && events[0].vid in db.tapes && TapesCounted(db, events, a) && TapesCounted(db, events, b)
    ensures a.tapes == b.tapes
  {
    forall v | v in a.tapes ensures v in b.tapes && a.tapes[v] == b.tapes[v] {}
  }

  lemma ArchivesAgree(db: Db, events: seq<Item>, now: nat, a: Db, b: Db)
    requires ArchiveRowsCreated(db, events, now, a) && ArchiveRowsCreated(db, events, now, b)
    ensures a.archive == b.archive
  {
    forall id | id in a.archive ensures id in b.archive && a.archive[id] == b.archive[id] {
      ArchiveRowsAgree(db, events, now, a, b, id);
    }
    forall id | id in b.archive ensures id in a.archive { ArchiveRowsAgree(db, events, now, b, a, id); }
  }

  lemma LivesAgree(db: Db, events: seq<Item>, now: nat, a: Db, b: Db)
    requires CopiesRecorded(db, events, now, a) && CopiesRecorded(db, events, now, b)
    ensures a.live == b.live
  {
    forall p | p in a.live ensures p in b.live && a.live[p] == b.live[p] { LiveRowsAgree(db, events, now, a, b, p); }
    forall p | p in b.live ensures p in a.live { LiveRowsAgree(db, events, now, b, a, p); }
  }

  /** The columns that the items name determine all tables, up to the order of the new log rows. */
  lemma ItemsDetermine(db: Db, events: seq<Item>, now: nat, a: Db, b: Db)
    requires events != [] && events[0].vid in db.tapes
    requires ItemsRecorded(db, events, now, a) && ItemsRecorded(db, events, now, b)
    ensures SameTables(a, b)
  {
    TapesAgree(db, events, a, b);
    ArchivesAgree(db, events, now, a, b);
    LivesAgree(db, events, now, a, b);
    LogsPermute(db, now, a, b);
  }
}

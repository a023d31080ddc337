/** The steps of filesWrittenToTape that work on one batch, each proved against what it is for. */
module WriterSteps {
  import opened Tables
  import opened Batch

  datatype Error = InvalidEvent | NoSuchTape | VidMismatch | FSeqMismatch | DuplicateId | NotInCatalogue
                 | SizeMismatch | ChecksumMismatch | DatabaseError | ConnectionLost

  /** One more event that passed its checks. */
  lemma CheckedNext(events: seq<Item>, i: nat, lastFSeq: nat)
    requires i < |events| && WellFormed(events[..i]) && Consecutive(events[..i], lastFSeq)
    requires FieldsSet(events[i]) && events[i].vid == events[0].vid && events[i].fSeq == lastFSeq + 1 + i
    ensures WellFormed(events[..i + 1]) && Consecutive(events[..i + 1], lastFSeq)
  {
  }

  lemma FilesNext(events: seq<Item>, i: nat)
    requires i < |events|
    ensures events[i].file.None? ==> Files(events[..i + 1]) == Files(events[..i])
    ensures events[i].file.Some? ==>
      var f := FileEvent(Pos(events[i].vid, events[i].fSeq), events[i].file.value);
      Files(events[..i + 1]) == Files(events[..i]) + [f] &&
      SumSizes(Files(events[..i + 1])) == SumSizes(Files(events[..i])) + f.info.size
  {
    assert events[..i + 1][..i] == events[..i];
    var files := Files(events[..i]);
    if events[i].file.Some? {
      var f := FileEvent(Pos(events[i].vid, events[i].fSeq), events[i].file.value);
      assert (files + [f])[..|files|] == files;
    }
  }

  /** The loop over the events: field checks, one tape, gapless sequence numbers; it collects the
      files and adds up their sizes in 64 bits. */
  method CheckItems(events: seq<Item>, lastFSeq: nat)
    returns (error: Option<Error>, files: seq<FileEvent>, totalBytes: nat)
    requires events != []
    ensures error.None? <==> WellFormed(events) && Consecutive(events, lastFSeq)
    ensures error.None? ==> files == Files(events) && totalBytes == SumSizes(files) % TWO64
    ensures WellFormed(events) && !Consecutive(events, lastFSeq) ==> error == Some(FSeqMismatch)
    ensures error.Some? ==> error.value.InvalidEvent? || error.value.VidMismatch? || error.value.FSeqMismatch?
    ensures error == Some(InvalidEvent) ==> exists k | 0 <= k < |events| :: !FieldsSet(events[k])
    ensures error == Some(VidMismatch) ==> exists k | 0 <= k < |events| :: events[k].vid != events[0].vid
    ensures error == Some(FSeqMismatch) ==> exists k | 0 <= k < |events| :: events[k].fSeq != lastFSeq + 1 + k
  {
    error, files, totalBytes := None, [], 0;
    var expectedFSeq := lastFSeq + 1;
    for i := 0 to |events|
      invariant expectedFSeq == lastFSeq + 1 + i
      invariant WellFormed(events[..i]) && Consecutive(events[..i], lastFSeq)
      invariant files == Files(events[..i]) && totalBytes == SumSizes(files) % TWO64
    {
      var event := events[i];
      FilesNext(events, i);
      if !ItemFieldsSet(event) { assert !FieldsSet(events[i]); return Some(InvalidEvent), files, totalBytes; }
      if event.vid != events[0].vid { return Some(VidMismatch), files, totalBytes; }
      if expectedFSeq != event.fSeq { return Some(FSeqMismatch), files, totalBytes; }
      expectedFSeq := expectedFSeq + 1;
      if event.file.Some? {
        if !FileFieldsSet(event, event.file.value) {
          assert !FieldsSet(events[i]);
          return Some(InvalidEvent), files, totalBytes;
        }
        var f := FileEvent(Pos(event.vid, event.fSeq), event.file.value);
        totalBytes := (totalBytes + f.info.size) % TWO64;
        files := files + [f];
      }
      CheckedNext(events, i, lastFSeq);
    }
    assert events[..|events|] == events;
  }

  // ----- creating the archive rows -----

  predicate StorageKnown(db: Db, f: FileEvent) {
    f.info.storageClass in db.storageClasses
  }

  /** `archive` keeps every old row and otherwise holds rows that file events of the batch asked for. */
  predicate Inserted(db: Db, files: seq<FileEvent>, now: nat, archive: map<nat, ArchiveRow>) {
    && (forall id | id in db.archive :: id in archive && archive[id] == db.archive[id])
    && (forall id | id in archive && id !in db.archive :: exists f | f in files :: RowFrom(db, f, now, id, archive[id]))
  }

  predicate RowFrom(db: Db, f: FileEvent, now: nat, id: nat, row: ArchiveRow) {
    f.info.archiveFileId == id && StorageKnown(db, f) && f.info.diskInstance in db.diskInstances &&
      row == NewRow(f, now)
  }

  /** A file event whose new archive row breaks the foreign key to DISK_INSTANCE. */
  predicate NoInstance(db: Db, f: FileEvent) {
    IsNew(db, f) && StorageKnown(db, f) && f.info.diskInstance !in db.diskInstances
  }

  predicate Ascending(fs: seq<FileEvent>) {
    forall i, j | 0 <= i < j < |fs| :: fs[i].info.archiveFileId <= fs[j].info.archiveFileId
  }

  method InsertAscending(fs: seq<FileEvent>, f: FileEvent) returns (r: seq<FileEvent>)
    requires Ascending(fs)
    ensures Ascending(r) && multiset(r) == multiset(fs) + multiset{f}
  {
    var k := |fs|;
    while k > 0 && fs[k - 1].info.archiveFileId > f.info.archiveFileId
      invariant 0 <= k <= |fs|
      invariant forall a | k <= a < |fs| :: fs[a].info.archiveFileId > f.info.archiveFileId
    {
      k := k - 1;
    }
    r := fs[..k] + [f] + fs[k..];
    SpliceKeepsRows(fs, k, f);
    SpliceKeepsOrder(fs, k, f);
  }

  lemma SpliceKeepsRows(fs: seq<FileEvent>, k: nat, f: FileEvent)
    requires k <= |fs|
    ensures multiset(fs[..k] + [f] + fs[k..]) == multiset(fs) + multiset{f}
  {
    assert fs == fs[..k] + fs[k..];
  }

  lemma SpliceKeepsOrder(fs: seq<FileEvent>, k: nat, f: FileEvent)
    requires k <= |fs| && Ascending(fs)
    requires forall a | k <= a < |fs| :: f.info.archiveFileId < fs[a].info.archiveFileId
    requires k > 0 ==> fs[k - 1].info.archiveFileId <= f.info.archiveFileId
    ensures Ascending(fs[..k] + [f] + fs[k..])
  {
    var r := fs[..k] + [f] + fs[k..];
    forall i, j | 0 <= i < j < |r| ensures r[i].info.archiveFileId <= r[j].info.archiveFileId {
      var a := if i < k then fs[i] else if i == k then f else fs[i - 1];
      var b := if j < k then fs[j] else if j == k then f else fs[j - 1];
      assert r[i] == a && r[j] == b;
    }
  }

  /** ORDER BY ARCHIVE_FILE_ID. */
  method OrderByArchiveFileId(files: seq<FileEvent>) returns (sorted: seq<FileEvent>)
    ensures multiset(sorted) == multiset(files) && Ascending(sorted)
  {
    sorted := [];
    for i := 0 to |files|
      invariant multiset(sorted) == multiset(files[..i]) && Ascending(sorted)
    {
      assert files[..i + 1] == files[..i] + [files[i]];
      sorted := InsertAscending(sorted, files[i]);
    }
    assert files[..|files|] == files;
  }

  /** INSERT ... SELECT ... ORDER BY ARCHIVE_FILE_ID ON CONFLICT (ARCHIVE_FILE_ID) DO NOTHING. The
      constraint on disk keys is deferred, so it is not looked at here. */
  method InsertOnConflictDoNothing(db: Db, files: seq<FileEvent>, now: nat) returns (r: Option<map<nat, ArchiveRow>>)
    ensures r.Some? ==> Inserted(db, files, now, r.value)
    ensures r.Some? ==> forall f | f in files && StorageKnown(db, f) :: f.info.archiveFileId in r.value
    ensures r.None? ==> exists f | f in files :: NoInstance(db, f)
  {
    var ordered := OrderByArchiveFileId(files);
    forall f ensures f in ordered <==> f in files { assert f in multiset(ordered) <==> f in multiset(files); }
    var archive: map<nat, ArchiveRow> := db.archive;
    for i := 0 to |ordered|
      invariant Inserted(db, files, now, archive)
      invariant forall k | 0 <= k < i && StorageKnown(db, ordered[k]) :: ordered[k].info.archiveFileId in archive
    {
      var f := ordered[i];
      if StorageKnown(db, f) && f.info.archiveFileId !in archive {
        if f.info.diskInstance !in db.diskInstances { assert NoInstance(db, f); return None; }
        assert RowFrom(db, f, now, f.info.archiveFileId, NewRow(f, now));
        archive := archive[f.info.archiveFileId := NewRow(f, now)];
      }
    }
    r := Some(archive);
  }

  predicate KeyTaken(archive: map<nat, ArchiveRow>, f: FileEvent) {
    exists a | a in archive :: DiskKeyOf(archive[a], f)
  }

  /** executeArrayUpdate in batch error mode: rows go in one by one, in sequence-number order; unique
      constraint errors are ignored, any other error is remembered and thrown at the end. */
  method InsertBatchErrorMode(db: Db, files: seq<FileEvent>, now: nat) returns (r: Option<map<nat, ArchiveRow>>)
    requires DiskKeysUnique(db.archive)
    ensures r.Some? ==> Inserted(db, files, now, r.value) && DiskKeysUnique(r.value)
    ensures r.Some? ==> forall f | f in files && StorageKnown(db, f) && f.info.archiveFileId !in r.value ::
      KeyTaken(r.value, f)
    ensures r.None? ==> exists f | f in files :: NoInstance(db, f)
  {
    var archive: map<nat, ArchiveRow> := db.archive;
    var foundErrorOtherThanUniqueConstraint := false;
    for i := 0 to |files|
      invariant Inserted(db, files, now, archive) && DiskKeysUnique(archive)
      invariant foundErrorOtherThanUniqueConstraint ==> exists f | f in files :: NoInstance(db, f)
      invariant !foundErrorOtherThanUniqueConstraint ==>
        forall k | 0 <= k < i && StorageKnown(db, files[k]) ::
          files[k].info.archiveFileId in archive || KeyTaken(archive, files[k])
    {
      var f := files[i];
      if StorageKnown(db, f) {
        if f.info.archiveFileId in archive || KeyTaken(archive, f) {
          // ORA-00001 is ignored
        } else if f.info.diskInstance !in db.diskInstances {
          assert NoInstance(db, f);
          foundErrorOtherThanUniqueConstraint := true;
        } else {
          assert RowFrom(db, f, now, f.info.archiveFileId, NewRow(f, now));
          ghost var before := archive;
          archive := archive[f.info.archiveFileId := NewRow(f, now)];
          forall g | KeyTaken(before, g) ensures KeyTaken(archive, g) {
            var a :| a in before && DiskKeyOf(before[a], g);
            assert DiskKeyOf(archive[a], g);
          }
        }
      }
    }
    r := if foundErrorOtherThanUniqueConstraint then None else Some(archive);
  }

  // ----- verifying the batch against the archive rows -----

  predicate Agrees(f: FileEvent, archive: map<nat, ArchiveRow>) {
    f.info.archiveFileId in archive && archive[f.info.archiveFileId].size == f.info.size
    && archive[f.info.archiveFileId].checksum == f.info.checksum
  }

  /** What each error of the verification says. */
  predicate Found(files: seq<FileEvent>, archive: map<nat, ArchiveRow>, e: Error) {
    match e
    case DuplicateId => !DistinctIds(files)
    case NotInCatalogue => exists f | f in files :: f.info.archiveFileId !in archive
    case SizeMismatch =>
      DistinctFound(files, archive) && exists f | f in files ::
        f.info.archiveFileId in archive && archive[f.info.archiveFileId].size != f.info.size
    case ChecksumMismatch =>
      DistinctFound(files, archive) && exists f | f in files ::
        f.info.archiveFileId in archive && archive[f.info.archiveFileId].checksum != f.info.checksum
    case _ => false
  }

  /** selectArchiveFileSizesAndChecksums: the rows of the batch's archive files; it refuses duplicates. */
  method SelectArchiveRows(files: seq<FileEvent>, archive: map<nat, ArchiveRow>)
    returns (selected: map<nat, ArchiveRow>, duplicate: bool)
    ensures duplicate <==> !DistinctFound(files, archive)
    ensures !duplicate ==> forall id :: id in selected <==> id in archive && exists k | 0 <= k < |files| ::
      files[k].info.archiveFileId == id
    ensures forall id | id in selected :: id in archive && selected[id] == archive[id]
  {
    selected := map[];
    for i := 0 to |files|
      invariant DistinctFound(files[..i], archive)
      invariant forall id :: id in selected <==> id in archive && exists k | 0 <= k < i ::
        files[k].info.archiveFileId == id
      invariant forall id | id in selected :: selected[id] == archive[id]
    {
      var id := files[i].info.archiveFileId;
      if id in archive {
        if id in selected {
          ghost var k :| 0 <= k < i && files[k].info.archiveFileId == id;
          assert files[k].info.archiveFileId == files[i].info.archiveFileId;
          return selected, true;
        }
        selected := selected[id := archive[id]];
      }
    }
    assert files[..|files|] == files;
    duplicate := false;
  }

  /** The verification of the batch: no duplicate identifiers, and the loop that compares each event with
      what was selected. */
  method VerifyAgainstArchive(files: seq<FileEvent>, archive: map<nat, ArchiveRow>) returns (error: Option<Error>)
    ensures error.None? <==> DistinctIds(files) && forall f | f in files :: Agrees(f, archive)
    ensures error.Some? ==> Found(files, archive, error.value)
  {
    var selected, duplicate := SelectArchiveRows(files, archive);
    if duplicate { return Some(DuplicateId); }
    for i := 0 to |files|
      invariant forall k | 0 <= k < i :: Agrees(files[k], archive)
    {
      var f := files[i];
      assert f in files;
      if f.info.archiveFileId !in selected { assert !Agrees(f, archive); return Some(NotInCatalogue); }
      if selected[f.info.archiveFileId].size != f.info.size { assert !Agrees(f, archive); return Some(SizeMismatch); }
      if selected[f.info.archiveFileId].checksum != f.info.checksum {
        assert !Agrees(f, archive);
        return Some(ChecksumMismatch);
      }
    }
    error := None;
    forall i, j | 0 <= i < j < |files| ensures files[i].info.archiveFileId != files[j].info.archiveFileId {
      assert Agrees(files[i], archive);
    }
  }

  /** Identifiers that the join finds occur once. */
  predicate DistinctFound(files: seq<FileEvent>, archive: map<nat, ArchiveRow>) {
    forall i, j | 0 <= i < j < |files| && files[i].info.archiveFileId in archive ::
      files[i].info.archiveFileId != files[j].info.archiveFileId
  }

  // ----- the tape files -----

  /** The join of TAPE_FILE with the batch: the displaced rows, in no particular order. */
  method SelectDisplaced(db: Db, files: seq<FileEvent>) returns (rows: seq<Pos>)
    ensures Enumerates(rows, Displaced(db, files))
  {
    rows := [];
    var rest := Displaced(db, files);
    while rest != {}
      invariant rest <= Displaced(db, files)
      invariant Enumerates(rows, Displaced(db, files) - rest)
    {
      var p :| p in rest;
      rest := rest - {p};
      assert p !in rows by { EnumeratesMember(rows, Displaced(db, files) - (rest + {p}), p); }
      assert (set x | x in rows + [p]) == (set x | x in rows) + {p};
      rows := rows + [p];
    }
    assert Displaced(db, files) - {} == Displaced(db, files);
  }

  predicate SlotsOk(db: Db, fs: seq<FileEvent>) {
    && (forall i | 0 <= i < |fs| :: SlotFree(db, fs[i]))
    && (forall i, j | 0 <= i < j < |fs| :: fs[i].info.blockId != fs[j].info.blockId)
  }

  /** INSERT INTO TAPE_FILE ... SELECT FROM the batch: all rows, or none if one breaks a constraint. */
  method InsertTapeFiles(db: Db, fs: seq<FileEvent>, now: nat) returns (r: Option<map<Pos, TapeFile>>)
    requires forall i, j | 0 <= i < j < |fs| :: fs[i].pos != fs[j].pos && fs[i].pos.vid == fs[j].pos.vid
    ensures r.Some? <==> SlotsOk(db, fs)
    ensures r.Some? ==> r.value.Keys == db.live.Keys + NewPositions(fs)
    ensures r.Some? ==> forall p | p in db.live :: r.value[p] == db.live[p]
    ensures r.Some? ==> forall f | f in fs :: r.value[f.pos] == NewTapeFile(f, now)
  {
    var live := db.live;
    for i := 0 to |fs|
      invariant SlotsOk(db, fs[..i])
      invariant live.Keys == db.live.Keys + NewPositions(fs[..i])
      invariant forall p | p in db.live :: live[p] == db.live[p]
      invariant forall k | 0 <= k < i :: live[fs[k].pos] == NewTapeFile(fs[k], now)
    {
      var f := fs[i];
      if f.pos in live || !BlockFree(live, f.pos.vid, f.info.blockId) {
        NotSlotsOk(db, fs, i, live, now);
        return None;
      }
      SlotsOkNext(db, fs, i, live, now);
      live := live[f.pos := NewTapeFile(f, now)];
    }
    assert fs[..|fs|] == fs;
    r := Some(live);
  }

  lemma SlotsOkNext(db: Db, fs: seq<FileEvent>, i: nat, live: map<Pos, TapeFile>, now: nat)
    requires i < |fs| && live.Keys == db.live.Keys + NewPositions(fs[..i]) && SlotsOk(db, fs[..i])
    requires forall p | p in db.live :: live[p] == db.live[p]
    requires forall a, b | 0 <= a < b < |fs| :: fs[a].pos != fs[b].pos && fs[a].pos.vid == fs[b].pos.vid
    requires forall k | 0 <= k < i :: live[fs[k].pos] == NewTapeFile(fs[k], now)
    requires fs[i].pos !in live && BlockFree(live, fs[i].pos.vid, fs[i].info.blockId)
    ensures SlotsOk(db, fs[..i + 1]) && NewPositions(fs[..i + 1]) == NewPositions(fs[..i]) + {fs[i].pos}
  {
    var f := fs[i];
    assert fs[..i + 1] == fs[..i] + [f];
    assert SlotFree(db, f);
    forall k | 0 <= k < i ensures fs[k].info.blockId != f.info.blockId {
      assert live[fs[k].pos].blockId != f.info.blockId by { assert fs[..i][k] in fs[..i]; }
    }
  }

  lemma NotSlotsOk(db: Db, fs: seq<FileEvent>, i: nat, live: map<Pos, TapeFile>, now: nat)
    requires i < |fs| && live.Keys == db.live.Keys + NewPositions(fs[..i])
    requires forall p | p in db.live :: live[p] == db.live[p]
    requires forall a, b | 0 <= a < b < |fs| :: fs[a].pos != fs[b].pos
    requires forall k | 0 <= k < i :: live[fs[k].pos] == NewTapeFile(fs[k], now)
    requires fs[i].pos in live || !BlockFree(live, fs[i].pos.vid, fs[i].info.blockId)
    ensures !SlotsOk(db, fs)
  {
    assert fs[i].pos !in NewPositions(fs[..i]);
    if fs[i].pos in live {
      assert !SlotFree(db, fs[i]);
    } else {
      var p :| p in live && p.vid == fs[i].pos.vid && live[p].blockId == fs[i].info.blockId;
      if p in db.live {
        assert !SlotFree(db, fs[i]);
      } else {
        var f :| f in fs[..i] && f.pos == p;
        var k :| 0 <= k < i && fs[k] == f;
        assert fs[k].info.blockId == fs[i].info.blockId;
      }
    }
  }
}

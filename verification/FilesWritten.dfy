/** filesWrittenToTape on Postgres and on Oracle: two programs, one meaning. */
module FilesWritten {
  import opened Tables
  import opened Batch
  import opened BatchItems
  import opened Invariant
  import opened Sessions
  import opened WriterSteps
  import opened Writers

  datatype Result = Done | Failed(error: Error)

  /** The foreign keys and the unique constraint that the database itself maintains. */
  predicate SchemaHolds(db: Db) {
    LiveReferences(db) && DiskKeysUnique(db.archive)
  }

  predicate Verified(files: seq<FileEvent>, archive: map<nat, ArchiveRow>) {
    DistinctIds(files) && forall f | f in files :: Agrees(f, archive)
  }

  // ----- what the archive rows of a batch tell about it -----

  lemma NewRowIsOwn(db: Db, files: seq<FileEvent>, now: nat, archive: map<nat, ArchiveRow>, f: FileEvent)
    requires Inserted(db, files, now, archive) && Verified(files, archive) && f in files && IsNew(db, f)
    ensures RowFrom(db, f, now, f.info.archiveFileId, archive[f.info.archiveFileId])
  {
    var id := f.info.archiveFileId;
    assert Agrees(f, archive);
    var g :| g in files && RowFrom(db, g, now, id, archive[id]);
    SameIndex(files, f, g);
  }

  /** Rows that are verified and have unique disk keys show that the batch was acceptable. */
  lemma VerifiedIsAccepted(db: Db, files: seq<FileEvent>, now: nat, archive: map<nat, ArchiveRow>)
    requires Inserted(db, files, now, archive) && Verified(files, archive) && DiskKeysUnique(archive)
    requires SlotsOk(db, files)
    ensures FilesAccepted(db, files) && ArchiveWritten(db, files, now, archive)
  {
    forall f | f in files ensures Agrees(f, archive) && ArchiveAgrees(db, f)
      && (IsNew(db, f) ==> archive[f.info.archiveFileId] == NewRow(f, now))
    {
      assert Agrees(f, archive);
      if IsNew(db, f) {
        NewRowIsOwn(db, files, now, archive, f);
        forall a | a in db.archive ensures !DiskKeyOf(db.archive[a], f) {
          assert archive[a] == db.archive[a] && a != f.info.archiveFileId;
        }
      }
    }
    forall i, j | 0 <= i < j < |files| ensures NoClash(db, files[i], files[j]) {
      assert files[i] in files && files[j] in files;
      assert files[i].info.archiveFileId != files[j].info.archiveFileId;
      assert Agrees(files[i], archive) && Agrees(files[j], archive);
    }
    assert archive.Keys == db.archive.Keys + NewIds(files) by {
      forall id | id in archive ensures id in db.archive.Keys + NewIds(files) {
        if id !in db.archive { var f :| f in files && RowFrom(db, f, now, id, archive[id]); }
      }
      forall f | f in files ensures f.info.archiveFileId in archive { assert Agrees(f, archive); }
    }
  }

  /** The rows of an acceptable batch, once all are there, pass every later check. */
  lemma AcceptedIsVerified(db: Db, files: seq<FileEvent>, now: nat, archive: map<nat, ArchiveRow>)
    requires FilesAccepted(db, files) && Inserted(db, files, now, archive) && DiskKeysUnique(db.archive)
    requires forall f | f in files :: f.info.archiveFileId in archive
    ensures Verified(files, archive) && DiskKeysUnique(archive) && SlotsOk(db, files)
  {
    forall f | f in files
      ensures Agrees(f, archive) && (IsNew(db, f) ==> archive[f.info.archiveFileId] == NewRow(f, now)) {
      assert ArchiveAgrees(db, f);
      var id := f.info.archiveFileId;
      if IsNew(db, f) {
        var g :| g in files && RowFrom(db, g, now, id, archive[id]);
        SameIndex(files, f, g);
      }
    }
    forall id | id in archive ensures id in db.archive.Keys + NewIds(files) {
      if id !in db.archive { var f :| f in files && RowFrom(db, f, now, id, archive[id]); }
    }
    assert archive.Keys == db.archive.Keys + NewIds(files);
    assert ArchiveWritten(db, files, now, archive);
    WriteKeepsDiskKeys(db, files, now, archive);
    forall i, j | 0 <= i < j < |files| ensures files[i].info.blockId != files[j].info.blockId {
      assert NoClash(db, files[i], files[j]);
    }
  }

  /** On Oracle a unique-constraint error that was ignored can only belong to an unacceptable batch
      or to an archive file that was there before. */
  lemma NothingIgnored(db: Db, files: seq<FileEvent>, now: nat, archive: map<nat, ArchiveRow>, f: FileEvent)
    requires FilesAccepted(db, files) && Inserted(db, files, now, archive) && f in files && IsNew(db, f)
    requires f.info.archiveFileId !in archive
    ensures !KeyTaken(archive, f)
  {
    assert ArchiveAgrees(db, f);
    forall a | a in archive ensures !DiskKeyOf(archive[a], f) {
      if a in db.archive {
        assert archive[a] == db.archive[a];
      } else {
        var g :| g in files && RowFrom(db, g, now, a, archive[a]);
        BatchBlocksDiffer(db, files, f, g);
      }
    }
  }

  lemma NoInstanceIsRefused(db: Db, files: seq<FileEvent>)
    requires exists f | f in files :: NoInstance(db, f)
    ensures !FilesAccepted(db, files)
  {
    var f :| f in files && NoInstance(db, f);
    assert !ArchiveAgrees(db, f);
  }

  /** The recorded state, seen from the state before the batch. */
  lemma RecordedIsWritten(db: Db, events: seq<Item>, now: nat, d: Db, d': Db)
    requires TapeAccepts(db, events) && ArchiveWritten(db, Files(events), now, d.archive)
    requires d == db.(tapes := db.tapes[events[0].vid := UpdatedTape(db.tapes[events[0].vid], events)],
      archive := d.archive)
    requires Recorded(d, Files(events), now, d')
    ensures Written(db, events, now, d')
  {
    assert Displaced(d, Files(events)) == Displaced(db, Files(events));
    assert RepackEntries(d, Files(events), d'.archive, now) == RepackEntries(db, Files(events), d'.archive, now);
  }

  // ----- the contract of both writers -----

  /** What a call may have done to the committed tables `db`, leaving `db'`. */
  ghost predicate WriteOutcome(db: Db, events: seq<Item>, now: nat, r: Result, db': Db, quiet: bool) {
    if events == [] then r.Done? && db' == db
    else
      && (r.Done? ==> Accepts(db, events) && Written(db, events, now, db'))
      && (r.Failed? ==> db' == db || (r.error.ConnectionLost? && Accepts(db, events) && Written(db, events, now, db')))
      && (quiet ==> (r.Done? <==> Accepts(db, events)) && r != Failed(ConnectionLost))
      && (quiet && OutOfSequence(db, events) ==> r == Failed(FSeqMismatch))
      && (r.Failed? ==> Explained(db, events, r.error))
  }

  /** The same, said of the items of the batch. */
  ghost predicate ItemsOutcome(db: Db, events: seq<Item>, now: nat, r: Result, db': Db, quiet: bool) {
    if events == [] then r.Done? && db' == db
    else
      && (r.Done? ==> ItemsFit(db, events) && ItemsRecorded(db, events, now, db'))
      && (r.Failed? ==>
            db' == db || (r.error.ConnectionLost? && ItemsFit(db, events) && ItemsRecorded(db, events, now, db')))
      && (quiet ==> (r.Done? <==> ItemsFit(db, events)) && r != Failed(ConnectionLost))
      && (r.Failed? ==> Explained(db, events, r.error))
  }

  lemma OutcomeOfItems(db: Db, events: seq<Item>, now: nat, r: Result, db': Db, quiet: bool)
    requires WriteOutcome(db, events, now, r, db', quiet)
    ensures ItemsOutcome(db, events, now, r, db', quiet)
  {
    AcceptsIff(db, events);
    if events != [] && Accepts(db, events) && Written(db, events, now, db') { WrittenItems(db, events, now, db'); }
  }

  /** The error of a failed call names what is wrong with the batch; an error of the database or of the
      connection may have other causes. */
  ghost predicate Explained(db: Db, events: seq<Item>, e: Error) {
    match e
    case InvalidEvent => exists k | 0 <= k < |events| :: !FieldsSet(events[k])
    case NoSuchTape => events != [] && events[0].vid !in db.tapes
    case VidMismatch => exists k | 0 <= k < |events| :: events[k].vid != events[0].vid
    case FSeqMismatch =>
      && events != [] && events[0].vid in db.tapes
      && exists k | 0 <= k < |events| :: events[k].fSeq != db.tapes[events[0].vid].lastFSeq + 1 + k
    case DuplicateId =>
      exists k, l | IsFile(events, k) && IsFile(events, l) && k != l ::
        events[k].file.value.archiveFileId == events[l].file.value.archiveFileId
    case NotInCatalogue => exists k | IsFile(events, k) :: CannotBeCreated(db, events, k)
    case SizeMismatch =>
      exists k | IsFile(events, k) ::
        var f := events[k].file.value;
        f.archiveFileId in db.archive && db.archive[f.archiveFileId].size != f.size
    case ChecksumMismatch =>
      exists k | IsFile(events, k) ::
        var f := events[k].file.value;
        f.archiveFileId in db.archive && db.archive[f.archiveFileId].checksum != f.checksum
    case DatabaseError => true
    case ConnectionLost => true
  }

  /** The archive file of item `k` is not there, and its row cannot be created: the storage class is unknown,
      or its disk file belongs to another archive file, of the catalogue or of the batch. */
  ghost predicate CannotBeCreated(db: Db, events: seq<Item>, k: nat)
    requires IsFile(events, k)
  {
    var f := events[k].file.value;
    && f.archiveFileId !in db.archive
    && (|| f.storageClass !in db.storageClasses
        || (exists id | id in db.archive ::
              db.archive[id].diskInstance == f.diskInstance && db.archive[id].diskFileId == f.diskFileId)
        || (exists l | IsFile(events, l) && l != k ::
              var g := events[l].file.value; g.diskInstance == f.diskInstance && g.diskFileId == f.diskFileId))
  }

  /** A file that the inserts left out. */
  predicate LeftOut(db: Db, archive: map<nat, ArchiveRow>, f: FileEvent) {
    f.info.archiveFileId !in archive ==> !StorageKnown(db, f) || KeyTaken(archive, f)
  }

  lemma LeftOutCannotBeCreated(db: Db, events: seq<Item>, now: nat, archive: map<nat, ArchiveRow>, f: FileEvent)
    requires Inserted(db, Files(events), now, archive) && f in Files(events)
    requires f.info.archiveFileId !in archive && LeftOut(db, archive, f)
    ensures Explained(db, events, NotInCatalogue)
  {
    var k := FilesFrom(events, f);
    if StorageKnown(db, f) {
      var a :| a in archive && DiskKeyOf(archive[a], f);
      if a !in db.archive {
        var g :| g in Files(events) && RowFrom(db, g, now, a, archive[a]);
        var l := FilesFrom(events, g);
        assert IsFile(events, l) && l != k;
      }
    }
    assert IsFile(events, k) && CannotBeCreated(db, events, k);
  }

  lemma MismatchIsOld(db: Db, files: seq<FileEvent>, now: nat, archive: map<nat, ArchiveRow>, f: FileEvent)
    requires Inserted(db, files, now, archive) && DistinctFound(files, archive) && f in files
    requires f.info.archiveFileId in archive && !Agrees(f, archive)
    ensures f.info.archiveFileId in db.archive && archive[f.info.archiveFileId] == db.archive[f.info.archiveFileId]
  {
    if IsNew(db, f) { NewFoundAgrees(db, files, now, archive, f); }
  }

  lemma NewFoundAgrees(db: Db, files: seq<FileEvent>, now: nat, archive: map<nat, ArchiveRow>, f: FileEvent)
    requires Inserted(db, files, now, archive) && DistinctFound(files, archive) && f in files && IsNew(db, f)
    requires f.info.archiveFileId in archive
    ensures Agrees(f, archive)
  {
    var id := f.info.archiveFileId;
    var g :| g in files && RowFrom(db, g, now, id, archive[id]);
    SameFound(files, archive, f, g);
  }

  lemma SameFound(files: seq<FileEvent>, archive: map<nat, ArchiveRow>, f: FileEvent, g: FileEvent)
    requires DistinctFound(files, archive) && f in files && g in files
    requires f.info.archiveFileId == g.info.archiveFileId && f.info.archiveFileId in archive
    ensures f == g
  {
    var i :| 0 <= i < |files| && files[i] == f;
    var j :| 0 <= j < |files| && files[j] == g;
    assert i == j;
  }

  lemma DuplicateIsExplained(events: seq<Item>, db: Db)
    requires TapeAccepts(db, events) && !DistinctIds(Files(events))
    ensures Explained(db, events, DuplicateId)
  {
    var fs := Files(events);
    var i, j :| 0 <= i < j < |fs| && fs[i].info.archiveFileId == fs[j].info.archiveFileId;
    FilePositions(db, events);
    var k := FilesFrom(events, fs[i]);
    var l := FilesFrom(events, fs[j]);
    assert IsFile(events, k) && IsFile(events, l) && k != l;
  }

  lemma FoundIsExplained(db: Db, events: seq<Item>, now: nat, archive: map<nat, ArchiveRow>, e: Error)
    requires TapeAccepts(db, events) && Inserted(db, Files(events), now, archive) && Found(Files(events), archive, e)
    requires forall f | f in Files(events) :: LeftOut(db, archive, f)
    ensures Explained(db, events, e)
  {
    var fs := Files(events);
    match e
    case DuplicateId => DuplicateIsExplained(events, db);
    case NotInCatalogue =>
      var f :| f in fs && f.info.archiveFileId !in archive;
      LeftOutCannotBeCreated(db, events, now, archive, f);
    case SizeMismatch =>
      var f :| f in fs && f.info.archiveFileId in archive && archive[f.info.archiveFileId].size != f.info.size;
      MismatchIsOld(db, fs, now, archive, f);
      var k := FilesFrom(events, f);
      assert IsFile(events, k);
    case ChecksumMismatch =>
      var f :| f in fs && f.info.archiveFileId in archive && archive[f.info.archiveFileId].checksum != f.info.checksum;
      MismatchIsOld(db, fs, now, archive, f);
      var k := FilesFrom(events, f);
      assert IsFile(events, k);
    case _ =>
  }

  /** A well-formed batch for a known tape that does not continue at LAST_FSEQ + 1. */
  predicate OutOfSequence(db: Db, events: seq<Item>) {
    && events != [] && WellFormed(events) && events[0].vid in db.tapes
    && !Consecutive(events, db.tapes[events[0].vid].lastFSeq)
  }

  /** The part that is the same in both programs: lock and read the tape row, check the items, update
      the tape. */
  method BeginBatch(conn: Conn, events: seq<Item>) returns (error: Option<Error>, files: seq<FileEvent>)
    requires Idle(conn.session) && events != []
    modifies conn
    ensures conn.session.backend == old(conn.session.backend)
    ensures var db := old(conn.session.committed);
      && (error.None? ==> TapeAccepts(db, events) && files == Files(events) && conn.InTxn(db, TapeUpdated(db, events)))
      && (error.Some? ==> conn.Clean(db) && Explained(db, events, error.value))
      && (Quiet(old(conn.faults)) ==> Quiet(conn.faults) && (error.None? <==> TapeAccepts(db, events)))
      && (Quiet(old(conn.faults)) && OutOfSequence(db, events) ==> error == Some(FSeqMismatch))
      && (Quiet(old(conn.faults)) ==> error != Some(ConnectionLost))
  {
    files := [];
    ghost var db := conn.session.committed;
    var vid := events[0].vid;
    if !ItemFieldsSet(events[0]) { assert !FieldsSet(events[0]); return Some(InvalidEvent), files; }
    var ok := conn.Open();
    if !ok { return Some(conn.Thrown()), files; }
    ok := conn.Statement(Some(conn.session.pending));
    if !ok { return Some(conn.Thrown()), files; }
    if vid !in conn.session.pending.tapes { conn.Rollback(); return Some(NoSuchTape), files; }
    var tape := conn.session.pending.tapes[vid];
    var bytes;
    error, files, bytes := CheckItems(events, tape.lastFSeq);
    if error.Some? { conn.Rollback(); return; }
    var updated := tape.(lastFSeq := events[|events| - 1].fSeq, dataInBytes := tape.dataInBytes + bytes,
                         nbMasterFiles := tape.nbMasterFiles + |files|);
    ok := conn.Statement(Some(conn.session.pending.(tapes := conn.session.pending.tapes[vid := updated])));
    error := if ok then None else Some(conn.Thrown());
  }

  function TapeUpdated(db: Db, events: seq<Item>): Db
    requires TapeAccepts(db, events)
  {
    db.(tapes := db.tapes[events[0].vid := UpdatedTape(db.tapes[events[0].vid], events)])
  }

  /** A batch without files is complete once the tape is updated. */
  lemma NoFilesIsWritten(db: Db, events: seq<Item>, now: nat)
    requires TapeAccepts(db, events) && Files(events) == []
    ensures Accepts(db, events) && Written(db, events, now, TapeUpdated(db, events))
  {
    var d := TapeUpdated(db, events);
    assert NewIds([]) == {} && NewPositions([]) == {} && Displaced(db, []) == {};
    assert RepackEntries(db, [], d.archive, now) == {};
    assert d.log[|db.log|..] == [];
  }

  /** Both programs decide acceptability by these three checks on the rows they have inserted. */
  lemma AcceptedIff(db: Db, files: seq<FileEvent>, now: nat, archive: map<nat, ArchiveRow>)
    requires Inserted(db, files, now, archive) && DiskKeysUnique(db.archive)
    requires FilesAccepted(db, files) ==> forall f | f in files :: f.info.archiveFileId in archive
    ensures FilesAccepted(db, files) <==> Verified(files, archive) && DiskKeysUnique(archive) && SlotsOk(db, files)
    ensures FilesAccepted(db, files) ==> ArchiveWritten(db, files, now, archive)
  {
    if FilesAccepted(db, files) { AcceptedIsVerified(db, files, now, archive); }
    if Verified(files, archive) && DiskKeysUnique(archive) && SlotsOk(db, files) {
      VerifiedIsAccepted(db, files, now, archive);
    }
  }

  /** Insertion looks at the archive rows, storage classes and disk instances only. */
  lemma InsertedCongruent(db: Db, d: Db, files: seq<FileEvent>, now: nat, archive: map<nat, ArchiveRow>)
    requires Inserted(d, files, now, archive) && d == db.(tapes := d.tapes)
    ensures Inserted(db, files, now, archive)
  {
    forall id | id in archive && id !in db.archive
      ensures exists f | f in files :: RowFrom(db, f, now, id, archive[id]) {
      var f :| f in files && RowFrom(d, f, now, id, archive[id]);
      assert RowFrom(db, f, now, id, archive[id]);
    }
  }

  /** A refusal, with everything rolled back. */
  lemma RefusedOutcome(db: Db, events: seq<Item>, now: nat, error: Error, quiet: bool)
    requires TapeAccepts(db, events)
    requires quiet ==> !FilesAccepted(db, Files(events)) && error != ConnectionLost
    requires Explained(db, events, error)
    ensures WriteOutcome(db, events, now, Failed(error), db, quiet)
  {
  }

  /** The commit, refused when the deferred constraint on disk keys does not hold. */
  method CommitBatch(conn: Conn, ghost db: Db, ghost events: seq<Item>, ghost now: nat) returns (r: Result)
    requires conn.InTxn(db, conn.session.pending) && TapeAccepts(db, events)
    requires FilesAccepted(db, Files(events)) <==> DiskKeysUnique(conn.session.pending.archive)
    requires FilesAccepted(db, Files(events)) ==> Written(db, events, now, conn.session.pending)
    modifies conn
    ensures WriteOutcome(db, events, now, r, conn.session.committed, Quiet(old(conn.faults)))
    ensures conn.session.pending == conn.session.committed
  {
    var ok, lost := conn.Commit(DiskKeysUnique(conn.session.pending.archive));
    r := if ok then Done else Failed(if lost then ConnectionLost else DatabaseError);
  }

  /** Record the verified files, and commit. */
  method RecordAndCommit(conn: Conn, ghost db: Db, ghost events: seq<Item>, files: seq<FileEvent>, now: nat, d: Db)
    returns (r: Result)
    requires TapeAccepts(db, events) && files == Files(events) && SchemaHolds(db)
    requires d == TapeUpdated(db, events).(archive := d.archive) && conn.InTxn(db, d)
    requires Inserted(db, files, now, d.archive)
    requires FilesAccepted(db, files) <==> DiskKeysUnique(d.archive) && SlotsOk(db, files)
    requires FilesAccepted(db, files) ==> ArchiveWritten(db, files, now, d.archive)
    modifies conn
    ensures WriteOutcome(db, events, now, r, conn.session.committed, Quiet(old(conn.faults)))
    ensures conn.session.pending == conn.session.committed
  {
    FilePositions(db, events);
    ghost var quiet := Quiet(conn.faults);
    assert SlotsOk(d, files) <==> SlotsOk(db, files);
    var ok := RecordFiles(conn, db, d, files, now);
    if !ok { RefusedOutcome(db, events, now, conn.Thrown(), quiet); return Failed(conn.Thrown()); }
    if FilesAccepted(db, files) { RecordedIsWritten(db, events, now, d, conn.session.pending); }
    r := CommitBatch(conn, db, events, now);
  }

  /** The rest of both programs once the archive rows are in: verify, record, commit. */
  method FinishBatch(conn: Conn, ghost db: Db, events: seq<Item>, files: seq<FileEvent>, now: nat,
                     archive: map<nat, ArchiveRow>) returns (r: Result)
    requires TapeAccepts(db, events) && files == Files(events) && SchemaHolds(db)
    requires conn.InTxn(db, TapeUpdated(db, events)) && Inserted(db, files, now, archive)
    requires FilesAccepted(db, files) ==> forall f | f in files :: f.info.archiveFileId in archive
    requires forall f | f in files :: LeftOut(db, archive, f)
    modifies conn
    ensures WriteOutcome(db, events, now, r, conn.session.committed, Quiet(old(conn.faults)))
    ensures conn.session.pending == conn.session.committed
  {
    AcceptedIff(db, files, now, archive);
    ghost var quiet := Quiet(conn.faults);
    var d := conn.session.pending.(archive := archive);
    var ok := conn.Statement(Some(d));
    if !ok { RefusedOutcome(db, events, now, conn.Thrown(), quiet); return Failed(conn.Thrown()); }
    var error := VerifyAgainstArchive(files, archive);
    if error.Some? {
      FoundIsExplained(db, events, now, archive, error.value);
      conn.Rollback();
      RefusedOutcome(db, events, now, error.value, quiet);
      return Failed(error.value);
    }
    r := RecordAndCommit(conn, db, events, files, now, d);
  }

  method PostgresBatch(conn: Conn, events: seq<Item>, now: nat) returns (r: Result)
    requires Idle(conn.session) && conn.session.backend.Postgres? && SchemaHolds(conn.session.committed) && events != []
    modifies conn
    ensures WriteOutcome(old(conn.session.committed), events, now, r, conn.session.committed, Quiet(old(conn.faults)))
    ensures conn.session.pending == conn.session.committed
  {
    ghost var db := conn.session.committed;
    var error, files := BeginBatch(conn, events);
    if error.Some? { return Failed(error.value); }
    if files == [] { r := CommitPlaceholders(conn, db, events, now); return; }
    var inserted := InsertOnConflictDoNothing(conn.session.pending, files, now);
    if inserted.None? { RefuseInstance(conn, db, events, files); return Failed(DatabaseError); }
    InsertedCongruent(db, conn.session.pending, files, now, inserted.value);
    assert FilesAccepted(db, files) ==> forall f | f in files :: f.info.archiveFileId in inserted.value by {
      if FilesAccepted(db, files) { AllInserted(db, files); }
    }
    r := FinishBatch(conn, db, events, files, now, inserted.value);
  }

  method OracleBatch(conn: Conn, events: seq<Item>, now: nat) returns (r: Result)
    requires Idle(conn.session) && conn.session.backend.Oracle? && SchemaHolds(conn.session.committed) && events != []
    modifies conn
    ensures WriteOutcome(old(conn.session.committed), events, now, r, conn.session.committed, Quiet(old(conn.faults)))
    ensures conn.session.pending == conn.session.committed
  {
    ghost var db := conn.session.committed;
    var error, files := BeginBatch(conn, events);
    if error.Some? { return Failed(error.value); }
    if files == [] { r := CommitPlaceholders(conn, db, events, now); return; }
    var inserted := InsertBatchErrorMode(conn.session.pending, files, now);
    if inserted.None? { RefuseInstance(conn, db, events, files); return Failed(DatabaseError); }
    InsertedCongruent(db, conn.session.pending, files, now, inserted.value);
    assert FilesAccepted(db, files) ==> forall f | f in files :: f.info.archiveFileId in inserted.value by {
      if FilesAccepted(db, files) {
        AllInserted(db, files);
        forall f | f in files && IsNew(db, f) && f.info.archiveFileId !in inserted.value
          ensures !KeyTaken(inserted.value, f) {
          NothingIgnored(db, files, now, inserted.value, f);
        }
      }
    }
    r := FinishBatch(conn, db, events, files, now, inserted.value);
  }

  /** PostgresCatalogue::filesWrittenToTape. */
  method PostgresFilesWrittenToTape(conn: Conn, events: seq<Item>, now: nat) returns (r: Result)
    requires Idle(conn.session) && conn.session.backend.Postgres? && SchemaHolds(conn.session.committed)
    modifies conn
    ensures WriteOutcome(old(conn.session.committed), events, now, r, conn.session.committed, Quiet(old(conn.faults)))
    ensures ItemsOutcome(old(conn.session.committed), events, now, r, conn.session.committed, Quiet(old(conn.faults)))
    ensures conn.session.pending == conn.session.committed
  {
    if events == [] { return Done; }
    r := PostgresBatch(conn, events, now);
    OutcomeOfItems(old(conn.session.committed), events, now, r, conn.session.committed, Quiet(old(conn.faults)));
  }

  /** OracleCatalogue::filesWrittenToTape. */
  method OracleFilesWrittenToTape(conn: Conn, events: seq<Item>, now: nat) returns (r: Result)
    requires Idle(conn.session) && conn.session.backend.Oracle? && SchemaHolds(conn.session.committed)
    modifies conn
    ensures WriteOutcome(old(conn.session.committed), events, now, r, conn.session.committed, Quiet(old(conn.faults)))
    ensures ItemsOutcome(old(conn.session.committed), events, now, r, conn.session.committed, Quiet(old(conn.faults)))
    ensures conn.session.pending == conn.session.committed
  {
    if events == [] { return Done; }
    r := OracleBatch(conn, events, now);
    OutcomeOfItems(old(conn.session.committed), events, now, r, conn.session.committed, Quiet(old(conn.faults)));
  }

  /** In an acceptable batch every file that is new to the catalogue names a known storage class. */
  lemma AllInserted(db: Db, files: seq<FileEvent>)
    requires FilesAccepted(db, files)
    ensures forall f | f in files :: IsNew(db, f) ==> StorageKnown(db, f)
  {
    forall f | f in files ensures IsNew(db, f) ==> StorageKnown(db, f) { assert ArchiveAgrees(db, f); }
  }

  method CommitPlaceholders(conn: Conn, ghost db: Db, events: seq<Item>, now: nat) returns (r: Result)
    requires TapeAccepts(db, events) && Files(events) == [] && conn.InTxn(db, TapeUpdated(db, events))
    modifies conn
    ensures WriteOutcome(db, events, now, r, conn.session.committed, Quiet(old(conn.faults)))
    ensures conn.session.pending == conn.session.committed
  {
    NoFilesIsWritten(db, events, now);
    var ok, lost := conn.Commit(true);
    r := if ok then Done else Failed(if lost then ConnectionLost else DatabaseError);
  }

  /** The insert of the archive rows failed on the foreign key to DISK_INSTANCE. */
  method RefuseInstance(conn: Conn, ghost db: Db, ghost events: seq<Item>, ghost files: seq<FileEvent>)
    requires TapeAccepts(db, events) && files == Files(events) && conn.InTxn(db, TapeUpdated(db, events))
    requires exists f | f in files :: NoInstance(TapeUpdated(db, events), f)
    modifies conn
    ensures conn.Clean(db) && !Accepts(db, events)
  {
    conn.Rollback();
    ghost var f :| f in files && NoInstance(TapeUpdated(db, events), f);
    assert NoInstance(db, f);
    NoInstanceIsRefused(db, files);
  }

  /** From the same tables and the same batch, with nothing going wrong, the two programs both refuse
      and change nothing, or both commit and leave the same tables. */
  lemma WritersAgree(db: Db, events: seq<Item>, now: nat, p: Result, dbP: Db, o: Result, dbO: Db)
    requires WriteOutcome(db, events, now, p, dbP, true) && WriteOutcome(db, events, now, o, dbO, true)
    ensures p.Done? <==> o.Done?
    ensures SameTables(dbP, dbO)
    ensures p.Failed? ==> dbP == db && dbO == db
  {
    if events != [] && p.Done? { WrittenIsUnique(db, events, now, dbP, dbO); }
  }

  // ----- retrying -----

  /** Once committed, a batch is out of sequence. */
  lemma WrittenIsOutOfSequence(db: Db, events: seq<Item>, now: nat, db': Db)
    requires Accepts(db, events) && Written(db, events, now, db')
    ensures OutOfSequence(db', events)
  {
    assert events[0].fSeq == db.tapes[events[0].vid].lastFSeq + 1 + 0;
    FilePositions(db, events);
    assert events[0].fSeq != db'.tapes[events[0].vid].lastFSeq + 1 + 0;
  }

  lemma WriteKeepsSchema(db: Db, events: seq<Item>, now: nat, db': Db)
    requires SchemaHolds(db) && Accepts(db, events) && Written(db, events, now, db')
    ensures SchemaHolds(db')
  {
    var fs := Files(events);
    WriteKeepsDiskKeys(db, fs, now, db'.archive);
    FilePositions(db, events);
    forall p | p in db'.live ensures p.vid in db'.tapes && db'.live[p].archiveFileId in db'.archive {
      var f := RowAfterWrite(db, fs, now, db'.live, p);
      assert f.Some? ==> f.value.info.archiveFileId in NewIds(fs);
    }
  }
}

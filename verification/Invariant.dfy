/** What every catalogue operation keeps. */
module Invariant {
  import opened Tables
  import opened Batch

  predicate Bounded(db: Db, p: Pos) {
    p.vid in db.tapes && 1 <= p.fSeq <= db.tapes[p.vid].lastFSeq
  }

  /** No recorded position, live or recycled, lies above LAST_FSEQ of its tape. */
  predicate PositionsBounded(db: Db) {
    && (forall p | p in db.live :: Bounded(db, p))
    && (forall e | e in db.log :: Bounded(db, e.pos))
  }

  predicate DistinctPositions(log: seq<LogEntry>) {
    forall i, j | 0 <= i < j < |log| :: log[i].pos != log[j].pos
  }

  /** A position is recorded at most once across TAPE_FILE and FILE_RECYCLE_LOG. */
  predicate PositionsUnique(db: Db) {
    && (forall e | e in db.log :: e.pos !in db.live)
    && DistinctPositions(db.log)
  }

  predicate SameCopy(a: TapeFile, b: TapeFile) {
    a.archiveFileId == b.archiveFileId && a.copyNb == b.copyNb
  }

  /** At most one live copy for an archive file and copy number. */
  predicate OneCopyPerNumber(live: map<Pos, TapeFile>) {
    forall p, q | p in live && q in live && p != q :: !SameCopy(live[p], live[q])
  }

  /** Every live copy has its archive row, and every archive row a live copy. */
  predicate ArchiveIffLive(db: Db) {
    && (forall p | p in db.live :: db.live[p].archiveFileId in db.archive)
    && (forall id | id in db.archive :: CopiesOf(db, id) != {})
  }

  predicate BlocksUnique(live: map<Pos, TapeFile>) {
    forall p, q | p in live && q in live && p != q && p.vid == q.vid :: live[p].blockId != live[q].blockId
  }

  predicate ReferencesExist(db: Db) {
    && (forall id | id in db.archive ::
          db.archive[id].storageClass in db.storageClasses && db.archive[id].diskInstance in db.diskInstances)
    && (forall e | e in db.log ::
          e.archive.storageClass in db.storageClasses && e.archive.diskInstance in db.diskInstances)
  }

  predicate Inv(db: Db) {
    && PositionsBounded(db) && PositionsUnique(db) && OneCopyPerNumber(db.live) && ArchiveIffLive(db)
    && BlocksUnique(db.live) && DiskKeysUnique(db.archive) && ReferencesExist(db)
  }

  /** Every live copy has the size of its archive file. */
  predicate LiveSizesAgree(db: Db) {
    forall p | p in db.live && db.live[p].archiveFileId in db.archive ::
      db.live[p].size == db.archive[db.live[p].archiveFileId].size
  }

  /** Recycled copies of one archive file agree on its size, among themselves and with the catalogue. */
  predicate LogSizesAgree(db: Db) {
    && (forall e | e in db.log && e.archiveFileId in db.archive :: e.archive.size == db.archive[e.archiveFileId].size)
    && (forall e, f | e in db.log && f in db.log && e.archiveFileId == f.archiveFileId ::
      e.archive.size == f.archive.size)
  }

  predicate Sizes(db: Db) {
    LiveSizesAgree(db) && LogSizesAgree(db)
  }

  /** The guard that writes need for the sizes: an archive file that the batch creates afresh has the
      size under which the recycle log still knows it. */
  predicate AgreesWithLog(db: Db, fs: seq<FileEvent>) {
    forall f, e | f in fs && e in db.log && IsNew(db, f) && f.info.archiveFileId == e.archiveFileId ::
      e.archive.size == f.info.size
  }

  // ----- writing a batch -----

  lemma InSuffix(a: seq<LogEntry>, b: seq<LogEntry>, e: LogEntry)
    requires a <= b
    ensures e in b <==> e in a || e in b[|a|..]
  {
    assert b == a + b[|a|..];
  }

  /** The rows a batch adds to the recycle log are the displaced live rows. */
  lemma LogAfterWrite(db: Db, events: seq<Item>, now: nat, db': Db, e: LogEntry)
    requires events != [] && Written(db, events, now, db')
    ensures e in db'.log <==> e in db.log || e in RepackEntries(db, Files(events), db'.archive, now)
  {
    InSuffix(db.log, db'.log, e);
    var s := db'.log[|db.log|..];
    assert e in s <==> e in (set x | x in s);
  }

  /** Where a live row comes from: a file event of the batch, or an undisplaced old row. */
  lemma RowAfterWrite(db: Db, fs: seq<FileEvent>, now: nat, live: map<Pos, TapeFile>, p: Pos)
    returns (f: Option<FileEvent>)
    requires FilesAccepted(db, fs) && LiveWritten(db, fs, now, live) && p in live
    ensures f.Some? ==> f.value in fs && f.value.pos == p && p !in db.live && live[p] == NewTapeFile(f.value, now)
    ensures f.None? ==> p in db.live && !Displaces(fs, p, db.live[p]) && live[p] == db.live[p]
  {
    if p in NewPositions(fs) {
      var g :| g in fs && g.pos == p;
      assert SlotFree(db, g);
      f := Some(g);
    } else {
      f := None;
    }
  }

  /** Where an archive row comes from: a file event of the batch, or an old row. */
  lemma ArchiveAfterWrite(db: Db, fs: seq<FileEvent>, now: nat, archive: map<nat, ArchiveRow>, id: nat)
    returns (f: Option<FileEvent>)
    requires FilesAccepted(db, fs) && ArchiveWritten(db, fs, now, archive) && id in archive
    ensures f.Some? ==> f.value in fs && f.value.info.archiveFileId == id && IsNew(db, f.value)
                        && archive[id] == NewRow(f.value, now) && ArchiveAgrees(db, f.value)
    ensures f.None? ==> id in db.archive && archive[id] == db.archive[id]
  {
    if id in db.archive {
      f := None;
    } else {
      assert id in NewIds(fs);
      var g :| g in fs && g.info.archiveFileId == id;
      f := Some(g);
    }
  }

  lemma WriteKeepsBounds(db: Db, events: seq<Item>, now: nat, db': Db)
    requires Accepts(db, events) && Written(db, events, now, db') && PositionsBounded(db)
    ensures PositionsBounded(db')
  {
    FilePositions(db, events);
    forall e | e in db'.log ensures Bounded(db', e.pos) {
      LogAfterWrite(db, events, now, db', e);
      assert Bounded(db, e.pos);
    }
    forall p | p in db'.live ensures Bounded(db', p) {
      var f := RowAfterWrite(db, Files(events), now, db'.live, p);
      assert f.None? ==> Bounded(db, p);
    }
  }

  lemma BoundedIsNotNew(db: Db, events: seq<Item>, p: Pos)
    requires TapeAccepts(db, events) && Bounded(db, p)
    ensures p !in NewPositions(Files(events))
  {
    FilePositions(db, events);
  }

  /** The new positions are above every recorded one, and only displaced rows go to the log. */
  lemma WriteKeepsDisjoint(db: Db, events: seq<Item>, now: nat, db': Db, e: LogEntry)
    requires TapeAccepts(db, events) && Written(db, events, now, db') && PositionsUnique(db) && PositionsBounded(db)
    requires e in db'.log
    ensures e.pos !in db'.live
  {
    LogAfterWrite(db, events, now, db', e);
    assert e in db.log || e.pos in Displaced(db, Files(events));
    BoundedIsNotNew(db, events, e.pos);
  }

  lemma WriteKeepsLogPositions(db: Db, fs: seq<FileEvent>, now: nat, db': Db)
    requires LogWritten(db, fs, now, db') && PositionsUnique(db)
    ensures DistinctPositions(db'.log)
  {
    var n := |db.log|;
    var s := db'.log[n..];
    forall i | 0 <= i < |s| ensures s[i] in RepackEntries(db, fs, db'.archive, now) {
      assert s[i] in (set x | x in s);
    }
    forall i, j | 0 <= i < j < |db'.log| ensures db'.log[i].pos != db'.log[j].pos {
      if j < n {
        assert db'.log[i] == db.log[i] && db'.log[j] == db.log[j];
      } else if i < n {
        assert db'.log[i] == db.log[i] && db.log[i] in db.log && db'.log[j] == s[j - n];
      } else {
        assert db'.log[i] == s[i - n] && db'.log[j] == s[j - n] && s[i - n] != s[j - n];
      }
    }
  }

  /** A live row that is not displaced differs from every new row in file or copy number. */
  lemma WriteKeepsOneCopy(db: Db, fs: seq<FileEvent>, now: nat, live: map<Pos, TapeFile>)
    requires FilesAccepted(db, fs) && LiveWritten(db, fs, now, live) && OneCopyPerNumber(db.live)
    ensures OneCopyPerNumber(live)
  {
    forall p, q | p in live && q in live && p != q ensures !SameCopy(live[p], live[q]) {
      var f := RowAfterWrite(db, fs, now, live, p);
      var g := RowAfterWrite(db, fs, now, live, q);
      if f.Some? && g.Some? { BatchIdsDiffer(fs, f.value, g.value); }
    }
  }

  lemma WriteKeepsBlocks(db: Db, fs: seq<FileEvent>, now: nat, live: map<Pos, TapeFile>)
    requires FilesAccepted(db, fs) && LiveWritten(db, fs, now, live) && BlocksUnique(db.live)
    ensures BlocksUnique(live)
  {
    forall p, q | p in live && q in live && p != q && p.vid == q.vid ensures live[p].blockId != live[q].blockId {
      var f := RowAfterWrite(db, fs, now, live, p);
      var g := RowAfterWrite(db, fs, now, live, q);
      if f.Some? && g.Some? {
        BatchBlocksDiffer(db, fs, f.value, g.value);
      } else if f.Some? {
        assert SlotFree(db, f.value);
      } else if g.Some? {
        assert SlotFree(db, g.value);
      }
    }
  }

  lemma BatchIdsDiffer(fs: seq<FileEvent>, f: FileEvent, g: FileEvent)
    requires DistinctIds(fs) && f in fs && g in fs && f != g
    ensures f.info.archiveFileId != g.info.archiveFileId
  {
    var i :| 0 <= i < |fs| && fs[i] == f;
    var j :| 0 <= j < |fs| && fs[j] == g;
  }

  lemma BatchBlocksDiffer(db: Db, fs: seq<FileEvent>, f: FileEvent, g: FileEvent)
    requires FilesAccepted(db, fs) && f in fs && g in fs && f != g
    ensures NoClash(db, f, g)
  {
    var i :| 0 <= i < |fs| && fs[i] == f;
    var j :| 0 <= j < |fs| && fs[j] == g;
    assert if i < j then NoClash(db, fs[i], fs[j]) else NoClash(db, fs[j], fs[i]);
  }

  lemma WriteKeepsArchiveIffLive(db: Db, fs: seq<FileEvent>, now: nat, db': Db)
    requires FilesAccepted(db, fs) && LiveWritten(db, fs, now, db'.live) && ArchiveWritten(db, fs, now, db'.archive)
    requires ArchiveIffLive(db)
    ensures ArchiveIffLive(db')
  {
    forall p | p in db'.live ensures db'.live[p].archiveFileId in db'.archive {
      var f := RowAfterWrite(db, fs, now, db'.live, p);
      assert f.Some? ==> f.value.info.archiveFileId in NewIds(fs);
    }
    forall id | id in db'.archive ensures CopiesOf(db', id) != {} {
      if f :| f in fs && f.info.archiveFileId == id {
        assert f.pos in NewPositions(fs) && f.pos in CopiesOf(db', id);
      } else {
        var f := ArchiveAfterWrite(db, fs, now, db'.archive, id);
        assert CopiesOf(db, id) != {};
        var p :| p in CopiesOf(db, id);
        assert forall f | f in fs :: SlotFree(db, f);
        assert p !in NewPositions(fs) && p !in Displaced(db, fs);
        assert p in CopiesOf(db', id);
      }
    }
  }

  lemma WriteKeepsDiskKeys(db: Db, fs: seq<FileEvent>, now: nat, archive: map<nat, ArchiveRow>)
    requires FilesAccepted(db, fs) && ArchiveWritten(db, fs, now, archive) && DiskKeysUnique(db.archive)
    ensures DiskKeysUnique(archive)
  {
    forall a, b | a in archive && b in archive && a != b ensures !SameDiskKey(archive[a], archive[b]) {
      var f := ArchiveAfterWrite(db, fs, now, archive, a);
      var g := ArchiveAfterWrite(db, fs, now, archive, b);
      if f.Some? && g.Some? {
        BatchBlocksDiffer(db, fs, f.value, g.value);
      } else if f.Some? {
        assert !DiskKeyOf(db.archive[b], f.value);
      } else if g.Some? {
        assert !DiskKeyOf(db.archive[a], g.value);
      }
    }
  }

  lemma WriteKeepsReferences(db: Db, events: seq<Item>, now: nat, db': Db)
    requires Accepts(db, events) && Written(db, events, now, db') && ReferencesExist(db)
    ensures ReferencesExist(db')
  {
    forall id | id in db'.archive ensures
      db'.archive[id].storageClass in db'.storageClasses && db'.archive[id].diskInstance in db'.diskInstances
    {
      var f := ArchiveAfterWrite(db, Files(events), now, db'.archive, id);
    }
    forall e | e in db'.log ensures
      e.archive.storageClass in db'.storageClasses && e.archive.diskInstance in db'.diskInstances
    {
      LogAfterWrite(db, events, now, db', e);
    }
  }

  /** An accepted batch keeps the invariant. */
  lemma WriteKeepsInv(db: Db, events: seq<Item>, now: nat, db': Db)
    requires Inv(db) && Accepts(db, events) && Written(db, events, now, db')
    ensures Inv(db')
  {
    WriteKeepsBounds(db, events, now, db');
    forall e | e in db'.log ensures e.pos !in db'.live { WriteKeepsDisjoint(db, events, now, db', e); }
    WriteKeepsLogPositions(db, Files(events), now, db');
    WriteKeepsOneCopy(db, Files(events), now, db'.live);
    WriteKeepsArchiveIffLive(db, Files(events), now, db');
    WriteKeepsBlocks(db, Files(events), now, db'.live);
    WriteKeepsDiskKeys(db, Files(events), now, db'.archive);
    WriteKeepsReferences(db, events, now, db');
  }

  lemma WriteKeepsLiveSizes(db: Db, fs: seq<FileEvent>, now: nat, db': Db)
    requires FilesAccepted(db, fs) && LiveWritten(db, fs, now, db'.live) && ArchiveWritten(db, fs, now, db'.archive)
    requires LiveSizesAgree(db) && ArchiveIffLive(db)
    ensures LiveSizesAgree(db')
  {
    forall p | p in db'.live && db'.live[p].archiveFileId in db'.archive
      ensures db'.live[p].size == db'.archive[db'.live[p].archiveFileId].size
    {
      var f := RowAfterWrite(db, fs, now, db'.live, p);
      var g := ArchiveAfterWrite(db, fs, now, db'.archive, db'.live[p].archiveFileId);
      if f.Some? && g.Some? {
        SameIndex(fs, f.value, g.value);
      } else if f.Some? {
        assert ArchiveAgrees(db, f.value);
      }
    }
  }

  lemma WriteKeepsLogSizes(db: Db, events: seq<Item>, now: nat, db': Db)
    requires Accepts(db, events) && Written(db, events, now, db')
    requires LogSizesAgree(db) && AgreesWithLog(db, Files(events))
    ensures LogSizesAgree(db')
  {
    forall e | e in db'.log && e.archiveFileId in db'.archive
      ensures e.archive.size == db'.archive[e.archiveFileId].size
    {
      LogAfterWrite(db, events, now, db', e);
      var f := ArchiveAfterWrite(db, Files(events), now, db'.archive, e.archiveFileId);
    }
    forall e, g | e in db'.log && g in db'.log && e.archiveFileId == g.archiveFileId
      ensures e.archive.size == g.archive.size
    {
      LogAfterWrite(db, events, now, db', e);
      LogAfterWrite(db, events, now, db', g);
      assert (e in db.log && g in db.log) || e.archiveFileId in db'.archive;
    }
  }

  /** A batch keeps the sizes of live and recycled copies in agreement if and only if it creates no
      archive file afresh under a size other than the one its recycled copies had. */
  lemma WriteKeepsSizesIff(db: Db, events: seq<Item>, now: nat, db': Db)
    requires Inv(db) && Sizes(db) && Accepts(db, events) && Written(db, events, now, db')
    ensures Sizes(db') <==> AgreesWithLog(db, Files(events))
  {
    var fs := Files(events);
    WriteKeepsLiveSizes(db, fs, now, db');
    if AgreesWithLog(db, fs) { WriteKeepsLogSizes(db, events, now, db'); }
    if LogSizesAgree(db') {
      forall f, e | f in fs && e in db.log && IsNew(db, f) && f.info.archiveFileId == e.archiveFileId
        ensures e.archive.size == f.info.size
      {
        assert f.info.archiveFileId in NewIds(fs) && db'.archive[f.info.archiveFileId] == NewRow(f, now);
        LogAfterWrite(db, events, now, db', e);
      }
    }
  }

  /** Under the invariant the primary key of TAPE_FILE never stops a batch: its positions lie above
      every position on record. */
  lemma NewPositionsAreFree(db: Db, events: seq<Item>, f: FileEvent)
    requires PositionsBounded(db) && TapeAccepts(db, events) && f in Files(events)
    ensures f.pos !in db.live && forall e | e in db.log :: e.pos != f.pos
  {
    FilePositions(db, events);
    assert f.pos in db.live ==> Bounded(db, f.pos);
    forall e | e in db.log ensures e.pos != f.pos { assert Bounded(db, e.pos); }
  }
}

/** A batch of items reported as written to tape (filesWrittenToTape): when the catalogue takes it,
    and what it then holds. Both are stated on the tables before and after, without reference to
    the order in which either database program works. */
module Batch {
  import opened Tables

  const TWO64: nat := 0x1_0000_0000_0000_0000

  datatype FileInfo = FileInfo(
    archiveFileId: nat, diskInstance: string, diskFileId: string, ownerUid: nat, gid: nat,
    size: nat, checksum: string, storageClass: string, blockId: nat, copyNb: nat)

  /** One event: a file, or a placeholder that only consumes a sequence number. */
  datatype Item = Item(vid: Vid, fSeq: nat, tapeDrive: string, file: Option<FileInfo>)

  /** A file event with the position it was written at. */
  datatype FileEvent = FileEvent(pos: Pos, info: FileInfo)

  predicate ItemFieldsSet(i: Item) {
    i.vid != "" && i.fSeq != 0 && i.tapeDrive != ""
  }

  predicate FileFieldsSet(i: Item, f: FileInfo) {
    && f.diskInstance != "" && f.diskFileId != "" && f.ownerUid != 0 && f.size != 0
    && f.checksum != "" && f.storageClass != "" && i.vid != "" && i.fSeq != 0
    && !(f.blockId == 0 && i.fSeq != 1) && f.copyNb != 0 && i.tapeDrive != ""
  }

  predicate FieldsSet(i: Item) {
    ItemFieldsSet(i) && (i.file.Some? ==> FileFieldsSet(i, i.file.value))
  }

  predicate WellFormed(events: seq<Item>) {
    forall k | 0 <= k < |events| :: FieldsSet(events[k]) && events[k].vid == events[0].vid
  }

  predicate Consecutive(events: seq<Item>, lastFSeq: nat) {
    forall k | 0 <= k < |events| :: events[k].fSeq == lastFSeq + 1 + k
  }

  function Files(events: seq<Item>): seq<FileEvent> {
    if events == [] then []
    else
      var rest := Files(events[..|events| - 1]);
      var i := events[|events| - 1];
      if i.file.Some? then rest + [FileEvent(Pos(i.vid, i.fSeq), i.file.value)] else rest
  }

  function SumSizes(files: seq<FileEvent>): nat {
    if files == [] then 0 else SumSizes(files[..|files| - 1]) + files[|files| - 1].info.size
  }

  predicate DistinctIds(fs: seq<FileEvent>) {
    forall i, j | 0 <= i < j < |fs| :: fs[i].info.archiveFileId != fs[j].info.archiveFileId
  }

  function NewRow(f: FileEvent, now: nat): ArchiveRow {
    ArchiveRow(f.info.diskInstance, f.info.diskFileId, f.info.ownerUid, f.info.gid,
               f.info.size, f.info.checksum, f.info.storageClass, now)
  }

  function NewTapeFile(f: FileEvent, now: nat): TapeFile {
    TapeFile(f.info.archiveFileId, f.info.copyNb, f.info.blockId, f.info.size, now)
  }

  predicate DiskKeyOf(row: ArchiveRow, f: FileEvent) {
    row.diskInstance == f.info.diskInstance && row.diskFileId == f.info.diskFileId
  }

  /** The archive file of `f` can be found or created, and agrees with the event. */
  predicate ArchiveAgrees(db: Db, f: FileEvent) {
    var id := f.info.archiveFileId;
    if id in db.archive then
      db.archive[id].size == f.info.size && db.archive[id].checksum == f.info.checksum
    else
      && f.info.storageClass in db.storageClasses
      && f.info.diskInstance in db.diskInstances
      && (forall a | a in db.archive :: !DiskKeyOf(db.archive[a], f))
  }

  /** The tape file of `f` breaks no constraint of TAPE_FILE. */
  predicate SlotFree(db: Db, f: FileEvent) {
    f.pos !in db.live && BlockFree(db.live, f.pos.vid, f.info.blockId)
  }

  predicate IsNew(db: Db, f: FileEvent) {
    f.info.archiveFileId !in db.archive
  }

  /** Two files of one batch do not collide with each other. */
  predicate NoClash(db: Db, f: FileEvent, g: FileEvent) {
    && f.info.blockId != g.info.blockId
    && (IsNew(db, f) && IsNew(db, g) ==>
          f.info.diskInstance != g.info.diskInstance || f.info.diskFileId != g.info.diskFileId)
  }

  predicate FilesAccepted(db: Db, fs: seq<FileEvent>) {
    && DistinctIds(fs)
    && (forall i | 0 <= i < |fs| :: ArchiveAgrees(db, fs[i]) && SlotFree(db, fs[i]))
    && (forall i, j | 0 <= i < j < |fs| :: NoClash(db, fs[i], fs[j]))
  }

  predicate TapeAccepts(db: Db, events: seq<Item>) {
    && events != []
    && WellFormed(events)
    && events[0].vid in db.tapes
    && Consecutive(events, db.tapes[events[0].vid].lastFSeq)
  }

  /** Exactly the batches that the catalogue commits. */
  predicate Accepts(db: Db, events: seq<Item>) {
    TapeAccepts(db, events) && FilesAccepted(db, Files(events))
  }

  /** The live rows that the batch replaces: same archive file and copy number, other position. */
  predicate Displaces(fs: seq<FileEvent>, p: Pos, row: TapeFile) {
    exists f | f in fs ::
      f.info.archiveFileId == row.archiveFileId && f.info.copyNb == row.copyNb && f.pos != p
  }

  function Displaced(db: Db, fs: seq<FileEvent>): set<Pos> {
    set p | p in db.live && Displaces(fs, p, db.live[p])
  }

  function NewPositions(fs: seq<FileEvent>): set<Pos> {
    set f | f in fs :: f.pos
  }

  function NewIds(fs: seq<FileEvent>): set<nat> {
    set f | f in fs :: f.info.archiveFileId
  }

  /** TAPE after updateTape: placeholders move LAST_FSEQ and count for nothing else. */
  function UpdatedTape(t: Tape, events: seq<Item>): Tape
    requires events != []
  {
    var fs := Files(events);
    t.(lastFSeq := events[|events| - 1].fSeq,
       dataInBytes := t.dataInBytes + SumSizes(fs) % TWO64,
       nbMasterFiles := t.nbMasterFiles + |fs|)
  }

  predicate ArchiveWritten(db: Db, fs: seq<FileEvent>, now: nat, archive: map<nat, ArchiveRow>) {
    && archive.Keys == db.archive.Keys + NewIds(fs)
    && (forall id | id in db.archive :: archive[id] == db.archive[id])
    && (forall f | f in fs && IsNew(db, f) :: archive[f.info.archiveFileId] == NewRow(f, now))
  }

  predicate LiveWritten(db: Db, fs: seq<FileEvent>, now: nat, live: map<Pos, TapeFile>) {
    && live.Keys == (db.live.Keys - Displaced(db, fs)) + NewPositions(fs)
    && (forall p | p in db.live && p !in Displaced(db, fs) && p in live :: live[p] == db.live[p])
    && (forall f | f in fs && f.pos in live :: live[f.pos] == NewTapeFile(f, now))
  }

  /** The displaced rows, as they must appear in the recycle log. */
  function RepackEntries(db: Db, fs: seq<FileEvent>, archive: map<nat, ArchiveRow>, now: nat): set<LogEntry>
  {
    set p | p in Displaced(db, fs) && db.live[p].archiveFileId in archive ::
      EntryFor(p, db.live[p], archive[db.live[p].archiveFileId], REPACK_REASON, now)
  }

  predicate LogWritten(db: Db, fs: seq<FileEvent>, now: nat, db': Db) {
    && db.log <= db'.log
    && Enumerates(db'.log[|db.log|..], RepackEntries(db, fs, db'.archive, now))
  }

  /** `db'` is `db` after the batch: every file event is the live row for its archive file and copy
      number, exactly the rows it displaced are added to the recycle log with reason REPACK, and
      every other row is as before. */
  predicate Written(db: Db, events: seq<Item>, now: nat, db': Db)
    requires events != []
  {
    var fs := Files(events);
    var vid := events[0].vid;
    && vid in db.tapes
    && db'.tapes == db.tapes[vid := UpdatedTape(db.tapes[vid], events)]
    && db'.storageClasses == db.storageClasses
    && db'.diskInstances == db.diskInstances
    && ArchiveWritten(db, fs, now, db'.archive)
    && LiveWritten(db, fs, now, db'.live)
    && LogWritten(db, fs, now, db')
  }

  /** Equal tables, with the recycle log taken without its order. */
  predicate SameTables(a: Db, b: Db) {
    && a.tapes == b.tapes && a.storageClasses == b.storageClasses && a.diskInstances == b.diskInstances
    && a.archive == b.archive && a.live == b.live && multiset(a.log) == multiset(b.log)
  }

  // ---------------------------------------------------------------------------------------------

  /** Every file event of a batch comes from one of its items. */
  lemma {:induction false} FilesFrom(events: seq<Item>, f: FileEvent) returns (k: nat)
    requires f in Files(events)
    ensures k < |events| && events[k].file == Some(f.info) && f.pos == Pos(events[k].vid, events[k].fSeq)
  {
    var n := |events| - 1;
    if events[n].file.Some? && f == FileEvent(Pos(events[n].vid, events[n].fSeq), events[n].file.value) {
      k := n;
    } else {
      k := FilesFrom(events[..n], f);
    }
  }

  lemma {:induction false} FilesContain(events: seq<Item>, k: nat)
    requires k < |events| && events[k].file.Some?
    ensures FileEvent(Pos(events[k].vid, events[k].fSeq), events[k].file.value) in Files(events)
  {
    var n := |events| - 1;
    if k < n { FilesContain(events[..n], k); }
  }

  /** In a consecutive batch the file positions increase strictly. */
  lemma {:induction false} FilePositionsIncrease(events: seq<Item>, last: nat)
    requires Consecutive(events, last)
    ensures forall i, j | 0 <= i < j < |Files(events)| :: Files(events)[i].pos.fSeq < Files(events)[j].pos.fSeq
    ensures forall i | 0 <= i < |Files(events)| :: last < Files(events)[i].pos.fSeq <= last + |events|
  {
    if events != [] { FilePositionsIncrease(events[..|events| - 1], last); }
  }

  /** The positions of an accepted batch lie just above LAST_FSEQ on its one tape. */
  lemma FilePositions(db: Db, events: seq<Item>)
    requires TapeAccepts(db, events)
    ensures forall f | f in Files(events) ::
      && f.pos.vid == events[0].vid
      && db.tapes[events[0].vid].lastFSeq < f.pos.fSeq <= events[|events| - 1].fSeq
    ensures forall i, j | 0 <= i < j < |Files(events)| :: Files(events)[i].pos != Files(events)[j].pos
    ensures events[|events| - 1].fSeq == db.tapes[events[0].vid].lastFSeq + |events|
  {
    FilePositionsIncrease(events, db.tapes[events[0].vid].lastFSeq);
    forall f | f in Files(events) ensures f.pos.vid == events[0].vid {
      var k := FilesFrom(events, f);
    }
  }

  lemma SameIndex(fs: seq<FileEvent>, f: FileEvent, g: FileEvent)
    requires DistinctIds(fs) && f in fs && g in fs && f.info.archiveFileId == g.info.archiveFileId
    ensures f == g
  {
    var i :| 0 <= i < |fs| && fs[i] == f;
    var j :| 0 <= j < |fs| && fs[j] == g;
  }

  /** What a batch writes is determined, up to the order of the rows it adds to the recycle log. */
  lemma WrittenIsUnique(db: Db, events: seq<Item>, now: nat, a: Db, b: Db)
    requires Accepts(db, events) && Written(db, events, now, a) && Written(db, events, now, b)
    ensures SameTables(a, b)
  {
    var fs := Files(events);
    forall id | id in a.archive ensures a.archive[id] == b.archive[id] {
      if id !in db.archive {
        assert id in NewIds(fs);
        var f :| f in fs && f.info.archiveFileId == id;
      }
    }
    assert a.archive == b.archive;
    forall p | p in a.live ensures a.live[p] == b.live[p] {
      if p in NewPositions(fs) {
        var f :| f in fs && f.pos == p;
      }
    }
    assert a.live == b.live;
    var n := |db.log|;
    EnumerationsPermute(a.log[n..], b.log[n..], RepackEntries(db, fs, a.archive, now));
    assert a.log == db.log + a.log[n..] && b.log == db.log + b.log[n..];
  }
}

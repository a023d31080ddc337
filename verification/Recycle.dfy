/** The effects, on the tables, of moving copies to the recycle log, restoring them, purging the log
    and reclaiming a tape. */
module Recycle {
  import opened Tables

  datatype Copy = Copy(pos: Pos, row: TapeFile)

  /** An archive file as a caller read it earlier (getArchiveFileById, getArchiveFileForDeletion). */
  datatype ArchiveFile = ArchiveFile(id: nat, diskInstance: string, copies: seq<Copy>)

  datatype DeleteRequest = DeleteRequest(
    archiveFileId: nat, diskInstance: string, diskFilePath: string, requester: string,
    archiveFile: Option<ArchiveFile>)

  function Filter<T(!new)>(s: seq<T>, keep: T -> bool): (r: seq<T>)
    ensures forall x :: x in r <==> x in s && keep(x)
    ensures |r| <= |s|
  {
    if s == [] then []
    else
      var n := |s| - 1;
      if keep(s[n]) then Filter(s[..n], keep) + [s[n]] else Filter(s[..n], keep)
  }

  // ----- moving copies to the recycle log -----

  /** INSERT INTO FILE_RECYCLE_LOG ... SELECT FROM ARCHIVE_FILE: without the archive row, no insert. */
  function InsertLog(db: Db, id: nat, c: Copy, reason: string, now: nat): Db {
    if id in db.archive then
      db.(log := db.log + [EntryFor(c.pos, c.row.(archiveFileId := id), db.archive[id], reason, now)])
    else db
  }

  function LogCopies(db: Db, id: nat, copies: seq<Copy>, reason: string, now: nat): Db {
    if copies == [] then db
    else
      var n := |copies| - 1;
      InsertLog(LogCopies(db, id, copies[..n], reason, now), id, copies[n], reason, now)
  }

  /** UPDATE TAPE SET DIRTY for every tape with a copy of the file. */
  function SetDirty(db: Db, id: nat): Db {
    db.(tapes := map v | v in db.tapes ::
          if (exists p | p in CopiesOf(db, id) :: p.vid == v) then db.tapes[v].(dirty := true) else db.tapes[v])
  }

  function DeleteCopiesOf(db: Db, id: nat): Db {
    db.(live := db.live - CopiesOf(db, id))
  }

  function Positions(copies: seq<Copy>): set<Pos> {
    set c | c in copies :: c.pos
  }

  function DeleteAt(db: Db, copies: seq<Copy>): Db {
    db.(live := db.live - Positions(copies))
  }

  function DeletionReason(req: DeleteRequest): string {
    "File deleted by " + req.requester + " from the " + req.diskInstance + " instance"
  }

  function AdminReason(reason: string): string {
    "(Deleted using cta-admin tf rm) " + reason
  }

  /** checkDeleteRequestConsistency. */
  predicate RequestConsistent(req: DeleteRequest, a: ArchiveFile) {
    req.diskInstance == a.diskInstance && req.diskFilePath != ""
  }

  /** FILE_RECYCLE_LOG_VID_FK: every tape that a row to be logged names exists. */
  predicate TapesKnown(db: Db, a: ArchiveFile) {
    a.id in db.archive ==> forall c | c in a.copies :: c.pos.vid in db.tapes
  }

  /** The tables after moveArchiveFileToRecycleLog for the caller's snapshot `a`. */
  function MovedFile(db: Db, req: DeleteRequest, a: ArchiveFile, now: nat): Db {
    var d1 := LogCopies(db, a.id, a.copies, DeletionReason(req), now);
    var d2 := SetDirty(d1, req.archiveFileId);
    var d3 := DeleteCopiesOf(d2, req.archiveFileId);
    d3.(archive := d3.archive - {req.archiveFileId})
  }

  /** The tables after deleteTapeFileCopy for the caller's snapshot `a`. */
  function MovedCopies(db: Db, a: ArchiveFile, reason: string, now: nat): Db {
    DeleteAt(SetDirty(LogCopies(db, a.id, a.copies, AdminReason(reason), now), a.id), a.copies)
  }

  /** What getArchiveFileById would return now: the file with all its live copies. */
  predicate IsCurrent(db: Db, a: ArchiveFile) {
    && a.id in db.archive
    && a.diskInstance == db.archive[a.id].diskInstance
    && NoDup(a.copies)
    && (forall c | c in a.copies :: c.pos in db.live && db.live[c.pos] == c.row && c.row.archiveFileId == a.id)
    && (forall p | p in CopiesOf(db, a.id) :: Copy(p, db.live[p]) in a.copies)
  }

  /** getArchiveFileForDeletion succeeded on `vid`: of the file's several copies, the only one there. */
  predicate ForDeletion(db: Db, vid: Vid, a: ArchiveFile) {
    && a.id in db.archive
    && a.diskInstance == db.archive[a.id].diskInstance
    && |CopiesOf(db, a.id)| != 1
    && |a.copies| == 1
    && (forall p | p in CopiesOf(db, a.id) && p.vid == vid :: p == a.copies[0].pos)
    && a.copies[0].pos.vid == vid
    && a.copies[0].pos in db.live && a.copies[0].row == db.live[a.copies[0].pos]
    && a.copies[0].row.archiveFileId == a.id
  }

  // ----- restoring an entry -----

  /** RecycleTapeFileSearchCriteria. */
  datatype Criteria = Criteria(
    vid: Option<Vid>, archiveFileId: Option<nat>, diskFileIds: Option<seq<string>>,
    diskInstance: Option<string>, copyNb: Option<nat>)

  predicate Matches(c: Criteria, e: LogEntry) {
    && (c.vid.Some? ==> e.pos.vid == c.vid.value)
    && (c.archiveFileId.Some? ==> e.archiveFileId == c.archiveFileId.value)
    && (c.diskFileIds.Some? ==> e.archive.diskFileId in c.diskFileIds.value)
    && (c.diskInstance.Some? ==> e.archive.diskInstance == c.diskInstance.value)
    && (c.copyNb.Some? ==> e.copyNb == c.copyNb.value)
  }

  /** The rows of the recycle-log iterator: the matching entries, joined with STORAGE_CLASS. */
  function Matching(db: Db, c: Criteria): seq<LogEntry> {
    Filter(db.log, Listed(c, db.storageClasses))
  }

  function Listed(c: Criteria, storageClasses: set<string>): LogEntry -> bool {
    e => Matches(c, e) && e.archive.storageClass in storageClasses
  }

  /** getArchiveFileById finds the file: an archive row joined with at least one live copy. */
  predicate Visible(db: Db, id: nat) {
    id in db.archive && db.archive[id].storageClass in db.storageClasses && CopiesOf(db, id) != {}
  }

  function RestoredRow(e: LogEntry, newFid: string, now: nat): ArchiveRow {
    e.archive.(diskFileId := newFid, creationTime := now)
  }

  /** insertTapeFile stamps the creation time with the current time. */
  function RestoredTapeFile(e: LogEntry, now: nat): TapeFile {
    TapeFile(e.archiveFileId, e.copyNb, e.blockId, e.archive.size, now)
  }

  /** The archive row is there, or can be inserted, and no live copy has this copy number. */
  predicate ArchiveRestorable(db: Db, e: LogEntry, newFid: string) {
    var id := e.archiveFileId;
    if Visible(db, id) then
      forall p | p in CopiesOf(db, id) :: db.live[p].copyNb != e.copyNb
    else
      && e.archive.storageClass in db.storageClasses
      && e.archive.diskInstance in db.diskInstances
      && id !in db.archive
      && DiskKeyFree(db.archive, e.archive.(diskFileId := newFid))
  }

  /** The tape file can be inserted. */
  predicate CopyRestorable(db: Db, e: LogEntry) {
    e.pos.vid in db.tapes && e.pos !in db.live && BlockFree(db.live, e.pos.vid, e.blockId)
  }

  predicate Restorable(db: Db, c: Criteria, newFid: string) {
    && (c.vid.Some? ==> c.vid.value in db.tapes)
    && |Matching(db, c)| == 1
    && ArchiveRestorable(db, Matching(db, c)[0], newFid)
    && CopyRestorable(db, Matching(db, c)[0])
  }

  function WithArchive(db: Db, e: LogEntry, newFid: string, now: nat): Db {
    if Visible(db, e.archiveFileId) then db
    else db.(archive := db.archive[e.archiveFileId := RestoredRow(e, newFid, now)])
  }

  /** The state that insertTapeFile commits: the copy is live again and still in the recycle log. */
  function HalfRestored(db: Db, e: LogEntry, newFid: string, now: nat): Db {
    var d := WithArchive(db, e, newFid, now);
    d.(live := d.live[e.pos := RestoredTapeFile(e, now)])
  }

  predicate SameLogKey(a: LogEntry, b: LogEntry) {
    && a.archiveFileId == b.archiveFileId && a.pos == b.pos && a.copyNb == b.copyNb
    && a.archive.diskInstance == b.archive.diskInstance
  }

  function DeleteLog(db: Db, e: LogEntry): Db {
    db.(log := Filter(db.log, NotKey(e)))
  }

  function NotKey(e: LogEntry): LogEntry -> bool {
    x => !SameLogKey(x, e)
  }

  function Restored(db: Db, e: LogEntry, newFid: string, now: nat): Db {
    DeleteLog(HalfRestored(db, e, newFid, now), e)
  }

  // ----- purging and reclaiming -----

  function Purged(db: Db, vid: Vid): Db {
    db.(log := Filter(db.log, OffTape(vid)))
  }

  function OffTape(vid: Vid): LogEntry -> bool {
    (e: LogEntry) => e.pos.vid != vid
  }

  predicate Reclaimable(db: Db, vid: Vid) {
    vid in db.tapes && db.tapes[vid].full && forall p | p in db.live :: p.vid != vid
  }

  function Reclaimed(db: Db, vid: Vid): Db
    requires vid in db.tapes
  {
    Purged(db, vid).(tapes := db.tapes[vid := Tape(0, 0, 0, false, false)])
  }

  // ----- facts about the effects -----

  lemma {:induction false} LogCopiesIs(db: Db, id: nat, copies: seq<Copy>, reason: string, now: nat)
    ensures LogCopies(db, id, copies, reason, now) == db.(log := LogCopies(db, id, copies, reason, now).log)
    ensures id !in db.archive ==> LogCopies(db, id, copies, reason, now) == db
    ensures id in db.archive ==>
      var log := LogCopies(db, id, copies, reason, now).log;
      && |log| == |db.log| + |copies| && log[..|db.log|] == db.log
      && forall i | 0 <= i < |copies| ::
           log[|db.log| + i] ==
             EntryFor(copies[i].pos, copies[i].row.(archiveFileId := id), db.archive[id], reason, now)
  {
    if copies != [] { LogCopiesIs(db, id, copies[..|copies| - 1], reason, now); }
  }

  /** The positions the recycle log mentions, with repetitions. */
  function LogPositions(log: seq<LogEntry>): multiset<Pos> {
    if log == [] then multiset{}
    else LogPositions(log[..|log| - 1]) + multiset{log[|log| - 1].pos}
  }

  function CopyPositions(copies: seq<Copy>): multiset<Pos> {
    if copies == [] then multiset{}
    else CopyPositions(copies[..|copies| - 1]) + multiset{copies[|copies| - 1].pos}
  }

  /** Every position on record, live or in the recycle log, with repetitions. */
  function AllPositions(db: Db): multiset<Pos> {
    multiset(db.live.Keys) + LogPositions(db.log)
  }

  lemma {:induction false} LogPositionsConcat(a: seq<LogEntry>, b: seq<LogEntry>)
    ensures LogPositions(a + b) == LogPositions(a) + LogPositions(b)
  {
    if b == [] { assert a + b == a; }
    else {
      assert (a + b)[..|a + b| - 1] == a + b[..|b| - 1];
      LogPositionsConcat(a, b[..|b| - 1]);
    }
  }

  lemma {:induction false} LogCopiesPositions(db: Db, id: nat, copies: seq<Copy>, reason: string, now: nat)
    requires id in db.archive
    ensures LogPositions(LogCopies(db, id, copies, reason, now).log) == LogPositions(db.log) + CopyPositions(copies)
  {
    LogCopiesIs(db, id, copies, reason, now);
    if copies != [] {
      var n := |copies| - 1;
      LogCopiesIs(db, id, copies[..n], reason, now);
      LogCopiesPositions(db, id, copies[..n], reason, now);
      var d := LogCopies(db, id, copies[..n], reason, now);
      var log := LogCopies(db, id, copies, reason, now).log;
      assert log[..|log| - 1] == d.log;
    }
  }

  /** Removing `gone` from the live keys and adding `added` to the log balances iff they are equal. */
  lemma Balance(before: set<Pos>, gone: set<Pos>, log: multiset<Pos>, added: multiset<Pos>)
    requires gone <= before
    ensures multiset(before - gone) + (log + added) == multiset(before) + log <==> added == multiset(gone)
  {
    var l, r := multiset(before - gone) + (log + added), multiset(before) + log;
    forall p ensures l[p] == r[p] <==> added[p] == multiset(gone)[p] {
      assert multiset(before)[p] == multiset(before - gone)[p] + multiset(gone)[p];
    }
    if l == r {
      forall p ensures added[p] == multiset(gone)[p] { assert l[p] == r[p]; }
    }
  }

  /** What a copy of `a` adds to the recorded positions: nothing if the archive row is gone. */
  function Added(db: Db, a: ArchiveFile): multiset<Pos> {
    if a.id in db.archive then CopyPositions(a.copies) else multiset{}
  }

  lemma MovedFileIs(db: Db, req: DeleteRequest, a: ArchiveFile, now: nat)
    ensures var after := MovedFile(db, req, a, now);
      && after.live == db.live - CopiesOf(db, req.archiveFileId)
      && after.archive == db.archive - {req.archiveFileId}
      && after.log == LogCopies(db, a.id, a.copies, DeletionReason(req), now).log
      && LogPositions(after.log) == LogPositions(db.log) + Added(db, a)
  {
    LogCopiesIs(db, a.id, a.copies, DeletionReason(req), now);
    if a.id in db.archive { LogCopiesPositions(db, a.id, a.copies, DeletionReason(req), now); }
    var d := SetDirty(LogCopies(db, a.id, a.copies, DeletionReason(req), now), req.archiveFileId);
    assert CopiesOf(d, req.archiveFileId) == CopiesOf(db, req.archiveFileId);
  }

  lemma MovedCopiesIs(db: Db, a: ArchiveFile, reason: string, now: nat)
    ensures var after := MovedCopies(db, a, reason, now);
      && after.live == db.live - Positions(a.copies)
      && after.archive == db.archive
      && after.log == LogCopies(db, a.id, a.copies, AdminReason(reason), now).log
      && LogPositions(after.log) == LogPositions(db.log) + Added(db, a)
  {
    LogCopiesIs(db, a.id, a.copies, AdminReason(reason), now);
    if a.id in db.archive { LogCopiesPositions(db, a.id, a.copies, AdminReason(reason), now); }
  }

  /** Moving an archive file conserves the recorded positions if and only if the caller's snapshot
      names the live positions of the requested file, each once (or there is nothing to move). */
  lemma MovedFileConservesIff(db: Db, req: DeleteRequest, a: ArchiveFile, now: nat)
    ensures AllPositions(MovedFile(db, req, a, now)) == AllPositions(db) <==>
      Added(db, a) == multiset(CopiesOf(db, req.archiveFileId))
  {
    var gone := CopiesOf(db, req.archiveFileId);
    MovedFileIs(db, req, a, now);
    assert MovedFile(db, req, a, now).live.Keys == db.live.Keys - gone;
    Balance(db.live.Keys, gone, LogPositions(db.log), Added(db, a));
  }

  /** Moving single copies conserves the recorded positions if and only if the snapshot lists
      positions that are live, each once (or there is nothing to move). */
  lemma MovedCopiesConserveIff(db: Db, a: ArchiveFile, reason: string, now: nat)
    ensures AllPositions(MovedCopies(db, a, reason, now)) == AllPositions(db) <==>
      Added(db, a) == multiset(db.live.Keys * Positions(a.copies))
  {
    var gone := db.live.Keys * Positions(a.copies);
    MovedCopiesIs(db, a, reason, now);
    assert MovedCopies(db, a, reason, now).live.Keys == db.live.Keys - gone;
    Balance(db.live.Keys, gone, LogPositions(db.log), Added(db, a));
  }

  lemma {:induction false} CopyPositionsOf(copies: seq<Copy>, p: Pos)
    ensures p in CopyPositions(copies) <==> p in Positions(copies)
    ensures (forall i, j | 0 <= i < j < |copies| :: copies[i].pos != copies[j].pos) ==>
      CopyPositions(copies)[p] <= 1
  {
    if copies != [] {
      var n := |copies| - 1;
      CopyPositionsOf(copies[..n], p);
      assert Positions(copies) == Positions(copies[..n]) + {copies[n].pos} by {
        assert copies == copies[..n] + [copies[n]];
      }
      if p == copies[n].pos && p in Positions(copies[..n]) {
        var c :| c in copies[..n] && c.pos == p;
        var i :| 0 <= i < n && copies[i] == c;
        assert copies[i].pos == copies[n].pos;
      }
    }
  }

  lemma CopyPositionsSet(copies: seq<Copy>)
    requires forall i, j | 0 <= i < j < |copies| :: copies[i].pos != copies[j].pos
    ensures CopyPositions(copies) == multiset(Positions(copies))
  {
    forall p ensures CopyPositions(copies)[p] == multiset(Positions(copies))[p] { CopyPositionsOf(copies, p); }
  }

  lemma CurrentPositions(db: Db, a: ArchiveFile)
    requires IsCurrent(db, a)
    ensures Positions(a.copies) == CopiesOf(db, a.id)
  {
    forall p | p in CopiesOf(db, a.id) ensures p in Positions(a.copies) {
      assert Copy(p, db.live[p]) in a.copies;
    }
  }

  /** A snapshot that is still current conserves. */
  lemma CurrentSnapshotConserves(db: Db, req: DeleteRequest, a: ArchiveFile, now: nat)
    requires IsCurrent(db, a) && a.id == req.archiveFileId
    ensures Positions(a.copies) == CopiesOf(db, a.id)
    ensures AllPositions(MovedFile(db, req, a, now)) == AllPositions(db)
  {
    CurrentPositions(db, a);
    CopyPositionsSet(a.copies);
    MovedFileConservesIff(db, req, a, now);
  }
}

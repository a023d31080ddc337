/** Small catalogues on which a promise of the code fails. All names are one arbitrary string `s`. */
module Examples {
  import opened Tables
  import opened Recycle
  import opened RecycleRows
  import opened Invariant
  import opened Sessions
  import opened Transactions
  import opened Restore
  import opened ArchiveFileStream
  import opened ArchiveFileListing
  import opened ArchiveFileRepack
  import opened TapeContents

  function SomeRow(s: string, fid: string): ArchiveRow {
    ArchiveRow(s, fid, 1, 1, 10, s, s, 0)
  }

  function SomeDb(s: string, last: nat, archive: map<nat, ArchiveRow>, live: map<Pos, TapeFile>,
      log: seq<LogEntry>): Db {
    Db(map[s := Tape(last, 0, 0, false, false)], {s}, {s}, archive, live, log)
  }

  const FIRST := TapeFile(1, 1, 1, 10, 0)
  const SECOND := TapeFile(1, 2, 2, 10, 0)
  const OTHER := TapeFile(2, 1, 3, 10, 0)

  // ----- a stale snapshot -----

  /** The copy of archive file 1 was rewritten by repack from fSeq 1 to fSeq 2. */
  function Repacked(s: string): Db {
    SomeDb(s, 2, map[1 := SomeRow(s, s)], map[Pos(s, 2) := TapeFile(1, 1, 2, 10, 0)],
           [EntryFor(Pos(s, 1), FIRST, SomeRow(s, s), REPACK_REASON, 0)])
  }

  lemma RepackedIsSound(s: string)
    ensures Inv(Repacked(s)) && CopiesOf(Repacked(s), 1) == {Pos(s, 2)}
  {
    assert Pos(s, 2) in CopiesOf(Repacked(s), 1);
  }

  /** The caller read the file before it was repacked. */
  function BeforeRepack(s: string): ArchiveFile {
    ArchiveFile(1, s, [Copy(Pos(s, 1), FIRST)])
  }

  /** On a sound catalogue a stale snapshot records fSeq 1 twice and loses fSeq 2. */
  lemma StaleSnapshotLosesACopy(s: string, now: nat)
    requires s != ""
    ensures var db, a := Repacked(s), BeforeRepack(s);
      var req := DeleteRequest(1, s, s, s, Some(a));
      var after := MovedFile(db, req, a, now);
      && Inv(db) && RequestConsistent(req, a) && TapesKnown(db, a)
      && AllPositions(db) == multiset{Pos(s, 1), Pos(s, 2)}
      && AllPositions(after) == multiset{Pos(s, 1), Pos(s, 1)}
  {
    var db, a := Repacked(s), BeforeRepack(s);
    var req := DeleteRequest(1, s, s, s, Some(a));
    RepackedIsSound(s);
    MovedFileIs(db, req, a, now);
    LogCopiesIs(db, 1, a.copies, DeletionReason(req), now);
    LogCopiesPositions(db, 1, a.copies, DeletionReason(req), now);
    assert LogPositions(db.log) == multiset{Pos(s, 1)} by { assert db.log[..0] == []; }
    assert CopyPositions(a.copies) == multiset{Pos(s, 1)} by { assert a.copies[..0] == []; }
    assert db.live.Keys == {Pos(s, 2)};
    assert MovedFile(db, req, a, now).live.Keys == {};
  }

  // ----- a file that came back under another disk instance -----

  /** Copy 1 of archive file 1 was deleted from instance `s`; the file was then created again from instance
      `t`, with copy 2. */
  function Recreated(s: string, t: string): Db {
    Db(map[s := Tape(2, 0, 0, false, false)], {s}, {s, t},
       map[1 := SomeRow(s, s).(diskInstance := t)], map[Pos(s, 2) := SECOND],
       [EntryFor(Pos(s, 1), FIRST, SomeRow(s, s), s, 0)])
  }

  lemma RecreatedIsSound(s: string, t: string)
    ensures Inv(Recreated(s, t)) && CopiesOf(Recreated(s, t), 1) == {Pos(s, 2)}
  {
    assert Pos(s, 2) in CopiesOf(Recreated(s, t), 1);
  }

  /** Asked for the copy of instance `s`, a restore succeeds and makes it a copy of the file of instance `t`. */
  lemma RestoredUnderOtherInstance(s: string, t: string, newFid: string, now: nat)
    requires s != t
    ensures var db, c := Recreated(s, t), Criteria(None, Some(1), None, Some(s), Some(1));
      && Inv(db) && Restorable(db, c, newFid)
      && var after := Restored(db, Matching(db, c)[0], newFid, now);
         && Pos(s, 1) in after.live && after.live[Pos(s, 1)].archiveFileId == 1
         && 1 in after.archive && after.archive[1].diskInstance == t
  {
    var db, c := Recreated(s, t), Criteria(None, Some(1), None, Some(s), Some(1));
    RecreatedIsSound(s, t);
    assert OnlyRow(db, c, 0);
    RecreatedMayReturn(s, t, newFid);
    RestorableIff(db, c, newFid);
    MatchingIsOnlyRow(db, c);
    RestoredIs(db, db.log[0], newFid, now);
  }

  lemma RecreatedMayReturn(s: string, t: string, newFid: string)
    ensures MayReturn(Recreated(s, t), Recreated(s, t).log[0], newFid)
  {
    assert Recreated(s, t).live[Pos(s, 2)].archiveFileId == 1;
  }

  // ----- two neighbouring copies of one file -----

  /** Archive file 1 has its two copies next to each other on one tape. */
  function Neighbours(s: string): Db {
    SomeDb(s, 2, map[1 := SomeRow(s, s)], map[Pos(s, 1) := FIRST, Pos(s, 2) := SECOND], [])
  }

  /** A catalogue with an empty recycle log, whose rows fit together, satisfies the invariant. */
  lemma SoundIf(s: string, last: nat, archive: map<nat, ArchiveRow>, live: map<Pos, TapeFile>)
    requires forall p | p in live :: p.vid == s && 1 <= p.fSeq <= last && live[p].archiveFileId in archive
    requires OneCopyPerNumber(live) && BlocksUnique(live) && DiskKeysUnique(archive)
    requires forall id | id in archive :: archive[id].storageClass == s && archive[id].diskInstance == s
    requires forall id | id in archive :: CopiesOf(SomeDb(s, last, archive, live, []), id) != {}
    ensures Inv(SomeDb(s, last, archive, live, []))
  {
  }

  lemma NeighboursAreSound(s: string)
    ensures Inv(Neighbours(s)) && CopiesOf(Neighbours(s), 1) == {Pos(s, 1), Pos(s, 2)}
  {
    var db := Neighbours(s);
    assert Pos(s, 1) in CopiesOf(db, 1);
    NeighboursDoNotClash(s);
    SoundIf(s, 2, db.archive, db.live);
  }

  lemma NeighboursDoNotClash(s: string)
    ensures OneCopyPerNumber(Neighbours(s).live) && BlocksUnique(Neighbours(s).live)
  {
    assert !SameCopy(FIRST, SECOND) && !SameCopy(SECOND, FIRST);
  }

  lemma NeighboursToRepack(s: string, tape: seq<Pos>)
    requires TapeFiles(Neighbours(s), s, 1, tape)
    ensures tape == [Pos(s, 1), Pos(s, 2)]
  {
    var xs := {Pos(s, 1), Pos(s, 2)};
    assert ToRepack(Neighbours(s), s, 1) == xs;
    EnumerationIsSet(tape, xs);
    assert |multiset(tape)| == |tape| && |xs| == 2;
    assert tape[0] in tape && tape[1] in tape;
    EnumeratesMember(tape, xs, tape[0]);
    EnumeratesMember(tape, xs, tape[1]);
  }

  /** Repacking the tape, whatever the order of the query's rows, returns the file once with each of its
      copies twice. */
  lemma RepackDoublesCopies(s: string, pairs: seq<Pair>, tape: seq<Pos>)
    requires QueryRows(Neighbours(s), s, 1, pairs) && TapeFiles(Neighbours(s), s, 1, tape)
    ensures Inv(Neighbours(s)) && Readable(Neighbours(s), CopyColumn(pairs))
    ensures var files := Files(Rows(Neighbours(s), pairs), 0);
      && |files| == 1 && !OnePerTapeFile(Neighbours(s), tape, files)
      && multiset(PositionsIn(files[0].copies)) == multiset{Pos(s, 1), Pos(s, 1), Pos(s, 2), Pos(s, 2)}
  {
    var db := Neighbours(s);
    NeighboursAreSound(s);
    NeighboursToRepack(s, tape);
    PairsReadable(db, s, 1, pairs);
    FirstBlock(db, s, 1, pairs, tape);
    RunLists(db, s, 1, pairs, tape, 0, 2);
  }

  /** The listing of the tape names the file twice. */
  lemma ContentsRepeatFile(s: string, ps: seq<Pos>)
    requires var c := SearchCriteria(None, None, Some(s), None, None);
      Enumerates(ps, Selected(Neighbours(s), c)) && Readable(Neighbours(s), ps) && ByFSeq(ps)
    ensures Inv(Neighbours(s))
    ensures var files := Contents(RowsOf(Neighbours(s), ps));
      |files| == 2 && files[0].id == files[1].id == 1
  {
    var db := Neighbours(s);
    var c := SearchCriteria(None, None, Some(s), None, None);
    NeighboursAreSound(s);
    assert Selected(db, c) == {Pos(s, 1), Pos(s, 2)};
    EnumerationIsSet(ps, Selected(db, c));
    assert |multiset(ps)| == |ps| && |Selected(db, c)| == 2;
    assert ps[0] in ps && ps[1] in ps;
  }

  // ----- another file's copy in between -----

  /** The copies of archive file 1 lie around the copy of archive file 2. */
  function Broken(s: string, fid: string): Db {
    SomeDb(s, 3, map[1 := SomeRow(s, s), 2 := SomeRow(s, fid)],
           map[Pos(s, 1) := FIRST, Pos(s, 2) := OTHER, Pos(s, 3) := SECOND], [])
  }

  lemma BrokenLiveIsSound(s: string, fid: string)
    ensures OneCopyPerNumber(Broken(s, fid).live) && BlocksUnique(Broken(s, fid).live)
  {
    assert !SameCopy(FIRST, SECOND) && !SameCopy(FIRST, OTHER) && !SameCopy(SECOND, OTHER);
    assert !SameCopy(SECOND, FIRST) && !SameCopy(OTHER, FIRST) && !SameCopy(OTHER, SECOND);
  }

  lemma BrokenRowsFit(s: string, fid: string)
    ensures var db := Broken(s, fid);
      && (forall p | p in db.live :: p.vid == s && 1 <= p.fSeq <= 3 && db.live[p].archiveFileId in db.archive)
      && (forall id | id in db.archive :: db.archive[id].storageClass == s && db.archive[id].diskInstance == s)
  {
  }

  lemma BrokenIsSound(s: string, fid: string)
    requires fid != s
    ensures Inv(Broken(s, fid))
  {
    var db := Broken(s, fid);
    BrokenArchiveIsSound(s, fid);
    BrokenLiveIsSound(s, fid);
    BrokenRowsFit(s, fid);
    SoundIf(s, 3, db.archive, db.live);
  }

  lemma BrokenArchiveIsSound(s: string, fid: string)
    requires fid != s
    ensures DiskKeysUnique(Broken(s, fid).archive)
    ensures forall id | id in Broken(s, fid).archive :: CopiesOf(Broken(s, fid), id) != {}
  {
    var db := Broken(s, fid);
    assert Pos(s, 1) in CopiesOf(db, 1) && Pos(s, 2) in CopiesOf(db, 2);
  }

  lemma BrokenIsBroken(s: string, fid: string)
    ensures !Unbroken(Broken(s, fid), Selected(Broken(s, fid), SearchCriteria(None, Some(s), Some(s), None, None)))
  {
    var selected := Selected(Broken(s, fid), SearchCriteria(None, Some(s), Some(s), None, None));
    assert Pos(s, 1) in selected && Pos(s, 2) in selected && Pos(s, 3) in selected;
    assert IdAt(Broken(s, fid), Pos(s, 1)) == IdAt(Broken(s, fid), Pos(s, 3)) != IdAt(Broken(s, fid), Pos(s, 2));
  }

  /** A search by tape and disk instance names archive file 1 twice. */
  lemma BrokenTapeRepeatsFile(s: string, fid: string, ps: seq<Pos>, rank: string -> int)
    requires fid != s
    requires var c := SearchCriteria(None, Some(s), Some(s), None, None);
      var db := Broken(s, fid);
      Enumerates(ps, Selected(db, c)) && Readable(db, ps) && Ordered(db, c, ps, rank)
    ensures Inv(Broken(s, fid)) && !DistinctIds(Files(RowsOf(Broken(s, fid), ps), 0))
  {
    BrokenIsSound(s, fid);
    BrokenIsBroken(s, fid);
    BrokenRepeats(Broken(s, fid), SearchCriteria(None, Some(s), Some(s), None, None), s, ps, rank);
  }

  /** Wherever the copies of a file are broken, some file is named twice. */
  lemma BrokenRepeats(db: Db, c: SearchCriteria, vid: Vid, ps: seq<Pos>, rank: string -> int)
    requires c.vid == Some(vid) && !TapeOnly(c)
    requires Enumerates(ps, Selected(db, c)) && Readable(db, ps) && Ordered(db, c, ps, rank)
    requires !Unbroken(db, Selected(db, c))
    ensures !DistinctIds(Files(RowsOf(db, ps), 0))
  {
    TapeListedOnceIff(db, c, vid, ps, rank);
    ListedOnceIff(db, Selected(db, c), ps);
    OnceIffContiguous(RowsOf(db, ps));
  }

  // ----- half a move on Oracle -----

  /** Oracle refuses to mark the tape dirty, and the connection survives: the copy is then both live and
      in the recycle log. */
  lemma RefusedStatementHalfMoves(s: string, now: nat)
    ensures Inv(Neighbours(s))
    ensures var a := ArchiveFile(1, s, [Copy(Pos(s, 1), FIRST)]);
      var session := Session(Oracle, Neighbours(s), Neighbours(s), true, false, true);
      var d := Outcome(ApplyStmt, session, MoveCopyLines(Oracle, a, s, now), [NoFault, NoFault, StatementError]);
      Pos(s, 1) in d.live && exists e | e in d.log :: e.pos == Pos(s, 1)
  {
    var db := Neighbours(s);
    var c := Copy(Pos(s, 1), FIRST);
    var a := ArchiveFile(1, s, [c]);
    var session := Session(Oracle, db, db, true, false, true);
    var faults := [NoFault, NoFault, StatementError];
    NeighboursAreSound(s);
    HalfMovedOnOracleIff(session, a, s, now, faults);
    OneStatementRuns(db, a, c, s, now, faults);
  }

  lemma OneStatementRuns(db: Db, a: ArchiveFile, c: Copy, reason: string, now: nat, faults: seq<Fault>)
    requires a.copies == [c] && a.id in db.archive && c.pos.vid in db.tapes
    requires faults == [NoFault, NoFault, StatementError]
    ensures Reach(ApplyStmt, db, MoveCopyStmts(a, reason, now), faults, 1) == 1
  {
    var stmts := MoveCopyStmts(a, reason, now);
    assert a.copies[..0] == [];
    assert stmts == [InsertLogRow(a.id, c, AdminReason(reason), now), MarkDirty(a.id), DeleteLiveAt(c.pos)];
    var logged := InsertLog(db, a.id, c, AdminReason(reason), now);
    OneAndTwoEffects(db, stmts, logged, SetDirty(logged, a.id));
    assert stmts[..2][..1] == stmts[..1] && stmts[..1][..0] == [];
    assert Reach(ApplyStmt, db, stmts[..1], faults, 1) == 1;
    assert Reach(ApplyStmt, db, stmts[..2], faults, 1) == 1;
  }

  // ----- half a restore -----

  /** The second copy of archive file 1 is live, the first is in the recycle log. */
  function Deleted(s: string): Db {
    SomeDb(s, 2, map[1 := SomeRow(s, s)], map[Pos(s, 2) := SECOND], [EntryFor(Pos(s, 1), FIRST, SomeRow(s, s), s, 0)])
  }

  lemma DeletedIsSound(s: string)
    ensures Inv(Deleted(s))
  {
    assert Pos(s, 2) in CopiesOf(Deleted(s), 1);
  }

  lemma DeletedIsRestorable(s: string, newFid: string)
    ensures var e := Deleted(s).log[0];
      e in Deleted(s).log && Visible(Deleted(s), 1) && EntryRestorable(Deleted(s), e, newFid) &&
        NumberFree(Deleted(s), e)
  {
    assert Pos(s, 2) in CopiesOf(Deleted(s), 1);
  }

  /** On both back ends: the delete from the recycle log is refused, or its connection is lost before
      it, and the copy is then both live and in the recycle log. */
  lemma RefusedDeleteHalfRestores(s: string, backend: Backend, newFid: string, now: nat, last: Fault)
    requires last.StatementError? || last.LostBefore?
    ensures Inv(Deleted(s))
    ensures var db := Deleted(s);
      var e := db.log[0];
      var session := Session(backend, db, db, true, false, true);
      var lines := RestoreLines(backend, db, e, newFid, now);
      var d := Outcome(ApplyStmt, session, lines, [NoFault, NoFault, NoFault, last]);
      d == HalfRestored(db, e, newFid, now) && e.pos in d.live && e in d.log
  {
    var db := Deleted(s);
    var e := db.log[0];
    DeletedIsSound(s);
    DeletedIsRestorable(s, newFid);
    RestoreOutcomes(Session(backend, db, db, true, false, true), e, newFid, now, [NoFault, NoFault, NoFault, last]);
  }
}

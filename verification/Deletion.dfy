/** getArchiveFileForDeletion: the copy to delete, found through the archive-file listing. */
module Deletion {
  import opened Tables
  import opened Recycle
  import opened ArchiveFileStream
  import opened ArchiveFileListing
  import opened TapeContents

  /** The search asks for one file, by its identifier or its disk file id and instance, and names a tape. */
  predicate WellAsked(c: SearchCriteria) {
    && (c.archiveFileId.Some? || c.diskFileIds.Some?)
    && (c.diskFileIds.Some? ==> c.diskInstance.Some?)
    && c.vid.Some?
  }

  /** All copies of the file are searched for, not only those on the tape. */
  function Everywhere(c: SearchCriteria): SearchCriteria {
    c.(vid := None)
  }

  function CopiesOn(db: Db, id: nat, vid: Vid): set<Pos> {
    set p | p in CopiesOf(db, id) && p.vid == vid
  }

  /** A search without a tape selects an archive file with all its copies or with none. */
  lemma SelectsWholeFiles(db: Db, c: SearchCriteria, p: Pos, q: Pos)
    requires c.vid.None? && c.fSeq.None? && p in Selected(db, c)
    requires q in db.live && IdAt(db, q) == IdAt(db, p)
    ensures q in Selected(db, c)
  {
  }

  /** The first file listed is that of the first row, with all its copies. */
  lemma FirstListed(db: Db, c: SearchCriteria, ps: seq<Pos>, rank: string -> int)
    requires DiskKeysUnique(db.archive) && Collation(rank) && c.vid.None? && c.fSeq.None? && ps != []
    requires Enumerates(ps, Selected(db, c)) && Readable(db, ps) && Ordered(db, c, ps, rank)
    ensures var files := Files(RowsOf(db, ps), 0);
      && files != [] && files[0].id == IdAt(db, ps[0]) && files[0].archive == db.archive[files[0].id]
      && Enumerates(PositionsIn(files[0].copies), CopiesOf(db, files[0].id))
      && forall x | x in files[0].copies :: x.pos in db.live && x.row == db.live[x.pos]
  {
    ListedOnce(db, c, ps, rank);
    var f := Files(RowsOf(db, ps), 0)[0];
    assert f in Files(RowsOf(db, ps), 0);
    assert ListsCopies(db, Selected(db, c), f);
    EnumeratesMember(ps, Selected(db, c), ps[0]);
    forall q | q in CopiesOf(db, f.id) ensures q in Selected(db, c) { SelectsWholeFiles(db, c, ps[0], q); }
    assert Selected(db, c) * CopiesOf(db, f.id) == CopiesOf(db, f.id);
  }

  /** removeAllVidsExcept. */
  method OnlyOn(copies: seq<Copy>, vid: Vid) returns (kept: seq<Copy>)
    requires NoDup(PositionsIn(copies))
    ensures NoDup(PositionsIn(kept))
    ensures forall x :: x in kept <==> x in copies && x.pos.vid == vid
  {
    kept := [];
    for i := 0 to |copies|
      invariant NoDup(PositionsIn(kept))
      invariant forall x :: x in kept <==> x in copies[..i] && x.pos.vid == vid
    {
      if copies[i].pos.vid == vid {
        forall k | 0 <= k < |kept| ensures kept[k].pos != copies[i].pos {
          assert kept[k] in kept;
          var j :| 0 <= j < i && copies[j] == kept[k];
          assert PositionsIn(copies)[j] != PositionsIn(copies)[i];
        }
        assert PositionsIn(kept + [copies[i]]) == PositionsIn(kept) + [copies[i].pos];
        kept := kept + [copies[i]];
      }
    }
  }

  lemma KeptAre(db: Db, id: nat, vid: Vid, copies: seq<Copy>, kept: seq<Copy>)
    requires Enumerates(PositionsIn(copies), CopiesOf(db, id)) && NoDup(PositionsIn(kept))
    requires forall x :: x in kept <==> x in copies && x.pos.vid == vid
    ensures Enumerates(PositionsIn(kept), CopiesOn(db, id, vid))
  {
    forall p ensures p in PositionsIn(kept) <==> p in CopiesOn(db, id, vid) {
      EnumeratesMember(PositionsIn(copies), CopiesOf(db, id), p);
      if p in CopiesOn(db, id, vid) {
        var j :| 0 <= j < |copies| && PositionsIn(copies)[j] == p;
        assert copies[j] in kept;
        var k :| 0 <= k < |kept| && kept[k] == copies[j];
        assert PositionsIn(kept)[k] == p;
      }
      if p in PositionsIn(kept) {
        var k :| 0 <= k < |kept| && PositionsIn(kept)[k] == p;
        assert kept[k] in kept;
        var j :| 0 <= j < |copies| && copies[j] == kept[k];
        assert PositionsIn(copies)[j] == p;
      }
    }
    assert (set p | p in PositionsIn(kept)) == CopiesOn(db, id, vid);
  }

  lemma OneKept(db: Db, f: File, vid: Vid, x: Copy)
    requires f.id in db.archive && f.archive == db.archive[f.id] && |CopiesOf(db, f.id)| != 1
    requires x.pos in db.live && x.row == db.live[x.pos] && Enumerates([x.pos], CopiesOn(db, f.id, vid))
    ensures ForDeletion(db, vid, ArchiveFile(f.id, f.archive.diskInstance, [x]))
  {
    EnumeratesMember([x.pos], CopiesOn(db, f.id, vid), x.pos);
    forall q | q in CopiesOf(db, f.id) && q.vid == vid ensures q == x.pos {
      EnumeratesMember([x.pos], CopiesOn(db, f.id, vid), q);
    }
  }

  /** The caller named the archive file: by its identifier, or by its disk file id and instance; and by all of
      what is given. */
  predicate Named(db: Db, c: SearchCriteria, id: nat) {
    && id in db.archive
    && (c.archiveFileId == Some(id) ||
          (c.archiveFileId.None? && c.diskFileIds.Some? && c.diskInstance == Some(db.archive[id].diskInstance)))
    && (c.diskFileIds.Some? ==> db.archive[id].diskFileId in c.diskFileIds.value)
    && (c.diskInstance.Some? ==> db.archive[id].diskInstance == c.diskInstance.value)
  }

  /** The search gives an identifier, or a single disk file id. */
  ghost predicate NamesOne(c: SearchCriteria) {
    c.archiveFileId.Some? || (c.diskFileIds.Some? && exists fid :: c.diskFileIds.value == {fid})
  }

  /** `a` holds one live copy, which is the archive file's only copy on the tape, and there is another copy
      elsewhere. */
  predicate OneOfSeveral(db: Db, vid: Vid, a: ArchiveFile) {
    && |a.copies| == 1 && a.id in db.archive && a.diskInstance == db.archive[a.id].diskInstance
    && var x := a.copies[0];
       && x.pos in db.live && x.pos.vid == vid && x.row == db.live[x.pos] && x.row.archiveFileId == a.id
       && (forall q | q in db.live && db.live[q].archiveFileId == a.id && q.vid == vid :: q == x.pos)
       && exists q | q in db.live :: db.live[q].archiveFileId == a.id && q.vid != vid
  }

  lemma NamedIsOnlyOne(db: Db, c: SearchCriteria, id: nat)
    requires DiskKeysUnique(db.archive) && NamesOne(c) && Named(db, c, id)
    ensures forall x | x in db.archive && Named(db, c, x) :: x == id
  {
    forall x | x in db.archive && Named(db, c, x) ensures x == id {
      if c.archiveFileId.None? {
        var fid :| c.diskFileIds.value == {fid};
        assert SameDiskKey(db.archive[x], db.archive[id]);
      }
    }
  }

  lemma FoundIsNamed(db: Db, c: SearchCriteria, ps: seq<Pos>)
    requires Enumerates(ps, Selected(db, Everywhere(c))) && ps != [] && Readable(db, ps)
    requires WellAsked(c)
    ensures ps[0] in db.live && Named(db, c, IdAt(db, ps[0]))
  {
    EnumeratesMember(ps, Selected(db, Everywhere(c)), ps[0]);
    SelectedIff(db, Everywhere(c), ps[0]);
  }

  lemma KeptIsOneOfSeveral(db: Db, vid: Vid, a: ArchiveFile)
    requires ForDeletion(db, vid, a)
    ensures OneOfSeveral(db, vid, a)
  {
    var p := a.copies[0].pos;
    assert p in CopiesOf(db, a.id);
    if CopiesOf(db, a.id) == {p} { assert false; }
    var q :| q in CopiesOf(db, a.id) && q != p;
    assert q.vid != vid;
  }

  /** Refused, with no copy returned, unless the search is well asked and finds a file that has several
      copies, exactly one of them on the tape; that copy of the first file found is returned. */
  method GetArchiveFileForDeletion(db: Db, c: SearchCriteria, ps: seq<Pos>, ghost rank: string -> int)
    returns (r: Option<ArchiveFile>)
    requires DiskKeysUnique(db.archive) && Collation(rank)
    requires Enumerates(ps, Selected(db, Everywhere(c))) && Readable(db, ps) && Ordered(db, Everywhere(c), ps, rank)
    ensures r.Some? ==>
      c.vid.Some? && ps != [] && r.value.id == IdAt(db, ps[0]) && ForDeletion(db, c.vid.value, r.value)
    ensures r.Some? <==>
      && WellAsked(c) && CriteriaOk(db, Everywhere(c)) && ps != []
      && |CopiesOf(db, IdAt(db, ps[0]))| > 1 && |CopiesOn(db, IdAt(db, ps[0]), c.vid.value)| == 1
    ensures r.Some? ==> Named(db, c, r.value.id) && OneOfSeveral(db, c.vid.value, r.value)
    ensures r.Some? && NamesOne(c) ==> forall id | id in db.archive && Named(db, c, id) :: id == r.value.id
    ensures r.Some? <==>
      && (c.archiveFileId.Some? || c.diskFileIds.Some?) && (c.diskFileIds.Some? ==> c.diskInstance.Some?)
      && c.vid.Some? && c.fSeq.None? && (c.archiveFileId.Some? ==> c.archiveFileId.value in db.archive)
      && ps != [] && |CopiesOf(db, IdAt(db, ps[0]))| > 1 && |CopiesOn(db, IdAt(db, ps[0]), c.vid.value)| == 1
  {
    if !WellAsked(c) {
      return None;
    }
    var vid := c.vid.value;
    var listed := ListArchiveFiles(db, Everywhere(c), ps);
    if listed.None? {
      return None;
    }
    if ps == [] {
      return None;
    }
    FirstListed(db, Everywhere(c), ps, rank);
    var f := listed.value[0];
    EnumerationSize(PositionsIn(f.copies), CopiesOf(db, f.id));
    if |f.copies| == 1 {
      return None;
    }
    var kept := OnlyOn(f.copies, vid);
    KeptAre(db, f.id, vid, f.copies, kept);
    EnumerationSize(PositionsIn(kept), CopiesOn(db, f.id, vid));
    if |kept| != 1 {
      return None;
    }
    assert kept[0] in kept && PositionsIn(kept) == [kept[0].pos];
    OneKept(db, f, vid, kept[0]);
    FoundIsNamed(db, c, ps);
    KeptIsOneOfSeveral(db, vid, ArchiveFile(f.id, f.archive.diskInstance, [kept[0]]));
    if NamesOne(c) { NamedIsOnlyOne(db, c, f.id); }
    return Some(ArchiveFile(f.id, f.archive.diskInstance, [kept[0]]));
  }

  /** The file found is the one asked for: the disk key of an archive file is unique. */
  lemma FoundIsAskedFor(db: Db, c: SearchCriteria, p: Pos, q: Pos)
    requires DiskKeysUnique(db.archive) && p in Selected(db, c) && q in Selected(db, c)
    requires c.archiveFileId.Some? ||
      (c.diskInstance.Some? && c.diskFileIds.Some? && exists fid :: c.diskFileIds.value == {fid})
    ensures IdAt(db, p) == IdAt(db, q)
  {
    if c.archiveFileId.None? {
      var fid :| c.diskFileIds.value == {fid};
      assert SameDiskKey(db.archive[IdAt(db, p)], db.archive[IdAt(db, q)]);
    }
  }
}

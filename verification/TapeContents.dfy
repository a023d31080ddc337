/** getArchiveFilesItor: which iterator serves a search, and RdbmsCatalogueTapeContentsItor, which serves
    a search by tape and nothing else. */
module TapeContents {
  import opened Tables
  import opened Recycle
  import opened ArchiveFileStream
  import opened ArchiveFileListing

  // ----- the iterator over the contents of a tape -----

  /** One archive file for each row, with the row's one copy. */
  function Contents(rows: seq<Row>): (files: seq<File>)
    ensures |files| == |rows|
  {
    seq(|rows|, i requires 0 <= i < |rows| => Populate(rows[i]))
  }

  /** Unlike the listing iterator it keeps nothing under construction. Its query joins TAPE_FILE, so that
      every row has a copy. */
  class TapeContentsItor {
    const rows: seq<Row>
    var consumed: nat
    var rsetIsEmpty: bool
    var hasMoreHasBeenCalled: bool

    ghost predicate Valid()
      reads this
    {
      consumed <= |rows| && rsetIsEmpty == (consumed == |rows|) && HaveCopies(rows)
    }

    ghost function Remaining(): seq<File>
      requires Valid()
      reads this
    {
      Contents(rows[consumed..])
    }

    constructor (rows: seq<Row>)
      requires HaveCopies(rows)
      ensures Valid() && this.rows == rows && Remaining() == Contents(rows) && !hasMoreHasBeenCalled
    {
      this.rows := rows;
      consumed := 0;
      hasMoreHasBeenCalled := false;
      rsetIsEmpty := rows == [];
      new;
      assert rows[0..] == rows;
    }

    method HasMore() returns (more: bool)
      requires Valid()
      modifies this`hasMoreHasBeenCalled
      ensures Valid() && Remaining() == old(Remaining()) && hasMoreHasBeenCalled
      ensures more <==> Remaining() != []
    {
      hasMoreHasBeenCalled := true;
      return !rsetIsEmpty;
    }

    method Next() returns (r: Next)
      requires Valid()
      modifies this
      ensures Valid() && !hasMoreHasBeenCalled
      ensures !old(hasMoreHasBeenCalled) ==> r == Thrown(HasMoreNotCalled)
      ensures old(hasMoreHasBeenCalled) && old(Remaining()) == [] ==> r == Thrown(NothingUnderConstruction)
      ensures r.Thrown? ==> Remaining() == old(Remaining())
      ensures old(hasMoreHasBeenCalled) && old(Remaining()) != [] ==>
        r == Returned(old(Remaining())[0]) && Remaining() == old(Remaining())[1..]
    {
      if !hasMoreHasBeenCalled {
        return Thrown(HasMoreNotCalled);
      }
      hasMoreHasBeenCalled := false;
      if rsetIsEmpty {
        return Thrown(NothingUnderConstruction);
      }
      var file := Populate(rows[consumed]);
      consumed := consumed + 1;
      rsetIsEmpty := consumed == |rows|;
      return Returned(file);
    }
  }

  method DrainContents(it: TapeContentsItor) returns (files: seq<File>)
    requires it.Valid()
    modifies it
    ensures files == old(it.Remaining())
  {
    files := [];
    ghost var all := it.Remaining();
    ghost var rest := all;
    var more := it.HasMore();
    while more
      invariant it.Valid() && it.hasMoreHasBeenCalled && rest == it.Remaining()
      invariant more <==> rest != []
      invariant all == files + rest
      decreases |rest|
    {
      var r := it.Next();
      TakeOne(all, files, rest);
      files, rest := files + [r.file], rest[1..];
      more := it.HasMore();
    }
  }

  // ----- what it lists -----

  lemma ContentCarries(db: Db, ps: seq<Pos>, k: nat)
    requires Readable(db, ps) && k < |ps|
    ensures Readable(db, [ps[k]]) && Carries(db, Contents(RowsOf(db, ps))[k], [ps[k]])
  {
    assert ps[k] in ps;
  }

  ghost predicate OneCopyEach(db: Db, selected: set<Pos>)
    requires selected <= db.live.Keys
  {
    forall p, q | p in selected && q in selected && p != q :: IdAt(db, p) != IdAt(db, q)
  }

  /** The contents of a tape: one archive file for each tape file, each with that one copy, in strictly
      increasing file sequence order. */
  lemma ContentsList(db: Db, c: SearchCriteria, vid: Vid, ps: seq<Pos>)
    requires c.vid == Some(vid) && TapeOnly(c)
    requires Enumerates(ps, Selected(db, c)) && Readable(db, ps) && ByFSeq(ps)
    ensures |Contents(RowsOf(db, ps))| == |ps|
    ensures forall k | 0 <= k < |ps| ::
      Readable(db, [ps[k]]) && Carries(db, Contents(RowsOf(db, ps))[k], [ps[k]])
    ensures forall i, j | 0 <= i < j < |ps| :: ps[i].fSeq < ps[j].fSeq
    ensures forall p | p in db.live && IdAt(db, p) in db.archive :: p in ps <==> p.vid == vid
  {
    SelectedIsReadable(db, c, ps);
    forall k | 0 <= k < |ps| ensures Readable(db, [ps[k]]) && Carries(db, Contents(RowsOf(db, ps))[k], [ps[k]]) {
      ContentCarries(db, ps, k);
    }
    forall i, j | 0 <= i < j < |ps| ensures ps[i].fSeq < ps[j].fSeq { TapeOrder(ps, vid, i, j); }
    forall p | p in db.live && IdAt(db, p) in db.archive ensures p in ps <==> p.vid == vid {
      EnumeratesMember(ps, Selected(db, c), p);
    }
  }

  /** And it names each archive file once, with all its copies on the tape, if and only if no archive
      file has two copies there. */
  lemma ContentsOnceIff(db: Db, c: SearchCriteria, vid: Vid, ps: seq<Pos>)
    requires c.vid == Some(vid) && TapeOnly(c)
    requires Enumerates(ps, Selected(db, c)) && Readable(db, ps) && ByFSeq(ps)
    ensures OncePerFile(db, Selected(db, c), Contents(RowsOf(db, ps))) <==> OneCopyEach(db, Selected(db, c))
  {
    var selected := Selected(db, c);
    var files := Contents(RowsOf(db, ps));
    if DistinctIds(files) {
      forall p, q | p in selected && q in selected && p != q ensures IdAt(db, p) != IdAt(db, q) {
        IdsDiffer(db, selected, ps, p, q);
      }
    }
    if OneCopyEach(db, selected) {
      ContentIds(db, selected, ps);
      forall f | f in files ensures ListsCopies(db, selected, f) {
        var k :| 0 <= k < |files| && files[k] == f;
        ContentLists(db, selected, ps, k);
      }
      forall i, j | 0 <= i < j < |files| ensures files[i].id != files[j].id {
        EnumeratesMember(ps, selected, ps[i]);
        EnumeratesMember(ps, selected, ps[j]);
      }
    }
  }

  lemma IdsDiffer(db: Db, selected: set<Pos>, ps: seq<Pos>, p: Pos, q: Pos)
    requires Readable(db, ps) && Enumerates(ps, selected) && DistinctIds(Contents(RowsOf(db, ps)))
    requires p in selected && q in selected && p != q && p in db.live && q in db.live
    ensures IdAt(db, p) != IdAt(db, q)
  {
    EnumeratesMember(ps, selected, p);
    EnumeratesMember(ps, selected, q);
    var i :| 0 <= i < |ps| && ps[i] == p;
    var j :| 0 <= j < |ps| && ps[j] == q;
    var files := Contents(RowsOf(db, ps));
    assert files[i].id == IdAt(db, p) && files[j].id == IdAt(db, q);
  }

  lemma ContentIds(db: Db, selected: set<Pos>, ps: seq<Pos>)
    requires Readable(db, ps) && Enumerates(ps, selected) && selected <= db.live.Keys
    ensures Ids(Contents(RowsOf(db, ps))) == SelectedIds(db, selected)
  {
    var files := Contents(RowsOf(db, ps));
    forall f | f in files ensures f.id in SelectedIds(db, selected) {
      var k :| 0 <= k < |files| && files[k] == f;
      EnumeratesMember(ps, selected, ps[k]);
    }
    forall p | p in selected ensures IdAt(db, p) in Ids(files) {
      EnumeratesMember(ps, selected, p);
      var k :| 0 <= k < |ps| && ps[k] == p;
      assert files[k] in files;
    }
  }

  lemma ContentLists(db: Db, selected: set<Pos>, ps: seq<Pos>, k: nat)
    requires Readable(db, ps) && Enumerates(ps, selected) && selected <= db.live.Keys && OneCopyEach(db, selected)
    requires k < |ps|
    ensures ListsCopies(db, selected, Contents(RowsOf(db, ps))[k])
  {
    var f := Contents(RowsOf(db, ps))[k];
    ContentCarries(db, ps, k);
    EnumeratesMember(ps, selected, ps[k]);
    CarriesLists(db, selected, f, [ps[k]]);
  }

  // ----- getArchiveFilesItor -----

  /** The live copy at `p` has every column that is asked for. */
  predicate AskedFor(db: Db, c: SearchCriteria, p: Pos) {
    && p in db.live && db.live[p].archiveFileId in db.archive
    && var row := db.archive[db.live[p].archiveFileId];
       && (c.archiveFileId.None? || c.archiveFileId == Some(db.live[p].archiveFileId))
       && (c.diskInstance.None? || c.diskInstance == Some(row.diskInstance))
       && (c.diskFileIds.None? || row.diskFileId in c.diskFileIds.value)
       && (c.vid.None? || c.vid == Some(p.vid)) && (c.fSeq.None? || c.fSeq == Some(p.fSeq))
  }

  /** The copy is listed as it is in TAPE_FILE, in its archive file as it is in ARCHIVE_FILE. */
  predicate AsStored(db: Db, f: File, x: Copy) {
    && x.pos in db.live && x.row == db.live[x.pos] && f.id == x.row.archiveFileId
    && f.id in db.archive && f.archive == db.archive[f.id]
  }

  /** The files hold exactly the copies that are asked for, each once and as stored. */
  ghost predicate ListsExactly(db: Db, c: SearchCriteria, files: seq<File>) {
    && NoDup(AllCopies(files))
    && (forall f, x | f in files && x in f.copies :: AskedFor(db, c, x.pos) && AsStored(db, f, x))
    && (forall p | AskedFor(db, c, p) :: Copy(p, db.live[p]) in AllCopies(files))
  }

  lemma SelectedIff(db: Db, c: SearchCriteria, p: Pos)
    ensures p in Selected(db, c) <==> AskedFor(db, c, p)
  {
  }

  lemma FilesAsStored(db: Db, ps: seq<Pos>, f: File, x: Copy)
    requires Readable(db, ps) && f in Files(RowsOf(db, ps), 0) && x in f.copies
    ensures x.pos in ps && AsStored(db, f, x)
  {
    var rows := RowsOf(db, ps);
    AsManyFiles(rows, 0);
    var k :| 0 <= k < |Files(rows, 0)| && Files(rows, 0)[k] == f;
    FileAt(rows, 0, k);
    var s := Starts(rows, 0)[k];
    var e := End(rows, s);
    GroupCarries(db, ps, s, e);
    var i :| 0 <= i < |f.copies| && f.copies[i] == x;
    assert x.pos == ps[s..e][i];
    MemberHasId(db, ps, s, x.pos);
  }

  lemma AllFilesAsStored(db: Db, ps: seq<Pos>) returns (files: seq<File>)
    requires Readable(db, ps)
    ensures files == Files(RowsOf(db, ps), 0)
    ensures forall f, x | f in files && x in f.copies :: x.pos in ps && AsStored(db, f, x)
  {
    files := Files(RowsOf(db, ps), 0);
    forall f, x | f in files && x in f.copies ensures x.pos in ps && AsStored(db, f, x) {
      FilesAsStored(db, ps, f, x);
    }
  }

  lemma ContentsAsStored(db: Db, ps: seq<Pos>, f: File, x: Copy)
    requires Readable(db, ps) && f in Contents(RowsOf(db, ps)) && x in f.copies
    ensures x.pos in ps && AsStored(db, f, x)
  {
    var k :| 0 <= k < |ps| && Contents(RowsOf(db, ps))[k] == f;
    assert x.pos == ps[k];
  }

  lemma {:induction false} ContentsCopies(db: Db, ps: seq<Pos>)
    requires Readable(db, ps)
    ensures AllCopies(Contents(RowsOf(db, ps))) == CopiesAt(db, ps)
  {
    if ps != [] {
      var files := Contents(RowsOf(db, ps));
      RowsSlice(db, ps, 1, |ps|);
      assert ps[1..|ps|] == ps[1..] && files[1..] == Contents(RowsOf(db, ps[1..]));
      ContentsCopies(db, ps[1..]);
      assert CopiesAt(db, ps) == [CopiesAt(db, ps)[0]] + CopiesAt(db, ps[1..]);
    }
  }

  lemma FilesCopies(db: Db, ps: seq<Pos>)
    requires Readable(db, ps)
    ensures AllCopies(Files(RowsOf(db, ps), 0)) == CopiesAt(db, ps)
  {
    NothingLost(RowsOf(db, ps), 0);
    assert RowsOf(db, ps)[0..] == RowsOf(db, ps);
    CopiesOfRows(db, ps);
  }

  lemma ListingIsExact(db: Db, c: SearchCriteria, ps: seq<Pos>, files: seq<File>)
    requires Enumerates(ps, Selected(db, c)) && Readable(db, ps) && AllCopies(files) == CopiesAt(db, ps)
    requires forall f, x | f in files && x in f.copies :: x.pos in ps && AsStored(db, f, x)
    ensures ListsExactly(db, c, files)
  {
    forall p ensures p in ps <==> AskedFor(db, c, p) {
      EnumeratesMember(ps, Selected(db, c), p);
      SelectedIff(db, c, p);
    }
    forall p | AskedFor(db, c, p) ensures Copy(p, db.live[p]) in AllCopies(files) {
      var i :| 0 <= i < |ps| && ps[i] == p;
      assert CopiesAt(db, ps)[i] == Copy(p, db.live[p]);
    }
    forall i, j | 0 <= i < j < |ps| ensures CopiesAt(db, ps)[i] != CopiesAt(db, ps)[j] { assert ps[i] != ps[j]; }
  }

  lemma FilesAreExact(db: Db, c: SearchCriteria, ps: seq<Pos>)
    requires Enumerates(ps, Selected(db, c)) && Readable(db, ps)
    ensures ListsExactly(db, c, Files(RowsOf(db, ps), 0))
  {
    FilesCopies(db, ps);
    var files := AllFilesAsStored(db, ps);
    ListingIsExact(db, c, ps, files);
  }

  lemma ContentsAreExact(db: Db, c: SearchCriteria, ps: seq<Pos>)
    requires Enumerates(ps, Selected(db, c)) && Readable(db, ps)
    ensures ListsExactly(db, c, Contents(RowsOf(db, ps)))
  {
    var files := Contents(RowsOf(db, ps));
    ContentsCopies(db, ps);
    forall f, x | f in files && x in f.copies ensures x.pos in ps && AsStored(db, f, x) {
      ContentsAsStored(db, ps, f, x);
    }
    ListingIsExact(db, c, ps, files);
  }

  /** A search by tape and file sequence number lists the copy at that position, in its archive file, and
      nothing else; or nothing at all if there is no copy. */
  lemma SearchByPosition(db: Db, vid: Vid, fSeq: nat, ps: seq<Pos>)
    requires Enumerates(ps, Selected(db, SearchCriteria(None, None, Some(vid), Some(fSeq), None))) && Readable(db, ps)
    ensures var p := Pos(vid, fSeq);
      Files(RowsOf(db, ps), 0) ==
        if p in db.live && db.live[p].archiveFileId in db.archive
        then [File(db.live[p].archiveFileId, db.archive[db.live[p].archiveFileId], [Copy(p, db.live[p])])] else []
  {
    var c, p := SearchCriteria(None, None, Some(vid), Some(fSeq), None), Pos(vid, fSeq);
    forall q ensures q in Selected(db, c) <==> q == p && AskedFor(db, c, p) { SelectedIff(db, c, q); }
    assert Selected(db, c) == if AskedFor(db, c, p) then {p} else {};
    EnumerationSize(ps, Selected(db, c));
    if AskedFor(db, c, p) {
      EnumeratesMember(ps, Selected(db, c), ps[0]);
      assert ps == [p];
      OneRow(db, p);
    }
  }

  lemma OneRow(db: Db, p: Pos)
    requires p in db.live && db.live[p].archiveFileId in db.archive
    ensures Readable(db, [p])
    ensures Files(RowsOf(db, [p]), 0) ==
      [File(db.live[p].archiveFileId, db.archive[db.live[p].archiveFileId], [Copy(p, db.live[p])])]
  {
    var rows := RowsOf(db, [p]);
    var e := End(rows, 0);
    GroupCarries(db, [p], 0, 1);
    assert e == 1 && [p][0..1] == [p] && CopiesAt(db, [p]) == [Copy(p, db.live[p])];
    assert Files(rows, 1) == [];
  }

  /** checkTapeFileSearchCriteria. */
  predicate CriteriaOk(db: Db, c: SearchCriteria) {
    && (c.archiveFileId.Some? ==> c.archiveFileId.value in db.archive)
    && (c.diskFileIds.Some? ==> c.diskInstance.Some?)
    && (c.fSeq.Some? ==> c.vid.Some?)
    && (c.vid.Some? ==> c.vid.value in db.tapes)
  }

  /** A search, from the criteria to the end of the iteration: `ps` are the selected copies in an order that
      the query allows. It is refused for bad criteria or an empty volume identifier; a search by tape
      alone lists tape files, any other search lists archive files. */
  method ListArchiveFiles(db: Db, c: SearchCriteria, ps: seq<Pos>) returns (r: Option<seq<File>>)
    requires Enumerates(ps, Selected(db, c)) && Readable(db, ps)
    ensures r.None? <==> !CriteriaOk(db, c) || (TapeOnly(c) && c.vid == Some(""))
    ensures r.Some? ==> r.value == if TapeOnly(c) then Contents(RowsOf(db, ps)) else Files(RowsOf(db, ps), 0)
    ensures r.Some? ==> ListsExactly(db, c, r.value)
    ensures r.None? <==>
      || (c.archiveFileId.Some? && c.archiveFileId.value !in db.archive)
      || (c.diskFileIds.Some? && c.diskInstance.None?)
      || (c.fSeq.Some? && c.vid.None?)
      || (c.vid.Some? && c.vid.value !in db.tapes)
      || c == SearchCriteria(None, None, Some(""), None, None)
  {
    FilesAreExact(db, c, ps);
    ContentsAreExact(db, c, ps);
    if !CriteriaOk(db, c) {
      return None;
    }
    if TapeOnly(c) {
      if c.vid.value == "" {
        return None;
      }
      var contents := new TapeContentsItor(RowsOf(db, ps));
      var files := DrainContents(contents);
      return Some(files);
    }
    var it := new Itor(RowsOf(db, ps));
    var files := Drain(it);
    return Some(files);
  }
}

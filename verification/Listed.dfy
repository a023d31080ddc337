/** What a caller who searches for an archive file sees after a batch was written. */
module Listed {
  import opened Tables
  import opened Batch
  import opened BatchItems
  import opened FilesWritten
  import Stream = ArchiveFileStream
  import opened ArchiveFileListing
  import opened TapeContents

  function ById(id: nat): SearchCriteria {
    SearchCriteria(Some(id), None, None, None, None)
  }

  /** A search by archive file id finds that file alone, if it has a live copy. */
  lemma FoundById(db: Db, id: nat, p: Pos, ps: seq<Pos>)
    requires p in db.live && db.live[p].archiveFileId == id && id in db.archive
    requires Enumerates(ps, Selected(db, ById(id))) && Readable(db, ps) && ByIdAndCopy(db, ps)
    ensures var files := Stream.Files(RowsOf(db, ps), 0);
      && |files| == 1 && files[0].id == id && files[0].archive == db.archive[id]
      && Stream.AllCopies(files) == files[0].copies
  {
    var files := Stream.Files(RowsOf(db, ps), 0);
    FilesAreExact(db, ById(id), ps);
    SortedIsContiguous(db, ps);
    ListedOnceIff(db, Selected(db, ById(id)), ps);
    SelectedIff(db, ById(id), p);
    assert SelectedIds(db, Selected(db, ById(id))) == {id};
    OneFile(files, id);
    assert files[0] in files && ListsCopies(db, Selected(db, ById(id)), files[0]);
    assert files == [files[0]] && files[1..] == [];
  }

  lemma OneFile(files: seq<Stream.File>, id: nat)
    requires Stream.DistinctIds(files) && Ids(files) == {id}
    ensures |files| == 1 && files[0].id == id
  {
    var ids := seq(|files|, i requires 0 <= i < |files| => files[i].id);
    forall x ensures x in ids <==> x in Ids(files) {
      if x in ids { var i :| 0 <= i < |files| && ids[i] == x; assert files[i] in files; }
      if x in Ids(files) { var i :| 0 <= i < |files| && files[i].id == x; assert ids[i] == x; }
    }
    EnumerationSize(ids, {id});
    assert ids[0] in ids;
  }

  /** After a batch, a search by the archive file id of any of its files returns that one file. A file that
      the batch created has the columns of its item; the copy at the item's position is in the list. */
  lemma WrittenIsListed(db: Db, events: seq<Item>, now: nat, db': Db, k: nat, ps: seq<Pos>)
    requires Accepts(db, events) && Written(db, events, now, db') && IsFile(events, k)
    requires Enumerates(ps, Selected(db', ById(events[k].file.value.archiveFileId)))
    requires Readable(db', ps) && ByIdAndCopy(db', ps)
    ensures var f := events[k].file.value;
      var files := Stream.Files(RowsOf(db', ps), 0);
      && |files| == 1 && files[0].id == f.archiveFileId
      && files[0].archive.size == f.size && files[0].archive.checksum == f.checksum
      && (f.archiveFileId !in db.archive ==> RowOf(files[0].archive, f, now))
      && exists x | x in files[0].copies ::
           x.pos == Pos(events[k].vid, events[k].fSeq) && CopyRowOf(x.row, f, now)
  {
    WrittenItems(db, events, now, db');
    var f, p := events[k].file.value, Pos(events[k].vid, events[k].fSeq);
    assert ItemFits(db, events[0].vid, k, events[k]);
    assert p in db'.live && CopyRowOf(db'.live[p], f, now);
    FoundById(db', f.archiveFileId, p, ps);
    FilesAreExact(db', ById(f.archiveFileId), ps);
    assert AskedFor(db', ById(f.archiveFileId), p);
  }
}

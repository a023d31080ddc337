/** ArchiveFileBuilder and the hasMore/next iterators over it: a cursor over rows, one copy to a row,
    becomes a stream of archive files. */
module ArchiveFileStream {
  import opened Tables
  import opened Recycle

  /** A row of the result set. The VID column, and with it the copy, may be null. */
  datatype Row = Row(id: nat, archive: ArchiveRow, copy: Option<Copy>)

  datatype File = File(id: nat, archive: ArchiveRow, copies: seq<Copy>)

  function Populate(row: Row): File {
    File(row.id, row.archive, if row.copy.Some? then [row.copy.value] else [])
  }

  // ----- what the stream means -----

  function Copies(rows: seq<Row>): seq<Copy> {
    if rows == [] then [] else Copies(rows[..|rows| - 1]) + Populate(rows[|rows| - 1]).copies
  }

  /** The archive file that a group of rows stands for. */
  function Merged(group: seq<Row>): File
    requires group != []
  {
    File(group[0].id, group[0].archive, Copies(group))
  }

  predicate NoCopies(rows: seq<Row>) {
    forall i | 0 <= i < |rows| :: rows[i].copy.None?
  }

  /** A group ends before row `i`: the archive file changes, or the row has no copy, or no row had one yet. */
  predicate Cut(rows: seq<Row>, i: nat)
    requires 0 < i < |rows|
  {
    rows[i - 1].id != rows[i].id || rows[i].copy.None? || NoCopies(rows[..i])
  }

  function End(rows: seq<Row>, i: nat): (e: nat)
    requires i < |rows|
    ensures i < e <= |rows|
    ensures e < |rows| ==> Cut(rows, e)
    ensures forall j | i < j < e :: !Cut(rows, j)
    decreases |rows| - i
  {
    if i + 1 == |rows| || Cut(rows, i + 1) then i + 1 else End(rows, i + 1)
  }

  /** The archive files that rows `i`, `i + 1`, ... stand for. */
  function Files(rows: seq<Row>, i: nat): seq<File>
    requires i <= |rows|
    decreases |rows| - i
  {
    if i == |rows| then [] else [Merged(rows[i..End(rows, i)])] + Files(rows, End(rows, i))
  }

  /** `e` is where the group that starts at `s` ends. */
  lemma EndIs(rows: seq<Row>, s: nat, e: nat)
    requires s < e <= |rows|
    requires e < |rows| ==> Cut(rows, e)
    requires forall j | s < j < e :: !Cut(rows, j)
    ensures End(rows, s) == e
  {
    var f := End(rows, s);
  }

  // ----- the builder -----

  datatype Appended = Incomplete | Complete(file: File) | NotAlone

  class ArchiveFileBuilder {
    var file: Option<File>

    constructor ()
      ensures file == None
    {
      file := None;
    }

    /** The row either joins the file under construction, or completes it and starts the next one.
        A file without copies is complete at once when nothing is under construction. */
    method Append(row: File) returns (r: Appended)
      modifies this
      ensures r.NotAlone? <==> |row.copies| > 1 && (old(file).None? || old(file).value.id == row.id)
      ensures r.NotAlone? ==> file == old(file)
      ensures r.Incomplete? ==>
        |row.copies| == 1 &&
        file == Some(if old(file).None? then row
                     else old(file).value.(copies := old(file).value.copies + row.copies))
      ensures r.Complete? && old(file).None? ==> row.copies == [] && r.file == row && file == None
      ensures r.Complete? && old(file).Some? ==>
        r.file == old(file).value && file == Some(row) && (row.copies == [] || row.id != r.file.id)
      ensures r.Incomplete? && old(file).Some? ==> old(file).value.id == row.id
    {
      match file
      case None =>
        if row.copies == [] { return Complete(row); }
        if |row.copies| != 1 { return NotAlone; }
        file := Some(row);
        return Incomplete;
      case Some(current) =>
        if row.copies == [] {
          file := Some(row);
          return Complete(current);
        }
        if row.id == current.id {
          if |row.copies| != 1 { return NotAlone; }
          assert row.copies == [row.copies[0]];
          file := Some(current.(copies := current.copies + [row.copies[0]]));
          return Incomplete;
        }
        file := Some(row);
        return Complete(current);
    }

    method Clear()
      modifies this
      ensures file == None
    {
      file := None;
    }
  }

  // ----- the iterator -----

  datatype Error = HasMoreNotCalled | NothingUnderConstruction

  datatype Next = Returned(file: File) | Thrown(error: Error)

  class Itor {
    const rows: seq<Row>
    const builder: ArchiveFileBuilder
    var consumed: nat
    var rsetIsEmpty: bool
    var hasMoreHasBeenCalled: bool
    ghost var start: nat

    ghost predicate Valid()
      reads this, builder
    {
      && consumed <= |rows|
      && rsetIsEmpty == (consumed == |rows|)
      && (UnderConstruction(rows, start, consumed, builder.file) || (builder.file.None? && rsetIsEmpty))
    }

    /** The archive files still to come. */
    ghost function Remaining(): seq<File>
      requires Valid()
      reads this, builder
    {
      Files(rows, if builder.file.None? then consumed else start)
    }

    constructor (rows: seq<Row>)
      ensures Valid() && fresh(builder)
      ensures this.rows == rows && Remaining() == Files(rows, 0) && !hasMoreHasBeenCalled
    {
      this.rows := rows;
      builder := new ArchiveFileBuilder();
      consumed := 0;
      hasMoreHasBeenCalled := false;
      rsetIsEmpty := rows == [];
    }

    method HasMore() returns (more: bool)
      requires Valid()
      modifies this`hasMoreHasBeenCalled
      ensures Valid() && Remaining() == old(Remaining())
      ensures hasMoreHasBeenCalled
      ensures more <==> Remaining() != []
    {
      hasMoreHasBeenCalled := true;
      if rsetIsEmpty {
        return builder.file.Some?;
      }
      return true;
    }

    method Next() returns (r: Next)
      requires Valid()
      modifies this, builder
      ensures Valid() && !hasMoreHasBeenCalled
      ensures !old(hasMoreHasBeenCalled) ==> r == Thrown(HasMoreNotCalled)
      ensures old(hasMoreHasBeenCalled) && old(Remaining()) == [] ==> r == Thrown(NothingUnderConstruction)
      ensures r.Thrown? ==> Remaining() == old(Remaining())
      ensures old(hasMoreHasBeenCalled) && old(Remaining()) != [] ==>
        r == Returned(old(Remaining())[0]) && Remaining() == old(Remaining())[1..]
    {
      if !hasMoreHasBeenCalled {
        return Thrown(HasMoreNotCalled);
      }
      hasMoreHasBeenCalled := false;
      if rsetIsEmpty {
        if builder.file.None? {
          return Thrown(NothingUnderConstruction);
        }
        var last := TakeLast();
        return Returned(last);
      }
      while true
        invariant Valid() && !rsetIsEmpty && !hasMoreHasBeenCalled
        invariant Remaining() == old(Remaining())
        decreases |rows| - consumed
      {
        var complete := Round();
        if complete.Some? {
          return Returned(complete.value);
        }
        if rsetIsEmpty {
          var last := TakeLast();
          return Returned(last);
        }
      }
    }

    /** With the rows used up, the file under construction is complete. */
    method TakeLast() returns (last: File)
      requires Valid() && rsetIsEmpty && builder.file.Some?
      modifies builder
      ensures Valid() && builder.file.None?
      ensures old(Remaining()) == [last] && Remaining() == []
    {
      LastStep(rows, start, builder.file.value);
      last := builder.file.value;
      builder.Clear();
    }

    /** One round of the loop in next(): append the current row, then move the cursor. */
    method Round() returns (complete: Option<File>)
      requires Valid() && !rsetIsEmpty
      modifies this, builder
      ensures Valid() && consumed == old(consumed) + 1 && hasMoreHasBeenCalled == old(hasMoreHasBeenCalled)
      ensures complete.Some? ==> old(Remaining()) == [complete.value] + Remaining()
      ensures complete.None? ==> builder.file.Some? && Remaining() == old(Remaining())
    {
      var row := Populate(rows[consumed]);
      ghost var before, k := builder.file, consumed;
      var appended := builder.Append(row);
      consumed := consumed + 1;
      rsetIsEmpty := consumed == |rows|;
      match before {
        case None =>
          if rows[k].copy.None? { AloneStep(rows, k); } else { StartStep(rows, k); start := k; }
        case Some(file) =>
          if appended.Complete? { CutStep(rows, start, k, file); StartStep(rows, k); start := k; }
          else { JoinStep(rows, start, k, file); }
      }
      complete := if appended.Complete? then Some(appended.file) else None;
    }
  }

  // ----- why the builder's steps follow the groups -----

  /** The rows of a group belong to one archive file. */
  lemma {:induction false} GroupId(rows: seq<Row>, s: nat, j: nat)
    requires s < |rows| && s <= j < End(rows, s)
    ensures rows[j].id == rows[s].id
  {
    if s < j {
      GroupId(rows, s, j - 1);
      assert !Cut(rows, j);
    }
  }

  lemma CopiesSnoc(rows: seq<Row>, s: nat, k: nat)
    requires s <= k < |rows|
    ensures Copies(rows[s..k + 1]) == Copies(rows[s..k]) + Populate(rows[k]).copies
  {
    assert rows[s..k + 1][..k - s] == rows[s..k];
  }

  ghost predicate UnderConstruction(rows: seq<Row>, s: nat, k: nat, file: Option<File>)
    requires k <= |rows|
  {
    && (file.None? ==> NoCopies(rows[..k]))
    && (file.Some? ==> s < k <= End(rows, s) && file.value == Merged(rows[s..k]) && !NoCopies(rows[..k]))
  }

  /** A first row without a copy is a file by itself. */
  lemma AloneStep(rows: seq<Row>, k: nat)
    requires k < |rows| && NoCopies(rows[..k]) && rows[k].copy.None?
    ensures Files(rows, k) == [Populate(rows[k])] + Files(rows, k + 1)
    ensures NoCopies(rows[..k + 1])
  {
    assert rows[..k + 1] == rows[..k] + [rows[k]];
    if k + 1 < |rows| { assert Cut(rows, k + 1); }
    CopiesSnoc(rows, k, k);
  }

  /** A row starts a group. */
  lemma StartStep(rows: seq<Row>, k: nat)
    requires k < |rows|
    requires rows[k].copy.Some? || !NoCopies(rows[..k])
    ensures UnderConstruction(rows, k, k + 1, Some(Populate(rows[k])))
  {
    CopiesSnoc(rows, k, k);
    if rows[k].copy.None? {
      var i :| 0 <= i < |rows[..k]| && rows[..k][i].copy.Some?;
      assert rows[..k + 1][i].copy.Some?;
    } else {
      assert rows[..k + 1][k].copy.Some?;
    }
  }

  /** A row without a copy, or of another archive file, ends the group. */
  lemma CutStep(rows: seq<Row>, s: nat, k: nat, file: File)
    requires k < |rows| && UnderConstruction(rows, s, k, Some(file))
    requires rows[k].copy.None? || rows[k].id != file.id
    ensures Files(rows, s) == [file] + Files(rows, k)
  {
    GroupId(rows, s, k - 1);
    assert Cut(rows, k);
    EndIs(rows, s, k);
  }

  /** The end of the rows ends the group. */
  lemma LastStep(rows: seq<Row>, s: nat, file: File)
    requires UnderConstruction(rows, s, |rows|, Some(file))
    ensures Files(rows, s) == [file]
  {
    assert rows[s..End(rows, s)] == rows[s..|rows|];
  }

  /** A further copy of the same archive file belongs to the group. */
  lemma JoinStep(rows: seq<Row>, s: nat, k: nat, file: File)
    requires k < |rows| && UnderConstruction(rows, s, k, Some(file))
    requires rows[k].copy.Some? && rows[k].id == file.id
    ensures UnderConstruction(rows, s, k + 1, Some(file.(copies := file.copies + Populate(rows[k]).copies)))
  {
    GroupId(rows, s, k - 1);
    assert !Cut(rows, k);
    CopiesSnoc(rows, s, k);
    var i :| 0 <= i < |rows[..k]| && rows[..k][i].copy.Some?;
    assert rows[..k + 1][i].copy.Some?;
  }

  /** A round of the client's loop. */
  method TakeNext(it: Itor, ghost rest: seq<File>) returns (file: File, more: bool)
    requires it.Valid() && it.hasMoreHasBeenCalled && it.Remaining() == rest != []
    modifies it, it.builder
    ensures it.Valid() && it.hasMoreHasBeenCalled && it.Remaining() == rest[1..]
    ensures file == rest[0] && (more <==> rest[1..] != [])
  {
    var r := it.Next();
    file := r.file;
    more := it.HasMore();
  }

  lemma TakeOne<T>(all: seq<T>, done: seq<T>, rest: seq<T>)
    requires all == done + rest && rest != []
    ensures all == done + [rest[0]] + rest[1..]
  {
  }

  /** The client's loop: while there is more, take the next one. */
  method Drain(it: Itor) returns (files: seq<File>)
    requires it.Valid()
    modifies it, it.builder
    ensures files == old(it.Remaining())
    ensures it.Valid() && it.Remaining() == []
  {
    files := [];
    ghost var all := it.Remaining();
    ghost var rest := all;
    var more := it.HasMore();
    while more
      invariant it.Valid() && it.hasMoreHasBeenCalled && rest == it.Remaining()
      invariant more <==> rest != []
      invariant all == files + rest
      decreases |rest|
    {
      var file;
      file, more := TakeNext(it, rest);
      TakeOne(all, files, rest);
      files, rest := files + [file], rest[1..];
    }
  }

  // ----- what the stream of files is -----

  function AllCopies(files: seq<File>): seq<Copy> {
    if files == [] then [] else files[0].copies + AllCopies(files[1..])
  }

  lemma LastOfConcat<T>(a: seq<T>, b: seq<T>)
    requires b != []
    ensures (a + b)[..|a + b| - 1] == a + b[..|b| - 1] && (a + b)[|a + b| - 1] == b[|b| - 1]
  {
  }

  lemma {:induction false} CopiesConcat(a: seq<Row>, b: seq<Row>)
    ensures Copies(a + b) == Copies(a) + Copies(b)
  {
    if b == [] {
      assert a + b == a;
    } else {
      var n := |b| - 1;
      CopiesConcat(a, b[..n]);
      LastOfConcat(a, b);
      var last := Populate(b[n]).copies;
      assert Copies(a) + (Copies(b[..n]) + last) == Copies(a) + Copies(b[..n]) + last;
    }
  }

  lemma CopiesSplit(rows: seq<Row>, i: nat, e: nat)
    requires i <= e <= |rows|
    ensures Copies(rows[i..]) == Copies(rows[i..e]) + Copies(rows[e..])
  {
    CopiesConcat(rows[i..e], rows[e..]);
    assert rows[i..] == rows[i..e] + rows[e..];
  }

  lemma AllCopiesCons(file: File, files: seq<File>)
    ensures AllCopies([file] + files) == file.copies + AllCopies(files)
  {
    assert ([file] + files)[1..] == files;
  }

  /** No copy is lost, invented, repeated or moved. */
  lemma {:induction false} NothingLost(rows: seq<Row>, i: nat)
    requires i <= |rows|
    ensures AllCopies(Files(rows, i)) == Copies(rows[i..])
    decreases |rows| - i
  {
    if i < |rows| {
      var e := End(rows, i);
      NothingLost(rows, e);
      AllCopiesCons(Merged(rows[i..e]), Files(rows, e));
      CopiesSplit(rows, i, e);
    }
  }

  /** Where the groups start. */
  function Starts(rows: seq<Row>, i: nat): seq<nat>
    requires i <= |rows|
    decreases |rows| - i
  {
    if i == |rows| then [] else [i] + Starts(rows, End(rows, i))
  }

  predicate Ascending(s: seq<nat>) {
    forall i, j | 0 <= i < j < |s| :: s[i] < s[j]
  }

  lemma {:induction false} StartIffCut(rows: seq<Row>, i: nat, j: nat)
    requires i <= |rows|
    ensures j in Starts(rows, i) <==> i <= j < |rows| && (j == i || Cut(rows, j))
    decreases |rows| - i
  {
    if i < |rows| {
      var e := End(rows, i);
      StartIffCut(rows, e, j);
      assert Starts(rows, i) == [i] + Starts(rows, e);
      assert j in Starts(rows, i) <==> j == i || j in Starts(rows, e);
    }
  }

  lemma {:induction false} StartsAscend(rows: seq<Row>, i: nat)
    requires i <= |rows|
    ensures Ascending(Starts(rows, i))
    decreases |rows| - i
  {
    if i < |rows| {
      var e := End(rows, i);
      StartsAscend(rows, e);
      var rest := Starts(rows, e);
      forall k | 0 <= k < |rest| ensures i < rest[k] {
        StartIffCut(rows, e, rest[k]);
      }
    }
  }

  lemma {:induction false} AsManyFiles(rows: seq<Row>, i: nat)
    requires i <= |rows|
    ensures |Files(rows, i)| == |Starts(rows, i)|
    decreases |rows| - i
  {
    if i < |rows| { AsManyFiles(rows, End(rows, i)); }
  }

  lemma {:induction false} FileAt(rows: seq<Row>, i: nat, k: nat)
    requires i <= |rows| && k < |Starts(rows, i)|
    ensures |Files(rows, i)| == |Starts(rows, i)|
    ensures Starts(rows, i)[k] < |rows|
    ensures Files(rows, i)[k] == Merged(rows[Starts(rows, i)[k]..End(rows, Starts(rows, i)[k])])
    decreases |rows| - i
  {
    AsManyFiles(rows, i);
    if k > 0 { FileAt(rows, End(rows, i), k - 1); }
  }

  /** The groups are the maximal runs of one archive file id: one starts exactly where the id changes. */
  ghost predicate MaximalRuns(rows: seq<Row>, starts: seq<nat>) {
    && Ascending(starts)
    && (forall i | i in starts :: i < |rows|)
    && (forall i | 0 <= i < |rows| :: i in starts <==> i == 0 || rows[i - 1].id != rows[i].id)
  }

  /** A row of the archive file before it has a copy, and is not the first row that has one. */
  ghost predicate NoNeedlessCut(rows: seq<Row>) {
    forall i | 0 < i < |rows| && rows[i - 1].id == rows[i].id :: !Cut(rows, i)
  }

  /** The stream follows the maximal runs unless a row without a copy repeats the archive file before
      it, or only rows without a copy came before a row that does. */
  lemma GroupsAreMaximalRunsIff(rows: seq<Row>)
    ensures MaximalRuns(rows, Starts(rows, 0)) <==>
      forall i | 0 < i < |rows| && rows[i - 1].id == rows[i].id ::
        rows[i].copy.Some? && !NoCopies(rows[..i])
  {
    StartsAscend(rows, 0);
    AllStarts(rows);
    RunsIffNoNeedlessCut(rows, Starts(rows, 0));
    NeedlessCut(rows);
  }

  lemma NeedlessCut(rows: seq<Row>)
    ensures NoNeedlessCut(rows) <==>
      forall i | 0 < i < |rows| && rows[i - 1].id == rows[i].id :: rows[i].copy.Some? && !NoCopies(rows[..i])
  {
    forall i | 0 < i < |rows| && rows[i - 1].id == rows[i].id
      ensures !Cut(rows, i) <==> rows[i].copy.Some? && !NoCopies(rows[..i])
    {
    }
  }

  lemma AllStarts(rows: seq<Row>)
    ensures forall i: nat :: i in Starts(rows, 0) <==> i < |rows| && (i == 0 || Cut(rows, i))
  {
    forall i: nat ensures i in Starts(rows, 0) <==> i < |rows| && (i == 0 || Cut(rows, i)) {
      StartIffCut(rows, 0, i);
    }
  }

  lemma RunsIffNoNeedlessCut(rows: seq<Row>, starts: seq<nat>)
    requires Ascending(starts)
    requires forall i: nat :: i in starts <==> i < |rows| && (i == 0 || Cut(rows, i))
    ensures MaximalRuns(rows, starts) <==> NoNeedlessCut(rows)
  {
  }

  ghost predicate HaveCopies(rows: seq<Row>) {
    forall i | 0 <= i < |rows| :: rows[i].copy.Some?
  }

  /** Between two rows of one archive file there is no other file's row. */
  ghost predicate Contiguous(rows: seq<Row>) {
    forall i, j, k | 0 <= i < j < k < |rows| && rows[i].id == rows[k].id :: rows[j].id == rows[i].id
  }

  ghost predicate DistinctIds(files: seq<File>) {
    forall i, j | 0 <= i < j < |files| :: files[i].id != files[j].id
  }

  lemma CutIsChange(rows: seq<Row>, i: nat)
    requires 0 < i < |rows| && HaveCopies(rows)
    ensures Cut(rows, i) <==> rows[i - 1].id != rows[i].id
  {
    assert rows[..i][0].copy.Some?;
  }

  /** The group that row `j` is in. */
  lemma {:induction false} GroupOf(rows: seq<Row>, i: nat, j: nat) returns (k: nat)
    requires i <= j < |rows|
    ensures k < |Starts(rows, i)| && Starts(rows, i)[k] < |rows|
    ensures Starts(rows, i)[k] <= j < End(rows, Starts(rows, i)[k])
    decreases |rows| - i
  {
    var e := End(rows, i);
    if j < e {
      k := 0;
    } else {
      var k' := GroupOf(rows, e, j);
      k := k' + 1;
    }
  }

  lemma NotBetween(rows: seq<Row>, i: nat, j: nat, k: nat)
    requires Contiguous(rows) && i < j < k < |rows| && rows[j].id != rows[i].id
    ensures rows[k].id != rows[i].id
  {
  }

  /** After the group no row has its archive file. */
  lemma EndDiffers(rows: seq<Row>, s: nat, j: nat)
    requires HaveCopies(rows) && Contiguous(rows) && s < |rows| && End(rows, s) <= j < |rows|
    ensures rows[j].id != rows[s].id
  {
    var e := End(rows, s);
    CutIsChange(rows, e);
    GroupId(rows, s, e - 1);
    if e < j { NotBetween(rows, s, e, j); }
  }

  /** When the rows are contiguous a group has all the rows of its archive file. */
  lemma GroupHasAll(rows: seq<Row>, k: nat, j: nat)
    requires HaveCopies(rows) && Contiguous(rows)
    requires k < |Starts(rows, 0)| && j < |rows| && Starts(rows, 0)[k] < |rows|
    requires rows[j].id == rows[Starts(rows, 0)[k]].id
    ensures Starts(rows, 0)[k] <= j < End(rows, Starts(rows, 0)[k])
  {
    var s := Starts(rows, 0)[k];
    StartIffCut(rows, 0, s);
    assert s in Starts(rows, 0);
    if j < s { CutDiffers(rows, j, s); }
    if End(rows, s) <= j { EndDiffers(rows, s, j); }
  }

  /** Every archive file appears once exactly when equal ids are contiguous. */
  lemma OnceIffContiguous(rows: seq<Row>)
    requires HaveCopies(rows)
    ensures DistinctIds(Files(rows, 0)) <==> Contiguous(rows)
  {
    if DistinctIds(Files(rows, 0)) {
      forall i, j, k | 0 <= i < j < k < |rows| && rows[i].id == rows[k].id ensures rows[j].id == rows[i].id {
        var a := GroupOf(rows, 0, i);
        var b := GroupOf(rows, 0, k);
        SameIdSameGroup(rows, i, k, a, b);
        GroupId(rows, Starts(rows, 0)[a], i);
        GroupId(rows, Starts(rows, 0)[a], j);
      }
    }
    if Contiguous(rows) {
      AsManyFiles(rows, 0);
      forall a, b | 0 <= a < b < |Files(rows, 0)| ensures Files(rows, 0)[a].id != Files(rows, 0)[b].id {
        DifferentGroups(rows, a, b);
      }
    }
  }

  lemma SameIdSameGroup(rows: seq<Row>, i: nat, k: nat, a: nat, b: nat)
    requires DistinctIds(Files(rows, 0))
    requires i < |rows| && k < |rows| && rows[i].id == rows[k].id
    requires a < |Starts(rows, 0)| && Starts(rows, 0)[a] < |rows|
    requires b < |Starts(rows, 0)| && Starts(rows, 0)[b] < |rows|
    requires Starts(rows, 0)[a] <= i < End(rows, Starts(rows, 0)[a])
    requires Starts(rows, 0)[b] <= k < End(rows, Starts(rows, 0)[b])
    ensures a == b
  {
    FileAt(rows, 0, a);
    FileAt(rows, 0, b);
    GroupId(rows, Starts(rows, 0)[a], i);
    GroupId(rows, Starts(rows, 0)[b], k);
  }

  lemma DifferentGroups(rows: seq<Row>, a: nat, b: nat)
    requires HaveCopies(rows) && Contiguous(rows)
    requires a < b < |Files(rows, 0)| && |Files(rows, 0)| == |Starts(rows, 0)|
    ensures Files(rows, 0)[a].id != Files(rows, 0)[b].id
  {
    FileAt(rows, 0, a);
    FileAt(rows, 0, b);
    StartsAscend(rows, 0);
    var t := Starts(rows, 0)[b];
    StartIffCut(rows, 0, t);
    assert t in Starts(rows, 0);
    CutDiffers(rows, Starts(rows, 0)[a], t);
  }

  lemma CutDiffers(rows: seq<Row>, s: nat, t: nat)
    requires HaveCopies(rows) && Contiguous(rows) && s < t < |rows| && Cut(rows, t)
    ensures rows[s].id != rows[t].id
  {
    CutIsChange(rows, t);
  }
}

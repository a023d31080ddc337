/** What RdbmsCatalogueGetArchiveFilesForRepackItor returns: TAPE_FILE joined with itself on the
    archive file, ordered by the file sequence number on the repacked tape. */
module ArchiveFileRepack {
  import opened Tables
  import opened Invariant
  import opened ArchiveFileStream
  import opened ArchiveFileListing

  /** A joined row: a tape file of the repacked tape, and a copy of its archive file on any tape. */
  datatype Pair = Pair(onTape: Pos, copy: Pos)

  /** The tape files to repack: on this tape, from this file sequence number on. */
  function ToRepack(db: Db, vid: Vid, startFSeq: nat): set<Pos> {
    set p | p in db.live && p.vid == vid && p.fSeq >= startFSeq
  }

  function Join(db: Db, vid: Vid, startFSeq: nat): set<Pair> {
    set r, c | r in ToRepack(db, vid, startFSeq) && c in CopiesOf(db, db.live[r].archiveFileId) :: Pair(r, c)
  }

  ghost predicate ByTapeFSeq(pairs: seq<Pair>) {
    forall i, j | 0 <= i < j < |pairs| :: pairs[i].onTape.fSeq <= pairs[j].onTape.fSeq
  }

  function CopyColumn(pairs: seq<Pair>): seq<Pos> {
    seq(|pairs|, i requires 0 <= i < |pairs| => pairs[i].copy)
  }

  /** The tape files to repack, in file sequence order. */
  ghost predicate TapeFiles(db: Db, vid: Vid, startFSeq: nat, tape: seq<Pos>) {
    Enumerates(tape, ToRepack(db, vid, startFSeq)) && ByFSeq(tape)
  }

  /** The rows of the query, in any order that the ORDER BY allows. */
  ghost predicate QueryRows(db: Db, vid: Vid, startFSeq: nat, pairs: seq<Pair>) {
    Enumerates(pairs, Join(db, vid, startFSeq)) && ByTapeFSeq(pairs)
  }

  /** One archive file for one tape file, in order, each with all its copies on all tapes, once. */
  ghost predicate OnePerTapeFile(db: Db, tape: seq<Pos>, files: seq<File>) {
    && |files| == |tape|
    && forall k | 0 <= k < |tape| ::
         tape[k] in db.live && files[k].id == IdAt(db, tape[k]) && ListsCopies(db, db.live.Keys, files[k])
  }

  /** The next tape file belongs to another archive file. */
  ghost predicate NeighboursDiffer(db: Db, tape: seq<Pos>)
    requires forall p | p in tape :: p in db.live
  {
    forall k | 0 < k < |tape| :: IdAt(db, tape[k - 1]) != IdAt(db, tape[k])
  }

  ghost predicate Query(db: Db, vid: Vid, startFSeq: nat, pairs: seq<Pair>, tape: seq<Pos>) {
    && (forall p | p in db.live :: IdAt(db, p) in db.archive)
    && QueryRows(db, vid, startFSeq, pairs) && TapeFiles(db, vid, startFSeq, tape)
  }

  // ----- rows and tape files -----

  lemma PairIs(db: Db, vid: Vid, startFSeq: nat, pairs: seq<Pair>, i: nat)
    requires QueryRows(db, vid, startFSeq, pairs) && i < |pairs|
    ensures pairs[i].onTape in ToRepack(db, vid, startFSeq)
    ensures pairs[i].copy in db.live && IdAt(db, pairs[i].copy) == IdAt(db, pairs[i].onTape)
  {
    EnumeratesMember(pairs, Join(db, vid, startFSeq), pairs[i]);
  }

  lemma PairAt(db: Db, vid: Vid, startFSeq: nat, pairs: seq<Pair>, r: Pos, c: Pos) returns (i: nat)
    requires QueryRows(db, vid, startFSeq, pairs)
    requires r in ToRepack(db, vid, startFSeq) && c in CopiesOf(db, IdAt(db, r))
    ensures i < |pairs| && pairs[i] == Pair(r, c)
  {
    assert Pair(r, c) in Join(db, vid, startFSeq);
    EnumeratesMember(pairs, Join(db, vid, startFSeq), Pair(r, c));
    i :| 0 <= i < |pairs| && pairs[i] == Pair(r, c);
  }

  lemma PairsReadable(db: Db, vid: Vid, startFSeq: nat, pairs: seq<Pair>)
    requires QueryRows(db, vid, startFSeq, pairs)
    requires forall p | p in db.live :: IdAt(db, p) in db.archive
    ensures Readable(db, CopyColumn(pairs))
  {
    forall p | p in CopyColumn(pairs) ensures p in db.live {
      var i :| 0 <= i < |pairs| && CopyColumn(pairs)[i] == p;
      PairIs(db, vid, startFSeq, pairs, i);
    }
  }

  function Rows(db: Db, pairs: seq<Pair>): seq<Row>
    requires Readable(db, CopyColumn(pairs))
  {
    RowsOf(db, CopyColumn(pairs))
  }

  /** The first row at or above a file sequence number. */
  ghost function FirstAt(pairs: seq<Pair>, fSeq: nat): (e: nat)
    requires ByTapeFSeq(pairs)
    ensures e <= |pairs|
    ensures forall j | 0 <= j < |pairs| :: e <= j <==> fSeq <= pairs[j].onTape.fSeq
  {
    if pairs == [] then 0
    else
      var n := |pairs| - 1;
      if pairs[n].onTape.fSeq < fSeq then n + 1 else FirstAt(pairs[..n], fSeq)
  }

  /** Where the rows of tape file `k` start. */
  ghost function BlockStart(pairs: seq<Pair>, tape: seq<Pos>, k: nat): (i: nat)
    requires ByTapeFSeq(pairs) && k <= |tape|
    ensures i <= |pairs|
  {
    if k == |tape| then |pairs| else FirstAt(pairs, tape[k].fSeq)
  }

  /** The rows of tape file `k` are those between its start and the next one's. */
  lemma InBlock(db: Db, vid: Vid, startFSeq: nat, pairs: seq<Pair>, tape: seq<Pos>, k: nat, j: nat)
    requires Query(db, vid, startFSeq, pairs, tape) && k < |tape| && j < |pairs|
    ensures BlockStart(pairs, tape, k) <= j < BlockStart(pairs, tape, k + 1) <==> pairs[j].onTape == tape[k]
  {
    var selected := ToRepack(db, vid, startFSeq);
    PairIs(db, vid, startFSeq, pairs, j);
    EnumeratesMember(tape, selected, pairs[j].onTape);
    forall p | p in tape ensures p.vid == vid { EnumeratesMember(tape, selected, p); }
    var m :| 0 <= m < |tape| && tape[m] == pairs[j].onTape;
    TapeOrder(tape, vid, m, k);
    if k + 1 < |tape| { TapeOrder(tape, vid, m, k + 1); TapeOrder(tape, vid, k, k + 1); }
    assert m == k ==> tape[m] == tape[k];
    assert m != k ==> tape[m] != tape[k];
  }

  /** A tape file has rows: it is one of the copies of its own archive file. */
  lemma BlockNonempty(db: Db, vid: Vid, startFSeq: nat, pairs: seq<Pair>, tape: seq<Pos>, k: nat)
    requires Query(db, vid, startFSeq, pairs, tape) && k < |tape|
    ensures BlockStart(pairs, tape, k) < BlockStart(pairs, tape, k + 1)
  {
    EnumeratesMember(tape, ToRepack(db, vid, startFSeq), tape[k]);
    var j := PairAt(db, vid, startFSeq, pairs, tape[k], tape[k]);
    InBlock(db, vid, startFSeq, pairs, tape, k, j);
  }

  lemma RowId(db: Db, vid: Vid, startFSeq: nat, pairs: seq<Pair>, tape: seq<Pos>, k: nat, j: nat)
    requires Query(db, vid, startFSeq, pairs, tape) && k < |tape| && Readable(db, CopyColumn(pairs))
    requires BlockStart(pairs, tape, k) <= j < BlockStart(pairs, tape, k + 1)
    ensures tape[k] in db.live && pairs[j].onTape == tape[k] && Rows(db, pairs)[j].id == IdAt(db, tape[k])
  {
    InBlock(db, vid, startFSeq, pairs, tape, k, j);
    PairIs(db, vid, startFSeq, pairs, j);
  }

  ghost predicate NextDiffers(db: Db, tape: seq<Pos>, k: nat)
    requires k < |tape| && forall p | p in tape :: p in db.live
  {
    k + 1 < |tape| ==> IdAt(db, tape[k]) != IdAt(db, tape[k + 1])
  }

  /** The group of rows that starts with tape file `k` ends with it. */
  lemma GroupIsBlock(db: Db, vid: Vid, startFSeq: nat, pairs: seq<Pair>, tape: seq<Pos>, k: nat)
    requires Query(db, vid, startFSeq, pairs, tape) && k < |tape| && Readable(db, CopyColumn(pairs))
    requires forall p | p in tape :: p in db.live
    requires NextDiffers(db, tape, k)
    ensures BlockStart(pairs, tape, k) < |pairs|
    ensures End(Rows(db, pairs), BlockStart(pairs, tape, k)) == BlockStart(pairs, tape, k + 1)
  {
    var rows := Rows(db, pairs);
    var s, e := BlockStart(pairs, tape, k), BlockStart(pairs, tape, k + 1);
    BlockNonempty(db, vid, startFSeq, pairs, tape, k);
    forall j | s < j < e ensures !Cut(rows, j) {
      RowId(db, vid, startFSeq, pairs, tape, k, j - 1);
      RowId(db, vid, startFSeq, pairs, tape, k, j);
      CutIsChange(rows, j);
    }
    if k + 1 < |tape| {
      BlockNonempty(db, vid, startFSeq, pairs, tape, k + 1);
      RowId(db, vid, startFSeq, pairs, tape, k, e - 1);
      RowId(db, vid, startFSeq, pairs, tape, k + 1, e);
      CutIsChange(rows, e);
    }
    EndIs(rows, s, e);
  }

  /** The rows of one tape file are the copies of its archive file, each once. */
  lemma BlockLists(db: Db, vid: Vid, startFSeq: nat, pairs: seq<Pair>, tape: seq<Pos>, k: nat, f: File)
    requires Query(db, vid, startFSeq, pairs, tape) && k < |tape| && Readable(db, CopyColumn(pairs))
    requires BlockStart(pairs, tape, k) <= BlockStart(pairs, tape, k + 1)
    requires Carries(db, f, CopyColumn(pairs)[BlockStart(pairs, tape, k)..BlockStart(pairs, tape, k + 1)])
    ensures tape[k] in db.live && f.id == IdAt(db, tape[k]) && ListsCopies(db, db.live.Keys, f)
  {
    var s, e := BlockStart(pairs, tape, k), BlockStart(pairs, tape, k + 1);
    var ps := CopyColumn(pairs)[s..e];
    RowId(db, vid, startFSeq, pairs, tape, k, s);
    forall i, j | 0 <= i < j < |ps| ensures ps[i] != ps[j] {
      RowId(db, vid, startFSeq, pairs, tape, k, s + i);
      RowId(db, vid, startFSeq, pairs, tape, k, s + j);
      assert pairs[s + i] != pairs[s + j];
    }
    forall p ensures p in ps <==> p in db.live.Keys && p in db.live && IdAt(db, p) == f.id {
      BlockMember(db, vid, startFSeq, pairs, tape, k, p);
    }
    CarriesLists(db, db.live.Keys, f, ps);
  }

  lemma BlockMember(db: Db, vid: Vid, startFSeq: nat, pairs: seq<Pair>, tape: seq<Pos>, k: nat, p: Pos)
    requires Query(db, vid, startFSeq, pairs, tape) && k < |tape| && tape[k] in db.live
    requires BlockStart(pairs, tape, k) <= BlockStart(pairs, tape, k + 1)
    ensures
      p in CopyColumn(pairs)[BlockStart(pairs, tape, k)..BlockStart(pairs, tape, k + 1)] <==>
      p in db.live && IdAt(db, p) == IdAt(db, tape[k])
  {
    var s, e := BlockStart(pairs, tape, k), BlockStart(pairs, tape, k + 1);
    var ps := CopyColumn(pairs)[s..e];
    if p in ps {
      var j :| 0 <= j < |ps| && ps[j] == p;
      InBlock(db, vid, startFSeq, pairs, tape, k, s + j);
      PairIs(db, vid, startFSeq, pairs, s + j);
    }
    if p in db.live && IdAt(db, p) == IdAt(db, tape[k]) {
      EnumeratesMember(tape, ToRepack(db, vid, startFSeq), tape[k]);
      var j := PairAt(db, vid, startFSeq, pairs, tape[k], p);
      InBlock(db, vid, startFSeq, pairs, tape, k, j);
      assert ps[j - s] == p;
    }
  }

  // ----- the result -----

  /** One block more at the front. */
  lemma BlockInFront(db: Db, vid: Vid, startFSeq: nat, pairs: seq<Pair>, tape: seq<Pos>, k: nat, files: seq<File>)
    requires Query(db, vid, startFSeq, pairs, tape) && k < |tape| && Readable(db, CopyColumn(pairs))
    requires (forall p | p in tape :: p in db.live) && NeighboursDiffer(db, tape)
    requires files == Files(Rows(db, pairs), BlockStart(pairs, tape, k + 1)) && OnePerTapeFile(db, tape[k + 1..], files)
    ensures OnePerTapeFile(db, tape[k..], Files(Rows(db, pairs), BlockStart(pairs, tape, k)))
  {
    assert NextDiffers(db, tape, k);
    GroupIsBlock(db, vid, startFSeq, pairs, tape, k);
    var s, e := BlockStart(pairs, tape, k), BlockStart(pairs, tape, k + 1);
    var f := Merged(Rows(db, pairs)[s..e]);
    GroupCarries(db, CopyColumn(pairs), s, e);
    BlockLists(db, vid, startFSeq, pairs, tape, k, f);
    OnePerTapeFileCons(db, tape, k, f, files);
  }

  lemma {:induction false} FilesFromBlock(
      db: Db, vid: Vid, startFSeq: nat, pairs: seq<Pair>, tape: seq<Pos>, k: nat)
    requires Query(db, vid, startFSeq, pairs, tape) && k <= |tape| && Readable(db, CopyColumn(pairs))
    requires (forall p | p in tape :: p in db.live) && NeighboursDiffer(db, tape)
    ensures OnePerTapeFile(db, tape[k..], Files(Rows(db, pairs), BlockStart(pairs, tape, k)))
    decreases |tape| - k
  {
    if k < |tape| {
      FilesFromBlock(db, vid, startFSeq, pairs, tape, k + 1);
      BlockInFront(db, vid, startFSeq, pairs, tape, k, Files(Rows(db, pairs), BlockStart(pairs, tape, k + 1)));
    }
  }

  lemma OnePerTapeFileCons(db: Db, tape: seq<Pos>, k: nat, f: File, files: seq<File>)
    requires k < |tape| && tape[k] in db.live && f.id == IdAt(db, tape[k]) && ListsCopies(db, db.live.Keys, f)
    requires OnePerTapeFile(db, tape[k + 1..], files)
    ensures OnePerTapeFile(db, tape[k..], [f] + files)
  {
    forall m | 0 <= m < |tape[k..]|
      ensures tape[k..][m] in db.live && ([f] + files)[m].id == IdAt(db, tape[k..][m])
      ensures ListsCopies(db, db.live.Keys, ([f] + files)[m])
    {
      if m > 0 { assert tape[k..][m] == tape[k + 1..][m - 1]; }
    }
  }

  /** Two files that follow each other in the stream are different archive files. */
  lemma NextFileDiffers(rows: seq<Row>, k: nat)
    requires HaveCopies(rows) && 0 < k < |Files(rows, 0)|
    ensures Files(rows, 0)[k - 1].id != Files(rows, 0)[k].id
  {
    AsManyFiles(rows, 0);
    FileAt(rows, 0, k - 1);
    FileAt(rows, 0, k);
    NextStart(rows, 0, k);
    NextGroupDiffers(rows, Starts(rows, 0)[k - 1]);
  }

  lemma NextGroupDiffers(rows: seq<Row>, s: nat)
    requires HaveCopies(rows) && s < |rows| && End(rows, s) < |rows|
    ensures rows[End(rows, s)].id != rows[s].id
  {
    var t := End(rows, s);
    CutIsChange(rows, t);
    GroupId(rows, s, t - 1);
  }

  lemma {:induction false} NextStart(rows: seq<Row>, i: nat, k: nat)
    requires i <= |rows| && 0 < k < |Starts(rows, i)|
    ensures Starts(rows, i)[k - 1] < |rows| && Starts(rows, i)[k] == End(rows, Starts(rows, i)[k - 1]) < |rows|
    decreases |rows| - i
  {
    if k > 1 { NextStart(rows, End(rows, i), k - 1); }
  }

  /** The repack iterator returns one archive file for each tape file, in file sequence order, each with
      all its copies, if and only if no two neighbouring tape files belong to one archive file. */
  lemma RepackListsIff(db: Db, vid: Vid, startFSeq: nat, pairs: seq<Pair>, tape: seq<Pos>)
    requires Query(db, vid, startFSeq, pairs, tape)
    requires Readable(db, CopyColumn(pairs)) && (forall p | p in tape :: p in db.live)
    ensures OnePerTapeFile(db, tape, Files(Rows(db, pairs), 0)) <==> NeighboursDiffer(db, tape)
    ensures forall p | p in db.live :: p in tape <==> p.vid == vid && p.fSeq >= startFSeq
  {
    forall p | p in db.live ensures p in tape <==> p.vid == vid && p.fSeq >= startFSeq {
      EnumeratesMember(tape, ToRepack(db, vid, startFSeq), p);
    }
    var files := Files(Rows(db, pairs), 0);
    if NeighboursDiffer(db, tape) {
      FirstBlock(db, vid, startFSeq, pairs, tape);
      FilesFromBlock(db, vid, startFSeq, pairs, tape, 0);
      assert tape[0..] == tape;
    }
    if OnePerTapeFile(db, tape, files) {
      forall k | 0 < k < |tape| ensures IdAt(db, tape[k - 1]) != IdAt(db, tape[k]) {
        NextFileDiffers(Rows(db, pairs), k);
      }
    }
  }

  lemma FirstBlock(db: Db, vid: Vid, startFSeq: nat, pairs: seq<Pair>, tape: seq<Pos>)
    requires Query(db, vid, startFSeq, pairs, tape)
    ensures BlockStart(pairs, tape, 0) == 0
  {
    if pairs != [] {
      PairIs(db, vid, startFSeq, pairs, 0);
      EnumeratesMember(tape, ToRepack(db, vid, startFSeq), pairs[0].onTape);
      var m :| 0 <= m < |tape| && tape[m] == pairs[0].onTape;
      assert tape[0].fSeq <= tape[m].fSeq;
    }
  }

  // ----- neighbouring tape files of one archive file -----

  /** Tape files `a`, ..., `b - 1` are a maximal run of tape files of one archive file. */
  ghost predicate TapeRun(db: Db, tape: seq<Pos>, a: nat, b: nat)
    requires forall p | p in tape :: p in db.live
  {
    && a < b <= |tape|
    && (forall k | a <= k < b :: IdAt(db, tape[k]) == IdAt(db, tape[a]))
    && (b < |tape| ==> IdAt(db, tape[b]) != IdAt(db, tape[a]))
    && (0 < a ==> IdAt(db, tape[a - 1]) != IdAt(db, tape[a]))
  }

  lemma {:induction false} BlocksAscend(db: Db, vid: Vid, startFSeq: nat, pairs: seq<Pair>, tape: seq<Pos>, a: nat,
      b: nat)
    requires Query(db, vid, startFSeq, pairs, tape) && a <= b <= |tape|
    ensures BlockStart(pairs, tape, a) <= BlockStart(pairs, tape, b)
    decreases b - a
  {
    if a < b {
      BlocksAscend(db, vid, startFSeq, pairs, tape, a, b - 1);
      BlockNonempty(db, vid, startFSeq, pairs, tape, b - 1);
    }
  }

  /** The tape file whose rows row `j` is among. */
  lemma {:induction false} BlockOf(
      db: Db, vid: Vid, startFSeq: nat, pairs: seq<Pair>, tape: seq<Pos>, a: nat, b: nat, j: nat) returns (k: nat)
    requires Query(db, vid, startFSeq, pairs, tape) && a < b <= |tape|
    requires BlockStart(pairs, tape, a) <= j < BlockStart(pairs, tape, b)
    ensures a <= k < b && BlockStart(pairs, tape, k) <= j < BlockStart(pairs, tape, k + 1)
    decreases b - a
  {
    if BlockStart(pairs, tape, b - 1) <= j { k := b - 1; }
    else { k := BlockOf(db, vid, startFSeq, pairs, tape, a, b - 1, j); }
  }

  /** The group of rows that starts with a run of tape files ends with it. */
  lemma GroupIsRun(db: Db, vid: Vid, startFSeq: nat, pairs: seq<Pair>, tape: seq<Pos>, a: nat, b: nat)
    requires Query(db, vid, startFSeq, pairs, tape) && Readable(db, CopyColumn(pairs))
    requires (forall p | p in tape :: p in db.live) && TapeRun(db, tape, a, b)
    ensures BlockStart(pairs, tape, a) < BlockStart(pairs, tape, b)
    ensures End(Rows(db, pairs), BlockStart(pairs, tape, a)) == BlockStart(pairs, tape, b)
  {
    var rows := Rows(db, pairs);
    var s, e := BlockStart(pairs, tape, a), BlockStart(pairs, tape, b);
    BlockNonempty(db, vid, startFSeq, pairs, tape, a);
    BlocksAscend(db, vid, startFSeq, pairs, tape, a + 1, b);
    forall j | s <= j < e ensures rows[j].id == IdAt(db, tape[a]) {
      var k := BlockOf(db, vid, startFSeq, pairs, tape, a, b, j);
      RowId(db, vid, startFSeq, pairs, tape, k, j);
    }
    forall j | s < j < e ensures !Cut(rows, j) { CutIsChange(rows, j); }
    if b < |tape| {
      BlockNonempty(db, vid, startFSeq, pairs, tape, b);
      RowId(db, vid, startFSeq, pairs, tape, b, e);
      CutIsChange(rows, e);
    }
    EndIs(rows, s, e);
  }

  /** The rows of one tape file hold each copy of its archive file once. */
  lemma BlockCount(db: Db, vid: Vid, startFSeq: nat, pairs: seq<Pair>, tape: seq<Pos>, k: nat, p: Pos)
    requires Query(db, vid, startFSeq, pairs, tape) && k < |tape| && tape[k] in db.live
    requires BlockStart(pairs, tape, k) <= BlockStart(pairs, tape, k + 1)
    ensures multiset(CopyColumn(pairs)[BlockStart(pairs, tape, k)..BlockStart(pairs, tape, k + 1)])[p] ==
      if p in CopiesOf(db, IdAt(db, tape[k])) then 1 else 0
  {
    var s, e := BlockStart(pairs, tape, k), BlockStart(pairs, tape, k + 1);
    var ps := CopyColumn(pairs)[s..e];
    forall i, j | 0 <= i < j < |ps| ensures ps[i] != ps[j] {
      InBlock(db, vid, startFSeq, pairs, tape, k, s + i);
      InBlock(db, vid, startFSeq, pairs, tape, k, s + j);
      assert pairs[s + i] != pairs[s + j];
    }
    NoDupCount(ps, p);
    BlockMember(db, vid, startFSeq, pairs, tape, k, p);
  }

  lemma SliceCount<T>(s: seq<T>, i: nat, j: nat, e: nat, x: T)
    requires i <= j <= e <= |s|
    ensures multiset(s[i..e])[x] == multiset(s[i..j])[x] + multiset(s[j..e])[x]
  {
    assert s[i..e] == s[i..j] + s[j..e];
  }

  /** The rows of a run of tape files hold each copy of their archive file once for each of them. */
  lemma {:induction false} RunCount(
      db: Db, vid: Vid, startFSeq: nat, pairs: seq<Pair>, tape: seq<Pos>, a: nat, b: nat, p: Pos)
    requires Query(db, vid, startFSeq, pairs, tape) && a <= b <= |tape|
    requires (forall q | q in tape :: q in db.live)
    requires forall k | a <= k < b :: IdAt(db, tape[k]) == IdAt(db, tape[a])
    requires BlockStart(pairs, tape, a) <= BlockStart(pairs, tape, b)
    ensures multiset(CopyColumn(pairs)[BlockStart(pairs, tape, a)..BlockStart(pairs, tape, b)])[p] ==
      if a < b && p in CopiesOf(db, IdAt(db, tape[a])) then b - a else 0
    decreases b - a
  {
    if a < b {
      BlocksAscend(db, vid, startFSeq, pairs, tape, a, b - 1);
      BlocksAscend(db, vid, startFSeq, pairs, tape, b - 1, b);
      RunCount(db, vid, startFSeq, pairs, tape, a, b - 1, p);
      BlockCount(db, vid, startFSeq, pairs, tape, b - 1, p);
      SliceCount(CopyColumn(pairs), BlockStart(pairs, tape, a), BlockStart(pairs, tape, b - 1),
                 BlockStart(pairs, tape, b), p);
    }
  }

  /** What the stream holds for a maximal run of tape files of one archive file, from the first row of
      the run on: one file, with every copy of the archive file as often as the run has tape files. */
  lemma RunLists(db: Db, vid: Vid, startFSeq: nat, pairs: seq<Pair>, tape: seq<Pos>, a: nat, b: nat)
    requires Query(db, vid, startFSeq, pairs, tape) && Readable(db, CopyColumn(pairs))
    requires (forall p | p in tape :: p in db.live) && TapeRun(db, tape, a, b)
    ensures var files := Files(Rows(db, pairs), BlockStart(pairs, tape, a));
      && files != [] && files[0].id == IdAt(db, tape[a])
      && files[1..] == Files(Rows(db, pairs), BlockStart(pairs, tape, b))
      && forall p :: multiset(PositionsIn(files[0].copies))[p] ==
           if p in CopiesOf(db, IdAt(db, tape[a])) then b - a else 0
  {
    var s, e := BlockStart(pairs, tape, a), BlockStart(pairs, tape, b);
    GroupIsRun(db, vid, startFSeq, pairs, tape, a, b);
    GroupCarries(db, CopyColumn(pairs), s, e);
    BlockNonempty(db, vid, startFSeq, pairs, tape, a);
    RowId(db, vid, startFSeq, pairs, tape, a, s);
    var ps := CopyColumn(pairs)[s..e];
    assert PositionsIn(CopiesAt(db, ps)) == ps;
    forall p ensures multiset(ps)[p] == if p in CopiesOf(db, IdAt(db, tape[a])) then b - a else 0 {
      RunCount(db, vid, startFSeq, pairs, tape, a, b, p);
    }
  }

  /** No archive file has two copies to repack. */
  ghost predicate OneCopyOnTape(db: Db, vid: Vid, startFSeq: nat) {
    forall p, q | p in ToRepack(db, vid, startFSeq) && q in ToRepack(db, vid, startFSeq) && p != q ::
      IdAt(db, p) != IdAt(db, q)
  }

  lemma TapeFilesDiffer(db: Db, vid: Vid, startFSeq: nat, tape: seq<Pos>, i: nat, j: nat)
    requires TapeFiles(db, vid, startFSeq, tape) && OneCopyOnTape(db, vid, startFSeq) && i < j < |tape|
    ensures tape[i] in db.live && tape[j] in db.live && tape[i].fSeq < tape[j].fSeq
    ensures IdAt(db, tape[i]) != IdAt(db, tape[j])
  {
    var selected := ToRepack(db, vid, startFSeq);
    forall p | p in tape ensures p in selected { EnumeratesMember(tape, selected, p); }
    TapeOrder(tape, vid, i, j);
    assert tape[i] in tape && tape[j] in tape && tape[i] != tape[j];
  }

  /** With one copy on the tape, each archive file comes once, in strictly increasing file sequence order. */
  lemma RepackListsOnce(db: Db, vid: Vid, startFSeq: nat, pairs: seq<Pair>, tape: seq<Pos>)
    requires Inv(db) && QueryRows(db, vid, startFSeq, pairs) && TapeFiles(db, vid, startFSeq, tape)
    requires OneCopyOnTape(db, vid, startFSeq)
    ensures Readable(db, CopyColumn(pairs))
    ensures OnePerTapeFile(db, tape, Files(Rows(db, pairs), 0))
    ensures DistinctIds(Files(Rows(db, pairs), 0))
    ensures forall i, j | 0 <= i < j < |tape| :: tape[i].fSeq < tape[j].fSeq
    ensures forall p | p in db.live :: p in tape <==> p.vid == vid && p.fSeq >= startFSeq
  {
    PairsReadable(db, vid, startFSeq, pairs);
    forall p | p in tape ensures p in db.live {
      EnumeratesMember(tape, ToRepack(db, vid, startFSeq), p);
    }
    forall i, j | 0 <= i < j < |tape|
      ensures tape[i].fSeq < tape[j].fSeq && IdAt(db, tape[i]) != IdAt(db, tape[j])
    {
      TapeFilesDiffer(db, vid, startFSeq, tape, i, j);
    }
    RepackListsIff(db, vid, startFSeq, pairs, tape);
  }

  /** And only then: that each archive file comes once is equivalent to it. */
  lemma RepackListsOnceIff(db: Db, vid: Vid, startFSeq: nat, pairs: seq<Pair>, tape: seq<Pos>)
    requires Inv(db) && QueryRows(db, vid, startFSeq, pairs) && TapeFiles(db, vid, startFSeq, tape)
    ensures Readable(db, CopyColumn(pairs))
    ensures OneCopyOnTape(db, vid, startFSeq) <==>
      OnePerTapeFile(db, tape, Files(Rows(db, pairs), 0)) && DistinctIds(Files(Rows(db, pairs), 0))
  {
    PairsReadable(db, vid, startFSeq, pairs);
    if OneCopyOnTape(db, vid, startFSeq) { RepackListsOnce(db, vid, startFSeq, pairs, tape); }
    if OnePerTapeFile(db, tape, Files(Rows(db, pairs), 0)) && DistinctIds(Files(Rows(db, pairs), 0)) {
      OnceIsOneCopy(db, vid, startFSeq, tape, Files(Rows(db, pairs), 0));
    }
  }

  lemma OnceIsOneCopy(db: Db, vid: Vid, startFSeq: nat, tape: seq<Pos>, files: seq<File>)
    requires TapeFiles(db, vid, startFSeq, tape) && OnePerTapeFile(db, tape, files) && DistinctIds(files)
    ensures OneCopyOnTape(db, vid, startFSeq)
  {
    var selected := ToRepack(db, vid, startFSeq);
    forall p, q | p in selected && q in selected && p != q ensures IdAt(db, p) != IdAt(db, q) {
      EnumeratesMember(tape, selected, p);
      EnumeratesMember(tape, selected, q);
      var i :| 0 <= i < |tape| && tape[i] == p;
      var j :| 0 <= j < |tape| && tape[j] == q;
      assert files[i].id == IdAt(db, p) && files[j].id == IdAt(db, q);
    }
  }

  /** On every catalogue the query has its rows, and the tape its files, in these orders. */
  lemma QueryExists(db: Db, vid: Vid, startFSeq: nat) returns (pairs: seq<Pair>, tape: seq<Pos>)
    requires Inv(db)
    ensures Query(db, vid, startFSeq, pairs, tape)
  {
    pairs := SortedEnumeration(Join(db, vid, startFSeq), (x: Pair, y: Pair) => x.onTape.fSeq <= y.onTape.fSeq);
    tape := SortedEnumeration(ToRepack(db, vid, startFSeq), (p: Pos, q: Pos) => p.fSeq <= q.fSeq);
  }

  // ----- starting again further on -----

  /** `s` goes up strictly, and so does `t`, which has the members of `s` from `from` on. */
  ghost predicate LaterPart(s: seq<Pos>, t: seq<Pos>, from: nat) {
    && (forall i, j | 0 <= i < j < |s| :: s[i].fSeq < s[j].fSeq)
    && (forall i, j | 0 <= i < j < |t| :: t[i].fSeq < t[j].fSeq)
    && (forall p :: p in t <==> p in s && p.fSeq >= from)
  }

  lemma {:induction false} LaterPartIsSuffix(s: seq<Pos>, t: seq<Pos>, from: nat)
    requires LaterPart(s, t, from)
    ensures |t| <= |s| && t == s[|s| - |t|..]
  {
    if t == [] {
      assert s[|s|..] == [];
    } else {
      assert t[|t| - 1] in t;
      LastIsLast(s, t, from);
      ShorterLaterPart(s, t, from);
      LaterPartIsSuffix(s[..|s| - 1], t[..|t| - 1], from);
      SuffixWithLast(s, t);
    }
  }

  lemma SuffixWithLast<T>(s: seq<T>, t: seq<T>)
    requires s != [] && t != [] && s[|s| - 1] == t[|t| - 1] && |t| <= |s|
    requires t[..|t| - 1] == s[..|s| - 1][|s| - |t|..]
    ensures t == s[|s| - |t|..]
  {
    var n := |s| - |t|;
    assert s[n..] == s[..|s| - 1][n..] + [s[|s| - 1]];
    assert t == t[..|t| - 1] + [t[|t| - 1]];
  }

  lemma LastIsLast(s: seq<Pos>, t: seq<Pos>, from: nat)
    requires LaterPart(s, t, from) && t != [] && s != []
    ensures s[|s| - 1] == t[|t| - 1]
  {
    var x, y := s[|s| - 1], t[|t| - 1];
    assert y in t && x in s;
    var i :| 0 <= i < |s| && s[i] == y;
    assert x in t;
    var j :| 0 <= j < |t| && t[j] == x;
  }

  lemma ShorterLaterPart(s: seq<Pos>, t: seq<Pos>, from: nat)
    requires LaterPart(s, t, from) && t != [] && s != [] && s[|s| - 1] == t[|t| - 1]
    ensures LaterPart(s[..|s| - 1], t[..|t| - 1], from)
  {
    var x := s[|s| - 1];
    forall p ensures p in s[..|s| - 1] <==> p in s && p != x { WithoutLast(s, p); }
    forall p ensures p in t[..|t| - 1] <==> p in t && p != x { WithoutLast(t, p); }
  }

  lemma WithoutLast(s: seq<Pos>, p: Pos)
    requires s != [] && forall i, j | 0 <= i < j < |s| :: s[i].fSeq < s[j].fSeq
    ensures p in s[..|s| - 1] <==> p in s && p != s[|s| - 1]
  {
    assert s == s[..|s| - 1] + [s[|s| - 1]];
  }

  /** The same archive file with the same copies, perhaps in another order. */
  predicate SameFile(f: File, g: File) {
    f.id == g.id && f.archive == g.archive && multiset(PositionsIn(f.copies)) == multiset(PositionsIn(g.copies))
  }

  /** The files of `again` are the last files of `files`. */
  predicate AreLast(files: seq<File>, again: seq<File>) {
    && |again| <= |files|
    && forall k | 0 <= k < |again| :: SameFile(again[k], files[|files| - |again| + k])
  }

  /** A repack that starts again at `later` gets what the repack from `startFSeq` on gets for the tape files
      from `later` on: its files are the last ones of the other's, with the same copies. */
  lemma RestartLists(db: Db, vid: Vid, startFSeq: nat, pairs: seq<Pair>, tape: seq<Pos>,
                     later: nat, morePairs: seq<Pair>, rest: seq<Pos>)
    requires Inv(db) && startFSeq <= later && OneCopyOnTape(db, vid, startFSeq)
    requires QueryRows(db, vid, startFSeq, pairs) && TapeFiles(db, vid, startFSeq, tape)
    requires QueryRows(db, vid, later, morePairs) && TapeFiles(db, vid, later, rest)
    ensures Readable(db, CopyColumn(pairs)) && Readable(db, CopyColumn(morePairs))
    ensures |rest| <= |tape| && rest == tape[|tape| - |rest|..]
    ensures forall p | p in tape :: p in rest <==> p.fSeq >= later
    ensures |Files(Rows(db, pairs), 0)| == |tape|
    ensures AreLast(Files(Rows(db, pairs), 0), Files(Rows(db, morePairs), 0))
  {
    OneCopyFurtherOn(db, vid, startFSeq, later);
    RestIsSuffix(db, vid, startFSeq, tape, later, rest);
    var files := RepackFiles(db, vid, startFSeq, pairs, tape);
    var again := RepackFiles(db, vid, later, morePairs, rest);
    SameFilesInSuffix(db, tape, files, rest, again);
  }

  lemma RepackFiles(db: Db, vid: Vid, startFSeq: nat, pairs: seq<Pair>, tape: seq<Pos>) returns (files: seq<File>)
    requires Inv(db) && QueryRows(db, vid, startFSeq, pairs) && TapeFiles(db, vid, startFSeq, tape)
    requires OneCopyOnTape(db, vid, startFSeq)
    ensures Readable(db, CopyColumn(pairs)) && files == Files(Rows(db, pairs), 0) && OnePerTapeFile(db, tape, files)
  {
    RepackListsOnce(db, vid, startFSeq, pairs, tape);
    files := Files(Rows(db, pairs), 0);
  }

  lemma OneCopyFurtherOn(db: Db, vid: Vid, startFSeq: nat, later: nat)
    requires OneCopyOnTape(db, vid, startFSeq) && startFSeq <= later
    ensures OneCopyOnTape(db, vid, later)
  {
    assert ToRepack(db, vid, later) <= ToRepack(db, vid, startFSeq);
  }

  lemma RestIsSuffix(db: Db, vid: Vid, startFSeq: nat, tape: seq<Pos>, later: nat, rest: seq<Pos>)
    requires startFSeq <= later && TapeFiles(db, vid, startFSeq, tape) && TapeFiles(db, vid, later, rest)
    ensures |rest| <= |tape| && rest == tape[|tape| - |rest|..]
    ensures forall p | p in tape :: p in rest <==> p.fSeq >= later
  {
    forall p ensures p in rest <==> p in tape && p.fSeq >= later {
      EnumeratesMember(tape, ToRepack(db, vid, startFSeq), p);
      EnumeratesMember(rest, ToRepack(db, vid, later), p);
    }
    TapeFilesAscend(db, vid, startFSeq, tape);
    TapeFilesAscend(db, vid, later, rest);
    LaterPartIsSuffix(tape, rest, later);
  }

  lemma TapeFilesAscend(db: Db, vid: Vid, startFSeq: nat, tape: seq<Pos>)
    requires TapeFiles(db, vid, startFSeq, tape)
    ensures forall i, j | 0 <= i < j < |tape| :: tape[i].fSeq < tape[j].fSeq
  {
    forall p | p in tape ensures p.vid == vid { EnumeratesMember(tape, ToRepack(db, vid, startFSeq), p); }
    forall i, j | 0 <= i < j < |tape| ensures tape[i].fSeq < tape[j].fSeq { TapeOrder(tape, vid, i, j); }
  }

  lemma SameFilesInSuffix(db: Db, tape: seq<Pos>, files: seq<File>, rest: seq<Pos>, again: seq<File>)
    requires OnePerTapeFile(db, tape, files) && OnePerTapeFile(db, rest, again)
    requires |rest| <= |tape| && rest == tape[|tape| - |rest|..]
    ensures |files| == |tape| && AreLast(files, again)
  {
    var n := |tape| - |rest|;
    forall k | 0 <= k < |again| ensures SameFile(again[k], files[n + k]) {
      assert rest[k] == tape[n + k];
      SameListing(db, again[k], files[n + k]);
    }
  }

  lemma SameListing(db: Db, f: File, g: File)
    requires f.id == g.id && ListsCopies(db, db.live.Keys, f) && ListsCopies(db, db.live.Keys, g)
    ensures SameFile(f, g)
  {
    EnumerationsPermute(PositionsIn(f.copies), PositionsIn(g.copies), db.live.Keys * CopiesOf(db, f.id));
  }
}

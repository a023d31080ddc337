/** What RdbmsCatalogueGetArchiveFilesItor returns for a catalogue, in each of its three orders. */
module ArchiveFileListing {
  import opened Tables
  import opened Recycle
  import opened Invariant
  import opened ArchiveFileStream

  // ----- rows of a query -----

  predicate Readable(db: Db, ps: seq<Pos>) {
    forall p | p in ps :: p in db.live && db.live[p].archiveFileId in db.archive
  }

  function IdAt(db: Db, p: Pos): nat
    requires p in db.live
  {
    db.live[p].archiveFileId
  }

  function CopiesAt(db: Db, ps: seq<Pos>): seq<Copy>
    requires Readable(db, ps)
  {
    seq(|ps|, i requires 0 <= i < |ps| => Copy(ps[i], db.live[ps[i]]))
  }

  /** The result set whose rows carry the copies at `ps`: inner joins, so that no VID is null. */
  function RowsOf(db: Db, ps: seq<Pos>): (rows: seq<Row>)
    requires Readable(db, ps)
    ensures |rows| == |ps| && HaveCopies(rows)
  {
    seq(|ps|, i requires 0 <= i < |ps| =>
      Row(IdAt(db, ps[i]), db.archive[IdAt(db, ps[i])], Some(Copy(ps[i], db.live[ps[i]]))))
  }

  /** The file is the archive file of the copies at `ps`, with those copies in that order. */
  predicate Carries(db: Db, f: File, ps: seq<Pos>)
    requires Readable(db, ps)
  {
    && ps != []
    && f.id == IdAt(db, ps[0]) && f.archive == db.archive[f.id]
    && f.copies == CopiesAt(db, ps)
  }

  lemma RowsSlice(db: Db, ps: seq<Pos>, s: nat, e: nat)
    requires Readable(db, ps) && s <= e <= |ps|
    ensures Readable(db, ps[s..e]) && RowsOf(db, ps)[s..e] == RowsOf(db, ps[s..e])
  {
  }

  lemma CopiesAtSlice(db: Db, ps: seq<Pos>, n: nat)
    requires Readable(db, ps) && n < |ps|
    ensures Readable(db, ps[..n]) && CopiesAt(db, ps)[..n] == CopiesAt(db, ps[..n])
  {
  }

  lemma {:induction false} CopiesOfRows(db: Db, ps: seq<Pos>)
    requires Readable(db, ps)
    ensures Copies(RowsOf(db, ps)) == CopiesAt(db, ps)
  {
    if ps != [] {
      var n := |ps| - 1;
      CopiesAtSlice(db, ps, n);
      CopiesOfRows(db, ps[..n]);
      RowsSlice(db, ps, 0, n);
      assert CopiesAt(db, ps) == CopiesAt(db, ps)[..n] + [CopiesAt(db, ps)[n]];
    }
  }

  lemma GroupCarries(db: Db, ps: seq<Pos>, s: nat, e: nat)
    requires Readable(db, ps) && s < e <= |ps|
    ensures Carries(db, Merged(RowsOf(db, ps)[s..e]), ps[s..e])
  {
    RowsSlice(db, ps, s, e);
    CopiesOfRows(db, ps[s..e]);
  }

  // ----- each archive file once, with all its copies -----

  function PositionsIn(copies: seq<Copy>): seq<Pos> {
    seq(|copies|, i requires 0 <= i < |copies| => copies[i].pos)
  }

  /** The file lists, each once and as they are in TAPE_FILE, its copies at the selected positions. */
  predicate ListsCopies(db: Db, selected: set<Pos>, f: File) {
    && f.id in db.archive && f.archive == db.archive[f.id]
    && Enumerates(PositionsIn(f.copies), selected * CopiesOf(db, f.id))
    && (forall c | c in f.copies :: c.pos in db.live && c.row == db.live[c.pos])
  }

  function Ids(files: seq<File>): set<nat> {
    set f | f in files :: f.id
  }

  function SelectedIds(db: Db, selected: set<Pos>): set<nat>
    requires selected <= db.live.Keys
  {
    set p | p in selected :: db.live[p].archiveFileId
  }

  ghost predicate OncePerFile(db: Db, selected: set<Pos>, files: seq<File>)
    requires selected <= db.live.Keys
  {
    && DistinctIds(files)
    && Ids(files) == SelectedIds(db, selected)
    && (forall f | f in files :: ListsCopies(db, selected, f))
  }

  lemma CarriesLists(db: Db, selected: set<Pos>, f: File, ps: seq<Pos>)
    requires Readable(db, ps) && Carries(db, f, ps) && NoDup(ps)
    requires forall p :: p in ps <==> p in selected && p in db.live && IdAt(db, p) == f.id
    ensures ListsCopies(db, selected, f)
  {
    assert PositionsIn(f.copies) == ps;
    assert (set p | p in ps) == selected * CopiesOf(db, f.id);
  }

  /** When the rows are contiguous, a group is all the positions of its archive file. */
  lemma GroupMember(db: Db, ps: seq<Pos>, k: nat, p: Pos)
    requires Readable(db, ps) && Contiguous(RowsOf(db, ps))
    requires k < |Starts(RowsOf(db, ps), 0)| && Starts(RowsOf(db, ps), 0)[k] < |ps|
    ensures
      var s := Starts(RowsOf(db, ps), 0)[k];
      p in ps[s..End(RowsOf(db, ps), s)] <==> p in ps && IdAt(db, p) == IdAt(db, ps[s])
  {
    var s := Starts(RowsOf(db, ps), 0)[k];
    if p in ps[s..End(RowsOf(db, ps), s)] {
      MemberHasId(db, ps, s, p);
    }
    if p in ps && IdAt(db, p) == IdAt(db, ps[s]) {
      IdIsMember(db, ps, k, p);
    }
  }

  lemma IdIsMember(db: Db, ps: seq<Pos>, k: nat, p: Pos)
    requires Readable(db, ps) && Contiguous(RowsOf(db, ps)) && p in ps
    requires k < |Starts(RowsOf(db, ps), 0)| && Starts(RowsOf(db, ps), 0)[k] < |ps|
    requires IdAt(db, p) == IdAt(db, ps[Starts(RowsOf(db, ps), 0)[k]])
    ensures p in ps[Starts(RowsOf(db, ps), 0)[k]..End(RowsOf(db, ps), Starts(RowsOf(db, ps), 0)[k])]
  {
    var j :| 0 <= j < |ps| && ps[j] == p;
    var s := Starts(RowsOf(db, ps), 0)[k];
    GroupHasAll(RowsOf(db, ps), k, j);
    InSlice(ps, s, End(RowsOf(db, ps), s), j);
  }

  lemma NoDupSlice<T>(s: seq<T>, i: nat, e: nat)
    requires NoDup(s) && i <= e <= |s|
    ensures NoDup(s[i..e])
  {
    forall a, b | 0 <= a < b < |s[i..e]| ensures s[i..e][a] != s[i..e][b] { assert s[i + a] != s[i + b]; }
  }

  lemma InSlice<T>(s: seq<T>, i: nat, e: nat, j: nat)
    requires i <= j < e <= |s|
    ensures s[j] in s[i..e]
  {
    assert s[i..e][j - i] == s[j];
  }

  lemma MemberHasId(db: Db, ps: seq<Pos>, s: nat, p: Pos)
    requires Readable(db, ps) && s < |ps| && p in ps[s..End(RowsOf(db, ps), s)]
    ensures p in ps && IdAt(db, p) == IdAt(db, ps[s])
  {
    var j :| s <= j < End(RowsOf(db, ps), s) && ps[j] == p;
    GroupId(RowsOf(db, ps), s, j);
  }

  lemma GroupLists(db: Db, selected: set<Pos>, ps: seq<Pos>, k: nat)
    requires Readable(db, ps) && Enumerates(ps, selected)
    requires Contiguous(RowsOf(db, ps)) && k < |Starts(RowsOf(db, ps), 0)|
    ensures |Files(RowsOf(db, ps), 0)| == |Starts(RowsOf(db, ps), 0)|
    ensures ListsCopies(db, selected, Files(RowsOf(db, ps), 0)[k])
  {
    var rows := RowsOf(db, ps);
    FileAt(rows, 0, k);
    var s := Starts(rows, 0)[k];
    var e := End(rows, s);
    var f := Files(rows, 0)[k];
    GroupCarries(db, ps, s, e);
    forall p ensures p in ps[s..e] <==> p in selected && p in db.live && IdAt(db, p) == f.id {
      EnumeratesMember(ps, selected, p);
      GroupMember(db, ps, k, p);
    }
    NoDupSlice(ps, s, e);
    CarriesLists(db, selected, f, ps[s..e]);
  }

  lemma IdsAreSelected(db: Db, selected: set<Pos>, ps: seq<Pos>)
    requires Readable(db, ps) && Enumerates(ps, selected) && selected <= db.live.Keys
    ensures Ids(Files(RowsOf(db, ps), 0)) == SelectedIds(db, selected)
  {
    var rows := RowsOf(db, ps);
    var files := Files(rows, 0);
    AsManyFiles(rows, 0);
    forall f | f in files ensures f.id in SelectedIds(db, selected) {
      var k :| 0 <= k < |files| && files[k] == f;
      FileAt(rows, 0, k);
      EnumeratesMember(ps, selected, ps[Starts(rows, 0)[k]]);
    }
    forall p | p in selected ensures IdAt(db, p) in Ids(files) {
      EnumeratesMember(ps, selected, p);
      var j :| 0 <= j < |ps| && ps[j] == p;
      var k := GroupOf(rows, 0, j);
      FileAt(rows, 0, k);
      GroupId(rows, Starts(rows, 0)[k], j);
      assert files[k] in files;
    }
  }

  /** A result set lists each of its archive files once, with all the selected copies, if and only if
      no other file's row comes between two rows of one file. */
  lemma ListedOnceIff(db: Db, selected: set<Pos>, ps: seq<Pos>)
    requires Readable(db, ps) && Enumerates(ps, selected) && selected <= db.live.Keys
    ensures OncePerFile(db, selected, Files(RowsOf(db, ps), 0)) <==> Contiguous(RowsOf(db, ps))
  {
    var rows := RowsOf(db, ps);
    OnceIffContiguous(rows);
    IdsAreSelected(db, selected, ps);
    AsManyFiles(rows, 0);
    if Contiguous(rows) {
      forall f | f in Files(rows, 0) ensures ListsCopies(db, selected, f) {
        var k :| 0 <= k < |Files(rows, 0)| && Files(rows, 0)[k] == f;
        GroupLists(db, selected, ps, k);
      }
    }
  }

  // ----- the listing and its orders -----

  datatype SearchCriteria = SearchCriteria(
    archiveFileId: Option<nat>, diskInstance: Option<string>, vid: Option<Vid>,
    fSeq: Option<nat>, diskFileIds: Option<set<string>>)

  predicate Admits<T(==)>(wanted: Option<T>, x: T) {
    wanted.Some? ==> wanted.value == x
  }

  predicate Selects(db: Db, c: SearchCriteria, p: Pos)
    requires p in db.live && IdAt(db, p) in db.archive
  {
    var row := db.archive[IdAt(db, p)];
    && Admits(c.archiveFileId, IdAt(db, p)) && Admits(c.diskInstance, row.diskInstance)
    && Admits(c.vid, p.vid) && Admits(c.fSeq, p.fSeq)
    && (c.diskFileIds.Some? ==> row.diskFileId in c.diskFileIds.value)
  }

  function Selected(db: Db, c: SearchCriteria): set<Pos> {
    set p | p in db.live && IdAt(db, p) in db.archive && Selects(db, c, p)
  }

  /** ORDER BY ARCHIVE_FILE_ID, COPY_NB. */
  ghost predicate ByIdAndCopy(db: Db, ps: seq<Pos>)
    requires Readable(db, ps)
  {
    forall i, j | 0 <= i < j < |ps| ::
      IdAt(db, ps[i]) < IdAt(db, ps[j]) ||
      (IdAt(db, ps[i]) == IdAt(db, ps[j]) && db.live[ps[i]].copyNb <= db.live[ps[j]].copyNb)
  }

  /** ORDER BY DISK_FILE_ID, with the collation `rank`. */
  ghost predicate ByDiskFileId(db: Db, ps: seq<Pos>, rank: string -> int)
    requires Readable(db, ps)
  {
    forall i, j | 0 <= i < j < |ps| ::
      rank(db.archive[IdAt(db, ps[i])].diskFileId) <= rank(db.archive[IdAt(db, ps[j])].diskFileId)
  }

  /** ORDER BY FSEQ. */
  ghost predicate ByFSeq(ps: seq<Pos>) {
    forall i, j | 0 <= i < j < |ps| :: ps[i].fSeq <= ps[j].fSeq
  }

  /** Strings that compare equal are equal. */
  ghost predicate Collation(rank: string -> int) {
    forall a, b | rank(a) == rank(b) :: a == b
  }

  /** The order the constructor of the iterator asks for. */
  ghost predicate Ordered(db: Db, c: SearchCriteria, ps: seq<Pos>, rank: string -> int)
    requires Readable(db, ps)
  {
    if c.vid.Some? then ByFSeq(ps)
    else if c.diskInstance.Some? then ByDiskFileId(db, ps, rank)
    else ByIdAndCopy(db, ps)
  }

  lemma SelectedIsReadable(db: Db, c: SearchCriteria, ps: seq<Pos>)
    requires Enumerates(ps, Selected(db, c))
    ensures Readable(db, ps)
    ensures forall p | p in ps :: Selects(db, c, p)
  {
    forall p | p in ps ensures p in Selected(db, c) { EnumeratesMember(ps, Selected(db, c), p); }
  }

  lemma DiskOrderIsContiguous(db: Db, ps: seq<Pos>, instance: string, rank: string -> int)
    requires Readable(db, ps) && ByDiskFileId(db, ps, rank) && Collation(rank) && DiskKeysUnique(db.archive)
    requires forall p | p in ps :: db.archive[IdAt(db, p)].diskInstance == instance
    ensures Contiguous(RowsOf(db, ps))
  {
    var rows := RowsOf(db, ps);
    forall i, j, k | 0 <= i < j < k < |rows| && rows[i].id == rows[k].id ensures rows[j].id == rows[i].id {
      assert ps[i] in ps && ps[j] in ps;
      var a, b := db.archive[IdAt(db, ps[i])], db.archive[IdAt(db, ps[j])];
      assert rank(a.diskFileId) == rank(b.diskFileId);
      assert SameDiskKey(a, b);
    }
  }

  /** A listing by archive file or by disk instance: each archive file once, with every selected copy. */
  lemma ListedOnce(db: Db, c: SearchCriteria, ps: seq<Pos>, rank: string -> int)
    requires DiskKeysUnique(db.archive) && Collation(rank) && c.vid.None?
    requires Enumerates(ps, Selected(db, c)) && Readable(db, ps) && Ordered(db, c, ps, rank)
    ensures OncePerFile(db, Selected(db, c), Files(RowsOf(db, ps), 0))
  {
    SelectedIsReadable(db, c, ps);
    if c.diskInstance.Some? {
      DiskOrderIsContiguous(db, ps, c.diskInstance.value, rank);
    } else {
      SortedIsContiguous(db, ps);
    }
    ListedOnceIff(db, Selected(db, c), ps);
  }

  ghost predicate CopiesAscend(f: File) {
    forall i, j | 0 <= i < j < |f.copies| :: f.copies[i].row.copyNb < f.copies[j].row.copyNb
  }

  lemma LaterFileHasGreaterId(db: Db, ps: seq<Pos>, a: nat, b: nat)
    requires Readable(db, ps) && ByIdAndCopy(db, ps)
    requires a < b < |Files(RowsOf(db, ps), 0)|
    ensures Files(RowsOf(db, ps), 0)[a].id < Files(RowsOf(db, ps), 0)[b].id
  {
    var rows := RowsOf(db, ps);
    SortedIsContiguous(db, ps);
    AsManyFiles(rows, 0);
    DifferentGroups(rows, a, b);
    StartsAscend(rows, 0);
    FileAt(rows, 0, a);
    FileAt(rows, 0, b);
    IdsAscend(db, ps, Starts(rows, 0)[a], Starts(rows, 0)[b]);
  }

  lemma IdsAscend(db: Db, ps: seq<Pos>, s: nat, t: nat)
    requires Readable(db, ps) && ByIdAndCopy(db, ps) && s < t < |ps|
    ensures RowsOf(db, ps)[s].id <= RowsOf(db, ps)[t].id
  {
  }

  lemma SortedIsContiguous(db: Db, ps: seq<Pos>)
    requires Readable(db, ps) && ByIdAndCopy(db, ps)
    ensures Contiguous(RowsOf(db, ps))
  {
  }

  /** Without a tape or a disk instance: ascending archive file ids, and in each file ascending copy numbers. */
  lemma ListedInOrder(db: Db, ps: seq<Pos>)
    requires Readable(db, ps) && NoDup(ps) && ByIdAndCopy(db, ps) && OneCopyPerNumber(db.live)
    ensures forall a, b | 0 <= a < b < |Files(RowsOf(db, ps), 0)| ::
      Files(RowsOf(db, ps), 0)[a].id < Files(RowsOf(db, ps), 0)[b].id
    ensures forall a | 0 <= a < |Files(RowsOf(db, ps), 0)| :: CopiesAscend(Files(RowsOf(db, ps), 0)[a])
  {
    var rows := RowsOf(db, ps);
    AsManyFiles(rows, 0);
    forall a, b | 0 <= a < b < |Files(rows, 0)| ensures Files(rows, 0)[a].id < Files(rows, 0)[b].id {
      LaterFileHasGreaterId(db, ps, a, b);
    }
    forall a | 0 <= a < |Files(rows, 0)| ensures CopiesAscend(Files(rows, 0)[a]) {
      FileAt(rows, 0, a);
      GroupAscends(db, ps, Starts(rows, 0)[a]);
    }
  }

  lemma GroupAscends(db: Db, ps: seq<Pos>, s: nat)
    requires Readable(db, ps) && NoDup(ps) && ByIdAndCopy(db, ps) && OneCopyPerNumber(db.live)
    requires s < |ps|
    ensures CopiesAscend(Merged(RowsOf(db, ps)[s..End(RowsOf(db, ps), s)]))
  {
    var rows := RowsOf(db, ps);
    var e := End(rows, s);
    GroupCarries(db, ps, s, e);
    forall i, j | s <= i < j < e ensures db.live[ps[i]].copyNb < db.live[ps[j]].copyNb {
      GroupId(rows, s, i);
      GroupId(rows, s, j);
      assert ps[i] in ps && ps[j] in ps && !SameCopy(db.live[ps[i]], db.live[ps[j]]);
    }
  }

  /** On one tape, no other file's copy lies between two selected copies of one file. */
  ghost predicate Unbroken(db: Db, selected: set<Pos>)
    requires selected <= db.live.Keys
  {
    forall p, q, r | p in selected && q in selected && r in selected && p.fSeq < q.fSeq < r.fSeq &&
      IdAt(db, p) == IdAt(db, r) :: IdAt(db, q) == IdAt(db, p)
  }

  /** On one tape the file sequence numbers rise strictly. */
  lemma TapeOrder(ps: seq<Pos>, vid: Vid, i: nat, j: nat)
    requires NoDup(ps) && ByFSeq(ps) && (forall p | p in ps :: p.vid == vid)
    requires i < |ps| && j < |ps|
    ensures ps[i].fSeq < ps[j].fSeq <==> i < j
  {
    assert ps[i].vid == vid && ps[j].vid == vid;
    if i != j { assert ps[i] != ps[j]; }
  }

  /** A search by tape and nothing else: it goes to another iterator. */
  predicate TapeOnly(c: SearchCriteria) {
    c.archiveFileId.None? && c.diskInstance.None? && c.diskFileIds.None? && c.fSeq.None? && c.vid.Some?
  }

  /** A search by tape and something else, in file sequence order, names each archive file once if and
      only if no other selected file's copy lies between two selected copies of one file. */
  lemma TapeListedOnceIff(db: Db, c: SearchCriteria, vid: Vid, ps: seq<Pos>, rank: string -> int)
    requires c.vid == Some(vid) && !TapeOnly(c)
    requires Enumerates(ps, Selected(db, c)) && Readable(db, ps) && Ordered(db, c, ps, rank)
    ensures OncePerFile(db, Selected(db, c), Files(RowsOf(db, ps), 0)) <==> Unbroken(db, Selected(db, c))
  {
    SelectedIsReadable(db, c, ps);
    ListedOnceIff(db, Selected(db, c), ps);
    UnbrokenIsContiguous(db, Selected(db, c), ps, vid);
  }

  lemma UnbrokenIsContiguous(db: Db, selected: set<Pos>, ps: seq<Pos>, vid: Vid)
    requires selected <= db.live.Keys && Enumerates(ps, selected) && Readable(db, ps)
    requires ByFSeq(ps) && forall p | p in ps :: p.vid == vid
    ensures Contiguous(RowsOf(db, ps)) <==> Unbroken(db, selected)
  {
    var rows := RowsOf(db, ps);
    if Contiguous(rows) {
      forall p, q, r | p in selected && q in selected && r in selected && p.fSeq < q.fSeq < r.fSeq &&
        IdAt(db, p) == IdAt(db, r) ensures IdAt(db, q) == IdAt(db, p)
      {
        RowsBetween(db, selected, ps, vid, p, q, r);
      }
    }
    if Unbroken(db, selected) {
      forall i, j, k | 0 <= i < j < k < |rows| && rows[i].id == rows[k].id ensures rows[j].id == rows[i].id {
        PositionsBetween(selected, ps, vid, i, j, k);
      }
    }
  }

  lemma RowsBetween(db: Db, selected: set<Pos>, ps: seq<Pos>, vid: Vid, p: Pos, q: Pos, r: Pos)
    requires selected <= db.live.Keys && Enumerates(ps, selected) && Readable(db, ps)
    requires ByFSeq(ps) && (forall p | p in ps :: p.vid == vid) && Contiguous(RowsOf(db, ps))
    requires p in selected && q in selected && r in selected && p.fSeq < q.fSeq < r.fSeq && IdAt(db, p) == IdAt(db, r)
    ensures IdAt(db, q) == IdAt(db, p)
  {
    EnumeratesMember(ps, selected, p);
    EnumeratesMember(ps, selected, q);
    EnumeratesMember(ps, selected, r);
    var i :| 0 <= i < |ps| && ps[i] == p;
    var j :| 0 <= j < |ps| && ps[j] == q;
    var k :| 0 <= k < |ps| && ps[k] == r;
    TapeOrder(ps, vid, i, j);
    TapeOrder(ps, vid, j, k);
    assert i < j < k && RowsOf(db, ps)[i].id == RowsOf(db, ps)[k].id;
    assert RowsOf(db, ps)[j].id == RowsOf(db, ps)[i].id;
  }

  lemma PositionsBetween(selected: set<Pos>, ps: seq<Pos>, vid: Vid, i: nat, j: nat, k: nat)
    requires Enumerates(ps, selected) && ByFSeq(ps) && forall p | p in ps :: p.vid == vid
    requires i < j < k < |ps|
    ensures ps[i] in selected && ps[j] in selected && ps[k] in selected && ps[i].fSeq < ps[j].fSeq < ps[k].fSeq
  {
    TapeOrder(ps, vid, i, j);
    TapeOrder(ps, vid, j, k);
    EnumeratesMember(ps, selected, ps[i]);
    EnumeratesMember(ps, selected, ps[j]);
    EnumeratesMember(ps, selected, ps[k]);
  }

  // ----- the orders exist -----

  function IdOf(db: Db, p: Pos): nat {
    if p in db.live then db.live[p].archiveFileId else 0
  }

  function CopyNbOf(db: Db, p: Pos): nat {
    if p in db.live then db.live[p].copyNb else 0
  }

  function DiskFileIdOf(db: Db, p: Pos): string {
    if IdOf(db, p) in db.archive then db.archive[IdOf(db, p)].diskFileId else ""
  }

  /** Whatever a search selects, there is a result set in the order that it asks for. */
  lemma OrderExists(db: Db, c: SearchCriteria, rank: string -> int) returns (ps: seq<Pos>)
    ensures Enumerates(ps, Selected(db, c)) && Readable(db, ps) && Ordered(db, c, ps, rank)
  {
    if c.vid.Some? {
      ps := SortedEnumeration(Selected(db, c), (p: Pos, q: Pos) => p.fSeq <= q.fSeq);
      SelectedIsReadable(db, c, ps);
    } else if c.diskInstance.Some? {
      ps := DiskOrderExists(db, Selected(db, c), rank);
      SelectedIsReadable(db, c, ps);
      forall i | 0 <= i < |ps| ensures DiskFileIdOf(db, ps[i]) == db.archive[IdAt(db, ps[i])].diskFileId {
        assert ps[i] in ps;
      }
    } else {
      ps := IdOrderExists(db, Selected(db, c));
      SelectedIsReadable(db, c, ps);
      forall i | 0 <= i < |ps|
        ensures IdOf(db, ps[i]) == IdAt(db, ps[i]) && CopyNbOf(db, ps[i]) == db.live[ps[i]].copyNb
      {
        assert ps[i] in ps;
      }
    }
  }

  lemma DiskOrderExists(db: Db, selected: set<Pos>, rank: string -> int) returns (ps: seq<Pos>)
    ensures Enumerates(ps, selected)
    ensures forall i, j | 0 <= i < j < |ps| :: rank(DiskFileIdOf(db, ps[i])) <= rank(DiskFileIdOf(db, ps[j]))
  {
    ps := SortedEnumeration(selected, (p: Pos, q: Pos) => rank(DiskFileIdOf(db, p)) <= rank(DiskFileIdOf(db, q)));
  }

  lemma IdOrderExists(db: Db, selected: set<Pos>) returns (ps: seq<Pos>)
    ensures Enumerates(ps, selected)
    ensures forall i, j | 0 <= i < j < |ps| ::
      IdOf(db, ps[i]) < IdOf(db, ps[j]) ||
      (IdOf(db, ps[i]) == IdOf(db, ps[j]) && CopyNbOf(db, ps[i]) <= CopyNbOf(db, ps[j]))
  {
    ps := SortedEnumeration(selected, (p: Pos, q: Pos) =>
      IdOf(db, p) < IdOf(db, q) || (IdOf(db, p) == IdOf(db, q) && CopyNbOf(db, p) <= CopyNbOf(db, q)));
  }
}

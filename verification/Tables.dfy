/** The catalogue tables that the tape-file protocol reads and writes, and the constraints the
    schema (catalogue/common_catalogue_schema.sql) puts on them. */
module Tables {

  datatype Option<+T> = None | Some(value: T)

  type Vid = string

  /** The primary key of TAPE_FILE: a tape and a file sequence number on it. */
  datatype Pos = Pos(vid: Vid, fSeq: nat)

  datatype Tape = Tape(lastFSeq: nat, dataInBytes: nat, nbMasterFiles: nat, full: bool, dirty: bool)

  datatype ArchiveRow = ArchiveRow(
    diskInstance: string, diskFileId: string, ownerUid: nat, gid: nat,
    size: nat, checksum: string, storageClass: string, creationTime: nat)

  datatype TapeFile = TapeFile(archiveFileId: nat, copyNb: nat, blockId: nat, size: nat, creationTime: nat)

  /** A row of FILE_RECYCLE_LOG. `archive` holds the columns that
      insertFileInFileRecycleLog copies from the ARCHIVE_FILE row. */
  datatype LogEntry = LogEntry(
    pos: Pos, blockId: nat, copyNb: nat, tapeFileCreationTime: nat,
    archiveFileId: nat, archive: ArchiveRow, reason: string, time: nat)

  datatype Db = Db(
    tapes: map<Vid, Tape>,
    storageClasses: set<string>,
    diskInstances: set<string>,
    archive: map<nat, ArchiveRow>,
    live: map<Pos, TapeFile>,
    log: seq<LogEntry>)

  const REPACK_REASON := "REPACK"

  /** The live positions of one archive file. */
  function CopiesOf(db: Db, id: nat): set<Pos> {
    set p | p in db.live && db.live[p].archiveFileId == id
  }

  /** ARCHIVE_FILE_DIN_DFI_UN: no two archive files share a disk instance and disk file id. */
  predicate DiskKeysUnique(archive: map<nat, ArchiveRow>) {
    forall a, b | a in archive && b in archive && SameDiskKey(archive[a], archive[b]) :: a == b
  }

  predicate SameDiskKey(a: ArchiveRow, b: ArchiveRow) {
    a.diskInstance == b.diskInstance && a.diskFileId == b.diskFileId
  }

  /** No row of `archive` uses the disk key of `row`. */
  predicate DiskKeyFree(archive: map<nat, ArchiveRow>, row: ArchiveRow) {
    forall a | a in archive :: !SameDiskKey(archive[a], row)
  }

  /** TAPE_FILE_VID_BLOCK_ID_UN: no live row occupies this block of this tape. */
  predicate BlockFree(live: map<Pos, TapeFile>, vid: Vid, blockId: nat) {
    forall p | p in live && p.vid == vid :: live[p].blockId != blockId
  }

  /** The recycle-log row written for live row `p`, as the SELECT from ARCHIVE_FILE builds it. */
  function EntryFor(p: Pos, row: TapeFile, archive: ArchiveRow, reason: string, now: nat): LogEntry {
    LogEntry(p, row.blockId, row.copyNb, row.creationTime, row.archiveFileId, archive, reason, now)
  }

  predicate NoDup<T(==)>(s: seq<T>) {
    forall i, j | 0 <= i < j < |s| :: s[i] != s[j]
  }

  /** `s` lists the members of `xs`, each once, in some order. */
  predicate Enumerates<T(==)>(s: seq<T>, xs: set<T>) {
    NoDup(s) && (set x | x in s) == xs
  }

  lemma {:induction false} NoDupCount<T>(s: seq<T>, x: T)
    requires NoDup(s)
    ensures multiset(s)[x] == if x in s then 1 else 0
  {
    if s != [] {
      var n := |s| - 1;
      NoDupCount(s[..n], x);
      assert s == s[..n] + [s[n]];
    }
  }

  /** An enumeration of a set, as a multiset, is the set. */
  lemma EnumerationIsSet<T>(s: seq<T>, xs: set<T>)
    requires Enumerates(s, xs)
    ensures multiset(s) == multiset(xs)
  {
    forall x ensures multiset(s)[x] == multiset(xs)[x] { NoDupCount(s, x); }
  }

  lemma EnumerationSize<T>(s: seq<T>, xs: set<T>)
    requires Enumerates(s, xs)
    ensures |s| == |xs|
  {
    EnumerationIsSet(s, xs);
    assert |multiset(s)| == |s| && |multiset(xs)| == |xs|;
  }

  /** Two enumerations of one set are permutations of each other. */
  lemma EnumerationsPermute<T>(s: seq<T>, t: seq<T>, xs: set<T>)
    requires Enumerates(s, xs) && Enumerates(t, xs)
    ensures multiset(s) == multiset(t)
  {
    EnumerationIsSet(s, xs);
    EnumerationIsSet(t, xs);
  }

  lemma EnumeratesMember<T>(s: seq<T>, xs: set<T>, x: T)
    requires Enumerates(s, xs)
    ensures x in s <==> x in xs
  {
    assert x in s <==> x in (set y | y in s);
  }

  // ----- every ORDER BY can be met -----

  ghost predicate TotalOrder<T(!new)>(le: (T, T) -> bool) {
    (forall a, b :: le(a, b) || le(b, a)) && forall a, b, c | le(a, b) && le(b, c) :: le(a, c)
  }

  lemma {:induction false} Least<T(!new)>(xs: set<T>, le: (T, T) -> bool) returns (x: T)
    requires xs != {} && TotalOrder(le)
    ensures x in xs && forall y | y in xs :: le(x, y)
    decreases |xs|
  {
    x :| x in xs;
    assert le(x, x);
    if xs != {x} {
      var z := Least(xs - {x}, le);
      if le(z, x) {
        x := z;
      } else {
        assert forall y | y in xs :: y == x || le(z, y);
      }
    }
  }

  /** The members of a set can be listed in any order that compares all of them. */
  lemma {:induction false} SortedEnumeration<T(!new)>(xs: set<T>, le: (T, T) -> bool) returns (s: seq<T>)
    requires TotalOrder(le)
    ensures Enumerates(s, xs) && forall i, j | 0 <= i < j < |s| :: le(s[i], s[j])
    decreases |xs|
  {
    if xs == {} {
      s := [];
    } else {
      var x := Least(xs, le);
      var rest := SortedEnumeration(xs - {x}, le);
      s := [x] + rest;
      forall k | 0 <= k < |rest| ensures rest[k] in xs - {x} { EnumeratesMember(rest, xs - {x}, rest[k]); }
      assert (set y | y in s) == {x} + (set y | y in rest);
    }
  }
}

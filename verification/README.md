# Verified model of the CTA tape-file catalogue

The CERN Tape Archive keeps, in a relational catalogue, which archive file lies on which tape and at
which position. This project models the parts of that catalogue in which a mistake loses or duplicates
data, and proves what they keep.

* **The tape-file protocol** (`Tables`, `Batch`, `BatchItems`, `Recycle`, `RecycleRows`, `Invariant`,
  `RecycleInvariant`, `Runs`, `RunExamples`): the tables TAPE, ARCHIVE_FILE, TAPE_FILE and FILE_RECYCLE_LOG, and the steps that change
  them: write a batch (which may displace older copies, as repack does), move a file or one copy to the
  recycle log, restore an entry, purge, reclaim a tape. The invariant is proved for every serialised run. `BatchItems`
  and `RecycleRows` say a second time, row by row and column by column, when each step is taken and what it
  leaves, and are proved equivalent to the first.
* **How the steps run** (`Sessions`, `Transactions`, `Restore`, `RecycleOperations`, `RoundTrips`): the SQL
  programs of the two back ends, statement by statement, where every statement may be refused and the
  connection may be lost before or after any statement. `Sessions` is about transaction programs in general.
* **The two writers** (`WriterSteps`, `Writers`, `FilesWritten`, `Retry`): `filesWrittenToTape` for PostgreSQL and
  for Oracle as imperative programs on a failing connection, proved to mean the same thing, and the retry
  wrapper around them, with other sessions at work between its tries.
* **Concurrency** (`TapeLock`, `Deadlock`): interleaved writers as state machines, for the row lock on the tape
  and for the locks that the inserts into ARCHIVE_FILE take.
* **Dropping the schema** (`DropSchema`): the loop that drops what it can until nothing more can be dropped.
* **Listing archive files** (`ArchiveFileStream`, `ArchiveFileListing`, `TapeContents`, `ArchiveFileRepack`,
  `Deletion`, `Listed`): the builder and iterators that turn a cursor's rows into archive files, what the listing, tape
  and repack queries return through them, and the choice of the copy to delete.
* **Checking and creating the schema** (`SchemaComparer`, `SqlStatements`): the comparer and the splitter.
* **Failing cases** (`Examples`): small catalogues and fault lists on which a promise fails.

## Where the code differs from what it promises

* `insertTapeFile` commits in the middle of a restore, although the restore is described as one transaction.
  Even a successful restore shows other sessions the copy both live and in the recycle log
  (`Restore.RestoreShowsHalf`), and exactly which faults leave it there is `Restore.RestoreOutcomes`. As long as the
  copy is live the entry cannot be restored again (`Restore.HalfRestoredIsStuck`). It also stamps the current
  time, so that a restored copy does not get its creation time back.
* A restore may be asked for by disk instance, and compares it with the recycle log only. If the archive file was
  created again from another instance, the copy becomes one of that file (`Examples.RestoredUnderOtherInstance`). The
  archive row has the instance asked for if and only if the restore creates it or it had that instance before
  (`RecycleRows.RestoredInstanceIff`).
* Returning a connection to its pool commits. `deleteTapeFileCopy` has no rollback guard, so that on Oracle a
  refused statement publishes half a move (`Transactions.HalfMovedOnOracleIff`). PostgreSQL does not, because
  it turns the commit of a failed transaction into a rollback.
* A move to the recycle log uses a snapshot that the caller read earlier. It conserves the recorded positions
  if and only if the snapshot still names the live positions (`Recycle.MovedFileConservesIff`,
  `Examples.StaleSnapshotLosesACopy`).
* A live copy has the size of its archive file in all runs only if no batch creates an archive file afresh
  under another size than the one its entries in the recycle log have (`Invariant.WriteKeepsSizesIff`,
  `RunExamples.RecreatedFileBreaksSizes`).
* A batch is applied at most once, but only as long as its tape is not reclaimed (`Runs.AppliedAtMostOnce`,
  `RunExamples.ReclaimAllowsASecondTime`).
* The Oracle writer inserts archive rows in tape order, and each row takes two unique keys, its archive file id and
  then its disk key. Two writers can deadlock if and only if there are two points in their work at which they hold no
  key in common and each wants a key that the other holds (`Deadlock.TwoWritersDeadlockIff`), for instance with the
  same two new files in opposite orders, or with no archive file in common but two disk keys in opposite orders
  (`Deadlock.OppositeOrdersCanDeadlock`, `Deadlock.DisjointIdsCanDeadlock`). They have to be in different processes,
  because OracleCatalogue::filesWrittenToTape holds a mutex of its process (catalogue/OracleCatalogue.cpp, line 399).
  The PostgreSQL writer sorts the rows by archive file id and defers the check of disk keys, and cannot deadlock in the
  insertion of archive rows.
* The listing of a tape by itself has one entry for each tape file, and so names an archive file with two copies
  there twice (`TapeContents.ContentsOnceIff`). A search by tape and something else joins copies that follow each
  other and names a file twice if another selected file's copy lies in between
  (`ArchiveFileListing.TapeListedOnceIff`).
* The repack iterator returns one archive file for a run of neighbouring tape files of the same file, with every
  copy repeated as often as the run is long (`ArchiveFileRepack.RunLists`).
* Text after the last semicolon of a schema is ignored without an error (`SqlStatements.NothingDroppedIff`).

## Modelling choices

Tables are maps by primary key; FILE_RECYCLE_LOG, which has no natural key, is a sequence. Tape capacity
counters wrap at 64 bits as in the code; all other numbers are unbounded. The clock, the disk file id of a
restore, faults, the listing order of the database server, string collation and the order of rows that an ORDER BY
leaves open are parameters or unconstrained choices. The schema's constraints used are those of
catalogue/common_catalogue_schema.sql (309-376): primary keys, foreign keys, the unique disk key of ARCHIVE_FILE
(deferred on PostgreSQL) and the unique block of TAPE_FILE. There is no constraint on archive file and copy number.
The insertion of an archive row on Oracle is taken to enter the archive file id first and the disk key second.

## Model

| member | source | states |
|---|---|---|
| `Batch.FilePositions` | catalogue/PostgresCatalogue.cpp:391-418 | the file positions of an accepted batch are distinct, on its one tape, and in the range just above LAST_FSEQ |
| `Batch.WrittenIsUnique` | catalogue/PostgresCatalogue.cpp:420-538 | what a batch writes is determined, up to the order of the rows it adds to the recycle log |
| `BatchItems.AcceptsIff` | catalogue/PostgresCatalogue.cpp:391-538 | a batch is taken iff its items fit: fields given, one known tape, gapless from LAST_FSEQ, size and checksum of the archive file or a creatable one, free position and block, no two files alike |
| `BatchItems.WrittenItems` | catalogue/PostgresCatalogue.cpp:420-538 | what a batch that is taken leaves: the tape's counters, each file's columns in ARCHIVE_FILE and TAPE_FILE, a log row with its columns for each copy replaced, and every other row as it was |
| `BatchItems.ItemsDetermine` | catalogue/PostgresCatalogue.cpp:420-538 | these columns leave nothing open: they determine all tables, up to the order of the new log rows |
| `Listed.WrittenIsListed` | catalogue/RdbmsCatalogue.cpp:8087-8110 | after a batch, a search by the archive file id of any of its files returns that one file, with the item's columns if the batch created it, and with the copy at the item's position |
| `Invariant.LogAfterWrite` | catalogue/PostgresCatalogue.cpp:670-716 | a recycle-log row after a batch is an old one or the entry of a displaced live copy |
| `Invariant.WriteKeepsOneCopy` | catalogue/PostgresCatalogue.cpp:516-535 | displacement leaves one live copy for an archive file and copy number |
| `Invariant.WriteKeepsDisjoint` | catalogue/PostgresCatalogue.cpp:518-535 | inserting the new rows and deleting the displaced ones by position leaves no position both live and recycled |
| `Invariant.WriteKeepsInv` | catalogue/PostgresCatalogue.cpp:359-545 | an accepted batch keeps the whole invariant: unique and bounded positions, one copy per number, archive row iff live copy, unique blocks and disk keys, references |
| `Invariant.WriteKeepsSizesIff` | catalogue/PostgresCatalogue.cpp:443-468 | live and recycled copies keep their archive file's size iff the batch recreates no archive file under a size other than its recycled copies have |
| `Invariant.NewPositionsAreFree` | catalogue/PostgresCatalogue.cpp:399-416 | under the invariant the primary key of TAPE_FILE never refuses a consecutive batch |
| `Recycle.MovedFileConservesIff` | catalogue/PostgresCatalogue.cpp:1016-1046 | a file move conserves the recorded positions iff the caller's snapshot lists the live positions of the file, each once |
| `Recycle.MovedCopiesConserveIff` | catalogue/PostgresCatalogue.cpp:1078-1108 | a copy move conserves the recorded positions iff the snapshot lists live positions, each once, or there is nothing to move |
| `Recycle.CurrentSnapshotConserves` | catalogue/RdbmsCatalogue.cpp:10275-10295 | a snapshot that is still current names exactly the live positions and conserves them |
| `RecycleRows.FileMovedIff` | catalogue/PostgresCatalogue.cpp:1016-1031 | the move of a file, exactly: its rows are gone, its tapes are dirty, each copy of the snapshot has a log row with its columns, and all else is as it was |
| `RecycleRows.CopiesMovedIff` | catalogue/PostgresCatalogue.cpp:1076-1108 | the move of copies, exactly, in the same way |
| `RecycleRows.MatchingIsOnlyRow` | catalogue/RdbmsCatalogueGetFileRecycleLogItor.cpp:80-106 | the search of a restore finds one entry iff exactly one log row has the columns asked for, and it is that one |
| `RecycleRows.RestorableIff` | catalogue/PostgresCatalogue.cpp:1113-1156 | what a caller can check in advance: one log row asked for, its position and block free, its copy number free or its archive row creatable |
| `RecycleRows.RestoredIsAskedFor` | catalogue/PostgresCatalogue.cpp:1113-1193 | the one position that is live again is on the tape asked for, its row has the archive file id and copy number asked for, and a created archive row the log row's columns |
| `RecycleRows.RestoredInstanceIff` | catalogue/PostgresCatalogue.cpp:1131-1147 | the archive row has the disk instance asked for iff it was not there before or had that instance |
| `RecycleInvariant.MoveKeepsInv` | catalogue/RdbmsCatalogue.cpp:10275-10435 | moving copies to the recycle log, with the archive row if they were the last, keeps the invariant |
| `RecycleInvariant.MoveKeepsSizes` | catalogue/RdbmsCatalogue.cpp:10300-10370 | a move keeps live and recycled sizes in agreement |
| `RecycleInvariant.VisibleIffArchived` | catalogue/RdbmsCatalogue.cpp:8519-8590 | under the invariant getArchiveFileById finds a file exactly when its archive row exists |
| `RecycleInvariant.RestoreKeepsInv` | catalogue/PostgresCatalogue.cpp:1113-1193 | a restore that is not refused keeps the invariant |
| `RecycleInvariant.RestoreKeepsLiveSizesIff` | catalogue/PostgresCatalogue.cpp:1161-1193 | a restore, which takes the copy's size from the entry's archive columns, keeps live sizes right iff the entry agrees with the archive row it finds |
| `RecycleInvariant.RestoreConserves` | catalogue/PostgresCatalogue.cpp:1113-1156 | a restore moves exactly one position from the log to the live table |
| `RecycleInvariant.PurgeKeepsInv` | catalogue/RdbmsCatalogue.cpp:10626-10650 | purging a tape's entries keeps the invariant and the sizes |
| `RecycleInvariant.PurgeRemoves` | catalogue/RdbmsCatalogue.cpp:10626-10650 | a purge removes the recycled positions of its tape and no others |
| `RecycleInvariant.ReclaimKeepsInv` | catalogue/RdbmsCatalogue.cpp:4726-4769 | resetting LAST_FSEQ to zero is safe: no position of a reclaimable tape remains on record |
| `Runs.StepKeepsInv` | catalogue/PostgresCatalogue.cpp:359-545 | every step of the protocol keeps the invariant |
| `Runs.InvAlways` | catalogue/PostgresCatalogue.cpp:378-535 | in every state of every serialised run each position is recorded at most once across TAPE_FILE and FILE_RECYCLE_LOG, never above LAST_FSEQ, and a copy number is live at most once |
| `Runs.SizesAlways` | catalogue/PostgresCatalogue.cpp:443-468 | in every serialised run whose batches respect the recycle log's sizes every live copy has the size of its archive file, also after restores |
| `Runs.StepPositions` | catalogue/PostgresCatalogue.cpp:1016-1193 | moves and restores conserve the recorded positions; only accepted batches add positions, exactly those of their files; only purges and reclaims remove some, recycled ones of their tape |
| `Runs.WriteAddsPositions` | catalogue/PostgresCatalogue.cpp:510-535 | displaced copies stay on record when a batch adds its own |
| `Runs.StepRaisesFSeq` | catalogue/RdbmsCatalogue.cpp:8859-8895 | LAST_FSEQ falls only when its tape is reclaimed |
| `Runs.ReclaimIs` | catalogue/RdbmsCatalogue.cpp:4690-4769 | a reclaim of a full tape without live files resets its row and takes its rows out of the log; any other changes nothing |
| `Runs.ResetOnlyWhenFull` | catalogue/RdbmsCatalogue.cpp:4690-4769 | in every run LAST_FSEQ falls only by a reclaim while the tape is full and has no live file |
| `Runs.AppliedAtMostOnce` | catalogue/CatalogueRetryWrapper.hpp:82-84 | a committed batch fails the sequence check in every later state of every run until its tape is reclaimed |
| `Runs.PlaceholdersOnly` | catalogue/PostgresCatalogue.cpp:424-430 | a batch of placeholders changes LAST_FSEQ and nothing else |
| `RunExamples.ReclaimAllowsASecondTime` | catalogue/RdbmsCatalogue.cpp:4690-4769 | a run in which a batch is written, its file deleted, the tape filled and reclaimed, and the same batch written again, which recreates the deleted archive file |
| `RunExamples.RecreatedFileBreaksSizes` | catalogue/PostgresCatalogue.cpp:1161-1193 | a run in which a restored copy does not have its archive file's size |
| `Sessions.PostgresIsAtomic` | rdbms/wrapper/PostgresConn.cpp:93-110 | a PostgreSQL transaction is all or nothing under every fault, with or without a rollback guard, at every moment another session looks |
| `Sessions.LastAutocommitsIsAtomic` | catalogue/OracleCatalogue.cpp:1059-1088 | Oracle: switching autocommit on before the last statement, under a rollback guard, publishes all or nothing |
| `Sessions.OffThenCommitOutcome` | rdbms/ConnPool.cpp:75-120 | Oracle with autocommit off and a final commit: exactly what is committed after each fault, given that returning the connection commits |
| `Sessions.UnguardedOracleIff` | catalogue/OracleCatalogue.cpp:1119-1149 | without a rollback guard the program is all or nothing, in the end and for every session that looks on the way, iff no statement is refused while the connection survives, or the statements before the refused one amount to nothing or to the whole effect |
| `Sessions.HalfWayOutcomes` | catalogue/RdbmsCatalogue.cpp:9383-9441 | for every list of faults, which of its start, what its first half publishes and its whole effect a program that commits half way leaves; when it ends normally; and that the intermediate state is then visible |
| `Sessions.ReleasedIsIdle` | rdbms/ConnPool.cpp:75-120 | whatever was done on it, a connection that goes back open is as the pool hands it out |
| `Sessions.TransactionEnds` | rdbms/wrapper/PostgresConn.cpp:93-110 | commit and rollback end a PostgreSQL transaction and leave Oracle in its mode; outside a transaction a failed statement leaves no trace |
| `Sessions.LostConnectionDoesNothing` | rdbms/ConnPool.cpp:75-120 | on a lost connection a program commits nothing and fails |
| `Transactions.StatementKeepsKeys` | catalogue/common_catalogue_schema.sql:309-376 | no statement, whatever its place in a program, breaks a foreign key or a unique constraint |
| `Transactions.MoveFileEffect` | catalogue/RdbmsCatalogue.cpp:10243-10435 | the statements of a file move compose to the move, or to a refusal iff the snapshot names an unknown tape |
| `Transactions.MoveFileIsAtomic` | catalogue/OracleCatalogue.cpp:1059-1088 | whatever fails, on both back ends, other sessions see the file not moved at all or wholly moved |
| `Transactions.MoveCopyIsAtomicOnPostgres` | catalogue/PostgresCatalogue.cpp:1078-1108 | on PostgreSQL every session sees, at every line and in the end, the copy not moved at all or wholly moved; without faults it is moved iff the tape is known |
| `Transactions.HalfMovedOnOracleIff` | catalogue/OracleCatalogue.cpp:1119-1149 | on Oracle the copy is left in both tables iff a statement after the insert into the log is refused while the connection survives |
| `Restore.InsertEffect` | catalogue/PostgresCatalogue.cpp:1126-1177 | the inserts of a restore succeed together iff the entry is restorable |
| `Restore.RestoreOutcomes` | catalogue/PostgresCatalogue.cpp:1113-1193 | for every list of faults: nothing is done iff the entry is not restorable or the inner commit is not carried out; otherwise everything iff the delete from the log is published, and the copy is in both tables iff it is not |
| `Restore.RestoreSucceeds` | catalogue/PostgresCatalogue.cpp:1113-1156 | a restore succeeds iff the entry is restorable and no line of it fails, and then everything is done |
| `Restore.RestoreShowsHalf` | catalogue/RdbmsCatalogue.cpp:9383-9441 | in every successful restore another session can read the copy in both tables between the two commits |
| `Restore.HalfRestoredIsStuck` | catalogue/PostgresCatalogue.cpp:1126-1141 | the half-restored state records the position twice, and the entry is refused in it and in every other state in which the copy is live |
| `Restore.RestoreDisplacesNothing` | catalogue/RdbmsCatalogue.cpp:10528-10576 | in a restore that passed its check insertTapeFile displaces no copy |
| `WriterSteps.CheckItems` | catalogue/PostgresCatalogue.cpp:391-418 | the loop accepts iff the events are well formed, on one tape and gapless from LAST_FSEQ + 1; it returns the files and their total size modulo 2^64; each error names a fault that some item has |
| `WriterSteps.OrderByArchiveFileId` | catalogue/PostgresCatalogue.cpp:650-653 | the rows in ascending archive file id: a permutation of the batch |
| `WriterSteps.InsertOnConflictDoNothing` | catalogue/PostgresCatalogue.cpp:625-653 | keeps every archive row and adds one for each new id of a known storage class; refused only if some new file names an unknown disk instance |
| `WriterSteps.InsertBatchErrorMode` | catalogue/OracleCatalogue.cpp:707-727 | every new file of a known storage class gets its row unless its id or disk key is taken; keys stay unique; fails only if some new file names an unknown disk instance |
| `WriterSteps.VerifyAgainstArchive` | catalogue/PostgresCatalogue.cpp:443-468 | passes iff ids are distinct and every file is in the archive with its size and checksum; each error names a fault that the batch has |
| `WriterSteps.SelectDisplaced` | catalogue/PostgresCatalogue.cpp:670-716 | enumerates exactly the live rows with a file and copy number of the batch at another position |
| `WriterSteps.InsertTapeFiles` | catalogue/PostgresCatalogue.cpp:518-526 | inserts all rows, keeping the others, or none iff a position or block is taken |
| `Writers.DeleteAfterInsert` | catalogue/PostgresCatalogue.cpp:518-535 | deleting the displaced rows by position after the insert removes no new and no unrelated row |
| `Writers.LogDisplaced` | catalogue/PostgresCatalogue.cpp:690-712 | one recycle-log row for each displaced copy, or nothing published |
| `Writers.DeleteDisplaced` | catalogue/PostgresCatalogue.cpp:528-535 | the displaced rows and no others are deleted, or nothing published |
| `FilesWritten.AcceptedIff` | catalogue/PostgresCatalogue.cpp:443-538 | the checks made on the inserted rows pass iff the batch is acceptable for the tables before it |
| `FilesWritten.NothingIgnored` | catalogue/OracleCatalogue.cpp:707-727 | an ignored unique-constraint error belongs to an unacceptable batch or to an archive file that was there |
| `FilesWritten.PostgresFilesWrittenToTape` | catalogue/PostgresCatalogue.cpp:359-545 | under every fault: done means exactly the batch was written; failed means nothing changed, or the connection was lost after the commit; without faults it succeeds iff the batch is acceptable; both also item by item, and the error of a failed call names a fault that the batch has |
| `FilesWritten.OracleFilesWrittenToTape` | catalogue/OracleCatalogue.cpp:389-608 | the same contract for the Oracle program, which inserts the archive rows in tape order and ignores unique-constraint errors |
| `FilesWritten.WritersAgree` | catalogue/OracleCatalogue.cpp:389-608 | from the same tables and batch both programs refuse and change nothing, or commit the same tables |
| `FilesWritten.WrittenIsOutOfSequence` | catalogue/PostgresCatalogue.cpp:399-416 | a committed batch is out of sequence from then on |
| `Retry.RetryFilesWrittenToTape` | catalogue/retryOnLostConnection.hpp:44-69 | however many tries lose their connection before or after the commit, and whatever other sessions do between them short of reclaiming the tape, the batch is applied at most once in the history of all this, and success means it was applied |
| `Retry.StepKeepsSchema` | catalogue/common_catalogue_schema.sql:309-376 | every step, also a move with a stale snapshot, keeps the foreign keys of TAPE_FILE and the unique disk keys |
| `Retry.QuietCallIsStep` | catalogue/CatalogueRetryWrapper.hpp:82-84 | a call in which nothing goes wrong is a step of the protocol |
| `RecycleOperations.MoveArchiveFileToRecycleLog` | catalogue/RdbmsCatalogue.cpp:10157-10238 | no snapshot: nothing to do; inconsistent request: refused; otherwise all or nothing; row by row; a request for another disk instance than the snapshot's, or without a path, changes nothing; without faults it is a step of the protocol |
| `Deletion.GetArchiveFileForDeletion` | catalogue/RdbmsCatalogue.cpp:8412-8478 | by identifier or by disk file id: returns the copy on the tape of the first file found iff the search is well asked and that file has several copies, exactly one of them there; the caller has named that file, no other file if one key is given, and the file has another copy on another tape |
| `Deletion.FoundIsAskedFor` | catalogue/RdbmsCatalogue.cpp:8426-8428 | a search by one of the two unique keys finds at most one archive file |
| `RecycleOperations.DeleteTapeFileCopy` | catalogue/RdbmsCatalogue.cpp:8484-8489 | all or nothing on PostgreSQL; on Oracle the faults decide: a statement refused while the connection survives leaves the effect of those before it, otherwise the move is complete if its commit was carried out and there is no change if not; a move that is complete also row by row |
| `RecycleOperations.RestoreFileInRecycleLog` | catalogue/RdbmsCatalogue.cpp:8202-8214 | refused without change unless exactly one entry matches and is restorable; otherwise the faults decide, exactly, between nothing, half and all, and success means all; said on columns: it succeeds without faults iff one log row is asked for and may return, and it is that one that returns; without faults it is a step of the protocol |
| `RecycleOperations.InterruptedReclaimCompletes` | catalogue/RdbmsCatalogue.cpp:4726-4769 | a reclaim cut off after the purge can be run again, with the same end |
| `RoundTrips.MoveThenRestoreAll` | catalogue/PostgresCatalogue.cpp:1016-1193 | restoring all entries of a moved file one by one, in any order, gives back the live copies, the recycle log and the archive row, up to the creation times and the disk file id that the first restore sets |
| `RoundTrips.MovedFileTrip` | catalogue/RdbmsCatalogue.cpp:10157-10238 | moveArchiveFileToRecycleLog with a current snapshot sets up that round trip |
| `RoundTrips.DeleteCopyThenRestore` | catalogue/PostgresCatalogue.cpp:1078-1193 | deleting a copy and restoring it is the identity on log and archive rows, and on the live table, up to the creation time, iff the copy had its archive file's size |
| `RoundTrips.DisplacedIsNotRestorable` | catalogue/PostgresCatalogue.cpp:1130-1141 | the entry of a copy that repack displaced is in the log and is refused while the new copy is live |
| `TapeLock.CommittedBatchesTile` | catalogue/PostgresCatalogue.cpp:332-354 | in every interleaving of writers on a tape the committed batches tile the sequence numbers above the initial LAST_FSEQ, without gap or overlap, and none is committed twice |
| `TapeLock.RunContinues` | catalogue/PostgresCatalogue.cpp:332-354 | whatever event is possible in the last state of a run continues the run |
| `Deadlock.WaitsIffStuck` | catalogue/PostgresCatalogue.cpp:642-653 | a transaction at work waits for another exactly while it can neither lock its tape row, insert nor commit |
| `Deadlock.NoCycle` | catalogue/PostgresCatalogue.cpp:650-653 | with ascending inserts of archive rows the wait-for graph has no cycle |
| `Deadlock.AscendingInsertsNeverDeadlock` | catalogue/PostgresCatalogue.cpp:642-653 | no run of any number of sorted writers, with the disk key deferred, reaches a deadlock in the insertion of archive rows |
| `Deadlock.TwoWritersDeadlockIff` | catalogue/OracleCatalogue.cpp:613-727 | two writers can come to wait for each other iff they write to different tapes and there are two points in their rows at which, given the committed keys, they hold no key in common and each wants an archive file id or disk key that the other holds |
| `Deadlock.OppositeOrdersCanDeadlock` | catalogue/OracleCatalogue.cpp:613-727 | so two batches that hold any two new archive files in opposite tape orders can deadlock |
| `Deadlock.DisjointIdsCanDeadlock` | catalogue/common_catalogue_schema.sql:323-326 | so can two batches without a common archive file, through two disk keys in opposite orders |
| `Deadlock.SameFirstRowNeverDeadlocks` | catalogue/OracleCatalogue.cpp:613-727 | two batches that begin with the same new archive file cannot deadlock, whatever follows |
| `DropSchema.CoreIsStuck` | catalogue/DropSchemaCmd.cpp:126-164 | every table of the core is referenced by another member or by CTA_CATALOGUE |
| `DropSchema.StuckIsInCore` | catalogue/DropSchemaCmd.cpp:126-164 | the core contains every set of tables with that property, so it is the largest |
| `DropSchema.CoreEmptyIff` | catalogue/DropSchemaCmd.cpp:126-164 | everything can be dropped iff the rest is acyclic, apart from self-references, and CTA_CATALOGUE references none of it |
| `DropSchema.DropRound` | catalogue/DropSchemaCmd.cpp:130-145 | a round that drops nothing has every table blocked; each further round extends a reference chain |
| `DropSchema.DropAllButCatalogue` | catalogue/DropSchemaCmd.cpp:126-150 | the rounds end, at most two more than the longest chain among droppable tables has references, and leave exactly the core and CTA_CATALOGUE, in whatever order tables are listed |
| `DropSchema.ChainIffPath` | catalogue/DropSchemaCmd.cpp:126-150 | the chains that bound the rounds are the paths of references between different tables |
| `DropSchema.DropDatabaseTables` | catalogue/DropSchemaCmd.cpp:126-164 | succeeds iff CTA_CATALOGUE exists and the core is empty; CTA_CATALOGUE goes last |
| `DropSchema.DropDatabaseSequences` | catalogue/DropSchemaCmd.cpp:169-180 | drops every sequence and no table iff the server refuses none; otherwise it fails and what is refused is still there |
| `DropSchema.DropCatalogueSchema` | catalogue/DropSchemaCmd.cpp:104-121 | every state on the way keeps CTA_CATALOGUE while anything else is left; no table goes if a sequence is refused; other database types are refused unchanged; in no state is a table left with a reference to a table that is gone |
| `DropSchema.Execute` | catalogue/DropSchemaCmd.cpp:48-80 | a production database is never altered; a confirmed drop of another one succeeds iff no sequence is refused and the core is empty |
| `DropSchema.CanBeRestarted` | catalogue/DropSchemaCmd.cpp:61-74 | in any state in which the drop of an acyclic schema is cut off, nothing is left or a new drop can complete |
| `DropSchema.CutOffAndRunAgain` | catalogue/DropSchemaCmd.cpp:48-80 | a confirmed drop of a schema that can be dropped, cut off in any state and run again there, ends with no table and no sequence left |
| `DropSchema.ReferencingTableGoesFirst` | catalogue/DropSchemaCmd.cpp:130-145 | of two tables the referencing one has to go first |
| `DropSchema.BothTablesGo` | catalogue/DropSchemaCmd.cpp:130-145 | and then both can go |
| `DropSchema.ReferencesToCatalogue` | catalogue/DropSchemaCmd.cpp:126-164 | a table that references CTA_CATALOGUE can be dropped, one that CTA_CATALOGUE references cannot |
| `ArchiveFileStream.ArchiveFileBuilder.Append` | catalogue/ArchiveFileBuilder.hpp:111-176 | each branch: start, join, complete and start the next, or the error for more than one copy, which leaves the builder unchanged |
| `ArchiveFileStream.Itor.HasMore` | catalogue/RdbmsCatalogueGetArchiveFilesItor.cpp:212-225 | true iff an archive file is still to come |
| `ArchiveFileStream.Itor.Next` | catalogue/RdbmsCatalogueGetArchiveFilesItor.cpp:230-288 | returns the first of the files still to come and leaves the rest; fails iff hasMore was not called or nothing is to come |
| `ArchiveFileStream.Drain` | catalogue/RdbmsCatalogueGetArchiveFilesItor.cpp:212-288 | the client's loop never sees an error and collects exactly the files still to come |
| `ArchiveFileStream.NothingLost` | catalogue/ArchiveFileBuilder.hpp:111-176 | for every stream of rows the files hold the rows' copies, none lost, repeated or moved |
| `ArchiveFileStream.GroupsAreMaximalRunsIff` | catalogue/ArchiveFileBuilder.hpp:115-176 | the files are the maximal runs of one archive file id iff no row without a copy splits one |
| `ArchiveFileStream.OnceIffContiguous` | catalogue/RdbmsCatalogueGetArchiveFilesItor.cpp:151-160 | every archive file comes once iff its rows are contiguous |
| `ArchiveFileListing.ListedOnceIff` | catalogue/RdbmsCatalogueGetArchiveFilesItor.cpp:82-160 | a query's files are its archive files, once each with all selected copies, iff its rows are contiguous |
| `ArchiveFileListing.ListedOnce` | catalogue/RdbmsCatalogueGetArchiveFilesItor.cpp:151-160 | ordering by archive file id, or by disk file id within an instance, lists each archive file once with all selected copies |
| `ArchiveFileListing.ListedInOrder` | catalogue/RdbmsCatalogueGetArchiveFilesItor.cpp:158-160 | ascending archive file ids and, in each file, strictly ascending copy numbers |
| `ArchiveFileListing.OrderExists` | catalogue/RdbmsCatalogueGetArchiveFilesItor.cpp:149-161 | whatever a search selects, there is a result set in the order it asks for |
| `ArchiveFileListing.TapeListedOnceIff` | catalogue/RdbmsCatalogueGetArchiveFilesItor.cpp:154-155 | a search by tape and a further criterion names each archive file once iff no other selected file's copy lies between two selected copies of one file |
| `TapeContents.TapeContentsItor.Next` | catalogue/RdbmsCatalogueTapeContentsItor.cpp:157-178 | returns the file of the current row and moves on; fails iff hasMore was not called or no row is left |
| `TapeContents.ContentsList` | catalogue/RdbmsCatalogueTapeContentsItor.cpp:79-112 | the contents of a tape: one archive file for each tape file on it, each with that one copy, in strictly increasing sequence order |
| `TapeContents.ContentsOnceIff` | catalogue/RdbmsCatalogueTapeContentsItor.cpp:149-178 | the contents name each archive file once iff no archive file has two copies on the tape |
| `TapeContents.SearchByPosition` | catalogue/RdbmsCatalogueGetArchiveFilesItor.cpp:95-155 | a search by tape and sequence number lists the copy at that position, in its archive file, and nothing else |
| `TapeContents.ListArchiveFiles` | catalogue/RdbmsCatalogue.cpp:8087-8110 | a search is refused for bad criteria; a search by tape alone lists tape files, any other lists archive files through the builder; the files hold exactly the live copies that have the columns asked for, each once and as stored |
| `ArchiveFileRepack.RepackListsIff` | catalogue/RdbmsCatalogueGetArchiveFilesForRepackItor.cpp:98-222 | one archive file per tape file from the start on, in sequence order, each with all its copies on all tapes once, iff no two neighbouring tape files belong to one archive file; these are the live copies on the tape from the start sequence number on |
| `ArchiveFileRepack.RunLists` | catalogue/RdbmsCatalogueGetArchiveFilesForRepackItor.cpp:98-222 | for a maximal run of neighbouring tape files of one archive file the stream has one file, with every copy as often as the run has tape files |
| `ArchiveFileRepack.RepackListsOnce` | catalogue/RdbmsCatalogueGetArchiveFilesForRepackItor.cpp:98-114 | if no archive file has two copies to repack, moreover each comes once, in strictly increasing sequence order |
| `ArchiveFileRepack.RepackListsOnceIff` | catalogue/RdbmsCatalogueGetArchiveFilesForRepackItor.cpp:98-114 | and only then does each come once |
| `ArchiveFileRepack.QueryExists` | catalogue/RdbmsCatalogueGetArchiveFilesForRepackItor.cpp:98-114 | on every sound catalogue the repack query has rows in its order |
| `ArchiveFileRepack.RestartLists` | catalogue/RdbmsCatalogueGetArchiveFilesForRepackItor.cpp:98-120 | a repack started again further on returns the last files of the first one, with the same copies: those of the tape files from there on |
| `Examples.StaleSnapshotLosesACopy` | catalogue/RdbmsCatalogue.cpp:10275-10390 | on a sound catalogue a snapshot read before a repack records the old position twice and loses the new one |
| `Examples.RestoredUnderOtherInstance` | catalogue/PostgresCatalogue.cpp:1124-1147 | on a sound catalogue a restore asked for one disk instance makes the copy one of a file of another instance |
| `Examples.RepackDoublesCopies` | catalogue/RdbmsCatalogueGetArchiveFilesForRepackItor.cpp:98-114 | on a sound catalogue with the two copies of a file next to each other repack returns the file with each copy twice |
| `Examples.ContentsRepeatFile` | catalogue/RdbmsCatalogueTapeContentsItor.cpp:157-178 | on the same catalogue the contents of the tape name the file twice |
| `Examples.BrokenTapeRepeatsFile` | catalogue/RdbmsCatalogueGetArchiveFilesItor.cpp:154-155 | on a sound catalogue with another file's copy in between a search by tape and disk instance names a file twice |
| `Examples.RefusedStatementHalfMoves` | catalogue/OracleCatalogue.cpp:1119-1149 | on Oracle one refused statement leaves the copy live and in the recycle log |
| `Examples.RefusedDeleteHalfRestores` | catalogue/PostgresCatalogue.cpp:1113-1156 | on both back ends a refused delete leaves a restored copy in the recycle log |
| `SchemaComparer.SchemaCheckerResult.Append` | catalogue/SchemaCheckerResult.cpp:41-49 | concatenates errors and warnings; failed stays equivalent to having an error |
| `SchemaComparer.SchemaCheckerResult.AddError` | catalogue/SchemaCheckerResult.cpp:54-57 | adds the error and fails the result |
| `SchemaComparer.SchemaCheckerResult.AddWarning` | catalogue/SchemaCheckerResult.cpp:59-61 | adds the warning and never changes success |
| `SchemaComparer.CompareItems` | catalogue/SQLiteSchemaComparer.cpp:93-106 | reports exactly the items that one side has and the other has not |
| `SchemaComparer.CompareTableColumns` | catalogue/SQLiteSchemaComparer.cpp:134-162 | reports exactly the tables, columns and types of one side that the other does not match |
| `SchemaComparer.SQLiteSchemaComparer.CompareTableLists` | catalogue/SQLiteSchemaComparer.cpp:108-132 | reports exactly the differences in constraints of the schema's tables and, both ways, in tables and columns |
| `SchemaComparer.NoDifferenceIff` | catalogue/SQLiteSchemaComparer.cpp:108-162 | nothing is reported iff the table lists agree and each table has the same columns, types and constraints |
| `SchemaComparer.SQLiteSchemaComparer.CompareTables` | catalogue/SQLiteSchemaComparer.cpp:53-59 | success iff the two sides have the same tables with the same columns, types and constraints; fails without a reader |
| `SchemaComparer.SQLiteSchemaComparer.CompareTablesLocatedInSchema` | catalogue/SQLiteSchemaComparer.cpp:61-72 | success iff the database has every table of the schema, alike |
| `SchemaComparer.SQLiteSchemaComparer.CompareIndexes` | catalogue/SQLiteSchemaComparer.cpp:86-91 | success iff the index names are the same |
| `SchemaComparer.SQLiteSchemaComparer.CompareAll` | catalogue/SQLiteSchemaComparer.cpp:45-51 | success iff tables and indexes both agree |
| `SqlStatements.TrimString` | common/utils/utils.cpp:272-297 | the two scans compute the trimmed string, also for blank text |
| `SqlStatements.TrimIs` | common/utils/utils.cpp:272-297 | trimming strips exactly the blanks at both ends |
| `SqlStatements.SpacesAre` | common/utils/utils.cpp:272-297 | blank are the characters 9 to 13 and 32 |
| `SqlStatements.GetAllStatementsFromSchema` | catalogue/SchemaSqlStatementsReader.cpp:70-89 | returns the statements of the text, each with one semicolon |
| `SqlStatements.ExecuteNonQueries` | catalogue/CreateSchemaCmd.cpp:134-153 | executes the same statements in order, up to the first one the database refuses |
| `SqlStatements.StatementsAreClean` | catalogue/SchemaSqlStatementsReader.cpp:75-84 | every statement is non-empty, trimmed and free of semicolons |
| `SqlStatements.SplitJoin` | catalogue/SchemaSqlStatementsReader.cpp:70-89 | joining any clean statements and splitting gives them back |
| `SqlStatements.SplitIsStable` | catalogue/SchemaSqlStatementsReader.cpp:70-89 | splitting the concatenation of a split returns the same list |
| `SqlStatements.NothingDroppedIff` | catalogue/SchemaSqlStatementsReader.cpp:75-84 | no visible character is dropped iff the text after the last semicolon is blank |
| `SqlStatements.UnterminatedIsDropped` | catalogue/SchemaSqlStatementsReader.cpp:75-84 | so the last statement of a text is dropped if it has no semicolon |
| `SqlStatements.SecondStatementIsDropped` | catalogue/SchemaSqlStatementsReader.cpp:75-84 | of `A; B` only `A` is left |

## Left out

- Tape pools, storage-class administration, drives, mount policies, requester rules and their caches: statements on single tables and lookups in them, apart from the tape-file protocol.
- The columns COLLOCATION_HINT, RECONCILIATION_TIME, DISK_FILE_PATH and MASTER_DATA_IN_BYTES and the surrogate key of FILE_RECYCLE_LOG: no modelled decision depends on them.
- The recycle-bin tables of schema version 3.0 and the functions that only they use: the present schema does not have them, and purging is modelled by deleteFilesFromRecycleLog.
- The SQLite and in-memory back end of the catalogue: it runs neither of the two batch programs.
- Isolation between concurrent operations other than two writers: runs are serialised, so interleaved moves and restores are not modelled.
- TapeLock.CommittedBatchesTile: the writers of one tape are modelled by lock, check, commit and abort; their statements are those of FilesWritten.
- Deadlock.TwoWritersDeadlockIff: cycles of more than two writers are excluded for sorted writers only; rows of an unknown storage class or disk instance and archive rows that other sessions delete meanwhile are not part of the model, nor is the server's own deadlock detection.
- Deadlock.AscendingInsertsNeverDeadlock: covers the tape row and the archive rows; the loop that deletes displaced rows of TAPE_FILE in the unsorted order of a join (catalogue/PostgresCatalogue.cpp, lines 528-535) and the check of the deferred disk keys at commit are not modelled.
- DropSchema.DropRound: a DROP TABLE that is refused is taken to leave the database as it was.
- SchemaComparer.SQLiteSchemaComparer.CompareTables: the schema's metadata is given; how the SQL text is transformed for SQLite is not part of this model, and errors are their parts instead of message texts.
- Character encodings: text is a sequence of characters and white space is the six ASCII characters of trimString.
- Character sets of volume identifiers and disk file ids: they are arbitrary strings.

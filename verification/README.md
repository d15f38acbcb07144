# WCDB: SQLite and repair-kit core

This project models seven parts of the C code that the WCDB pod vendors, SQLite
(as SQLCipher) and the WCDB repair kit, and proves what they promise.  Paths in
the table are relative to the repository's root; line numbers are those of the
cited file.

Each part has its logic as functions on values, with lemmas about every input
or every run, and, where the C code works in place, classes and loops that are
proved to compute those functions.

- **ANALYZE accumulator** (`IndexRows`, `Stat4`, `Stat4Invariant`, `AnalyzeScan`,
  `Stat4Periodic`, `Stat4Selection`, `Stat4Candidates`, `Stat4Object`, `CountText`).  A scan is
  described by its change list, the left-most changed column of each row, and
  the exact statistics are defined on the sorted rows themselves as
  cardinalities of sets.  The invariant says what a stored 0 means: the prefix
  group of that sample is still open.  `Stat4Selection` is about which samples
  are retained: those of the largest prefixes; `Stat4Periodic` about the samples
  of every P-th row.
- **Online backup** (`PageBytes`, `Backup`, `BackupSafety`, `BackupDone`,
  `BackupSteps`, `BackupObject`).  Two page stores with any two page sizes, the file behind the
  destination, and events: steps, source writes, shrinking, restarts.
- **Bitvec** (`BitvecForms`, `BitvecObject`, `BitvecBuiltinTest`).  A set of numbers as
  a flat bitmap, a linear-probing hash or 62 smaller Bitvecs; any request for
  memory may fail, and an allocator object counts those that do.
- **BtShared locking** (`BtMutex`, `BtMutexRuns`, `BtMutexObject`).  A state
  machine over any number of connections for the protocol, and the routines of
  one connection on Btree objects with the others running in between.  That a
  connection waits only while it holds nothing at a larger address is the
  precondition of `MutexEnter`.
- **LR parser driver** (`LrTables`, `LrForest`, `LrDriver`,
  `LrTermination`, `LrCompleteness`, `LrExample`, `LrParser`).  The tables are parameters.
  `LrTables.Consistent` is the condition on tables, grammar and item sets, one
  state and one table entry at a time; the item sets are the usual
  rules-with-a-dot of each state.  `LrTermination.Ranked` is the condition on
  the grammar under which every call returns, rule by rule, and
  `LrCompleteness.Complete` the one on tables with lookaheads under which every
  sentence is accepted; `LrExample` has tables that meet them.
- **Repair kit** (`RepairNumbers`, `RecordFormat`, `RecordPages`, `RecordChains`,
  `RecordOutcomes`, `RecordReader` for records; `RepairWalk`, `RepairPages`, `RepairKit` for the page walk;
  `MasterFile`, `MasterStore`, `MasterLayout` for the saved copy of sqlite_master).  The format
  is that of "Database File Format" (sqlite.org/fileformat2.html), sections 1.6,
  1.7 and 2.1.  Where the C code would read memory it does not own, the model
  answers `Undefined`.
- **Statement completeness** (`CompleteStates`, `CompleteText`, `CompleteLexer`,
  `CompleteScan`).  What a statement and what a piece of text is, is said without
  the state machine and without scanning.

`Arithmetic` and `Wrappers` hold what several parts share.

Assumptions about what is outside the modelled code:

- ANALYZE: built with SQLITE_ENABLE_STAT4, 24 samples; the row count handed to
  stat_init is the number of rows pushed, as the calling program computes it;
  counters are unbounded naturals, except where text is printed (64 bits).
- Backup: page reads and writes and the finishing calls fail only with fatal
  codes, as the assertion at backup.c:711 says of updates; the source never ends
  with the locking page; page sizes are fixed during a backup; no codec, and
  reserved bytes agree; every source change is reported by an update or a
  restart.
- Locking: one thread per connection, and a connection's Btrees do not come and
  go during a run.  sqlite3_mutex_try may fail on a free mutex.
- Repair kit: every page is read whole (the file size is a multiple of the page
  size), little-endian host, allocation succeeds.
- Save and load: the texts of sqlite_master hold no NUL and are not NULL.

Where the code and its own comments differ, the model follows the code:

- sqlite3BtreeEnterAll does not enter in ascending address order, as its comment
  says, but in the order of `db->aDb` (btmutex.c:178-194); deadlock freedom
  rests on the back-off in btreeLockCarefully alone.
- The status transfers listed in sqliterk_pager.h:27-33 are not what the guard
  enforces: a page may be checked again after it was left.
- A nine-byte varint is read in groups of seven bits (sqliterk_util.c:120-131).
- Interior index pages are read with an 8-byte header and no right-most child,
  and the right-most child of page 1 is read at offset 8 of the page
  (sqliterk_btree.c:182-231).
- A table leaf without cells, as the file format allows, is marked as damaged,
  and cell pointers from 0x8000 on, which pages of 64 KiB have, are read as
  negative (sqliterk_btree.c:186-204).
- The overflow loop ignores the guard: it marks a page of a chain as checked
  even while that page is being checked (sqliterk_btree.c:381-396).  The walk is
  shown to end where no chain passes through an interior page.

## Model

| member | source | states |
|---|---|---|
| `IndexRows.ExactEqLt` | NBDataBaseDemo/Pods/WCDB/sqlcipher/src/analyze.c:722-741 | for a sorted index, the group size and start position read off the change list are the exact numbers of rows with the same prefix and with a smaller prefix, in every column |
| `IndexRows.ExactDLt` | NBDataBaseDemo/Pods/WCDB/sqlcipher/src/analyze.c:722-741 | the number of changes before a row is the exact number of distinct smaller prefixes |
| `IndexRows.ExactDistinct` | NBDataBaseDemo/Pods/WCDB/sqlcipher/src/analyze.c:722-741 | the number of changes over the whole scan plus one is the exact number of distinct prefixes of each length |
| `Stat4.BetterOrder` | NBDataBaseDemo/Pods/WCDB/sqlcipher/src/analyze.c:499-544 | the preference between samples is irreflexive, transitive and negatively transitive, so a least desirable sample is well defined |
| `Stat4.BetterPostMeans` | NBDataBaseDemo/Pods/WCDB/sqlcipher/src/analyze.c:499-516 | between samples of one column the first later column in which the counts differ decides, the larger count being preferred, and the hash only if there is none |
| `Stat4.PrnDistinct` | NBDataBaseDemo/Pods/WCDB/sqlcipher/src/analyze.c:749-750 | the hashes of successive rows are 32-bit numbers and never meet: different hashes have different successors, with three values of the generator |
| `Stat4.ScanUpgradeFinds` | NBDataBaseDemo/Pods/WCDB/sqlcipher/src/analyze.c:566-576 | the upgrade scan either meets a periodic sample of the open group or returns the best sample that shares the prefix, over all of them |
| `Stat4.ScanMinFinds` | NBDataBaseDemo/Pods/WCDB/sqlcipher/src/analyze.c:620-630 | the scan for the new minimum returns a non-periodic sample than which no other is worse |
| `Stat4Object.SampleIsBetterPost` | NBDataBaseDemo/Pods/WCDB/sqlcipher/src/analyze.c:499-516 | the comparing loop computes the order on the trailing columns and the hash, given equal iCol as the assertion asks |
| `Stat4Object.SampleIsBetter` | NBDataBaseDemo/Pods/WCDB/sqlcipher/src/analyze.c:523-545 | the comparison of two non-periodic samples computes the preference |
| `Stat4Invariant.StepKeeps` | NBDataBaseDemo/Pods/WCDB/sqlcipher/src/analyze.c:646-652 | pushing one column's candidate at a group change keeps the invariant one column further: counts are zero exactly in open groups, samples are in row order, every group of the columns done is covered |
| `Stat4Invariant.StepsKeep` | NBDataBaseDemo/Pods/WCDB/sqlcipher/src/analyze.c:646-652 | the same for the whole loop down to the changed column, with any number of insertions, upgrades and evictions |
| `Stat4Invariant.CloseIsExact` | NBDataBaseDemo/Pods/WCDB/sqlcipher/src/analyze.c:640-661 | after the closing call every sample has its exact counts in every column, and the samples are in strictly increasing row order |
| `Stat4Invariant.PushKeeps` | NBDataBaseDemo/Pods/WCDB/sqlcipher/src/analyze.c:706-774 | one push of a row with its left-most changed column keeps the whole invariant, candidates copied in the middle of a group included |
| `Stat4Invariant.FirstPushKeeps` | NBDataBaseDemo/Pods/WCDB/sqlcipher/src/analyze.c:722-724 | the first push establishes the invariant |
| `Stat4Invariant.PeriodicBound` | NBDataBaseDemo/Pods/WCDB/sqlcipher/src/analyze.c:447-451 | between pushes at most a third of the array is periodic, and once the array is full iMin names a non-periodic sample |
| `Stat4Invariant.CandidateAllowed` | NBDataBaseDemo/Pods/WCDB/sqlcipher/src/analyze.c:556-631 | at the insertion of a candidate no assertion of sampleInsert or sampleIsBetter fails: positive count, wider iCol, preferred, in row order, a minimum exists |
| `Stat4Invariant.PeriodicAllowed` | NBDataBaseDemo/Pods/WCDB/sqlcipher/src/analyze.c:757-763 | the same for the insertion of a periodic sample |
| `AnalyzeScan.ScanKeeps` | NBDataBaseDemo/Pods/WCDB/sqlcipher/src/analyze.c:706-774 | the invariant holds after every scan from stat_init on, whatever the rows |
| `AnalyzeScan.SamplesAreExact` | NBDataBaseDemo/Pods/WCDB/sqlcipher/src/analyze.c:550-773 | for every sorted index, each retained sample holds the rowid of its row and the exact nEq, nLt and nDLt of that row's prefixes over the whole index; samples are distinct, in row order, and at most the capacity |
| `AnalyzeScan.CurrentCounts` | NBDataBaseDemo/Pods/WCDB/sqlcipher/src/analyze.c:722-742 | after every scan anLt+anEq is the number of rows, anEq is positive, and anDLt+1 is the number of distinct prefixes |
| `Stat4Object.Stat4Accum.StatGetStat1` | NBDataBaseDemo/Pods/WCDB/sqlcipher/src/analyze.c:843-866 | the stat1 text is the row count and the estimates of the first columns with blanks between, fits its buffer and decodes to them |
| `AnalyzeScan.EstimatesAreExact` | NBDataBaseDemo/Pods/WCDB/sqlcipher/src/analyze.c:854-862 | each stat1 estimate is the rows per distinct prefix rounded up, lies in 1..nRow, and never increases with the column |
| `AnalyzeScan.ScanPeriodicBound` | NBDataBaseDemo/Pods/WCDB/sqlcipher/src/analyze.c:449-451 | over every scan periodic samples number at most a third of the capacity |
| `Stat4Periodic.PeriodicRowsSampled` | NBDataBaseDemo/Pods/WCDB/sqlcipher/src/analyze.c:754-763 | with P a ninth of the announced rows plus one, after every scan and its closing call the rows that have a periodic sample are exactly those whose number, counted from 1, is a multiple of P: none is ever evicted or missed |
| `Stat4Selection.StepSelects` | NBDataBaseDemo/Pods/WCDB/sqlcipher/src/analyze.c:646-652 | pushing one column's candidate keeps: every group dealt with is represented by a sample, or the array is full of samples kept for groups at least as large, all different |
| `Stat4Selection.LargePrefixesSampled` | NBDataBaseDemo/Pods/WCDB/sqlcipher/src/analyze.c:499-661 | for every sorted index, a prefix without a retained sample means that all 24 places are taken and every non-periodic sample was kept for a prefix with at least as many rows |
| `Stat4Selection.PrefixesDiffer` | NBDataBaseDemo/Pods/WCDB/sqlcipher/src/analyze.c:566-604 | and no two non-periodic samples were kept for the same prefix |
| `Stat4Candidates.CandidateIsMostFrequent` | NBDataBaseDemo/Pods/WCDB/sqlcipher/src/analyze.c:766-773 | after every push the candidate of a column continues the current prefix by a most frequent value of the next column |
| `Stat4Object.Stat4Accum.constructor` | NBDataBaseDemo/Pods/WCDB/sqlcipher/src/analyze.c:437-467 | statInit leaves exactly the initial accumulator |
| `Stat4Object.Stat4Accum.SampleInsert` | NBDataBaseDemo/Pods/WCDB/sqlcipher/src/analyze.c:550-631 | the in-place insertion with its shifting of the array computes the insertion on values, given what the assertions ask |
| `Stat4Object.Stat4Accum.SamplePushPrevious` | NBDataBaseDemo/Pods/WCDB/sqlcipher/src/analyze.c:640-661 | the in-place loops over candidates and samples compute the group change on values |
| `Stat4Object.Stat4Accum.StatPush` | NBDataBaseDemo/Pods/WCDB/sqlcipher/src/analyze.c:706-774 | in place, one push adds the row to the scan and keeps the invariant; which samples that keeps is said by the lemmas on whole scans |
| `Stat4Object.Stat4Accum.StatGetRowid` | NBDataBaseDemo/Pods/WCDB/sqlcipher/src/analyze.c:868-881 | the first request closes the open groups once; then each sample's rowid is returned, and nothing after the last one |
| `Stat4Object.Stat4Accum.StatGetCounts` | NBDataBaseDemo/Pods/WCDB/sqlcipher/src/analyze.c:882-914 | the text returned is the sample's counts and decodes to them, and only the nDLt request moves on to the next sample |
| `Stat4Object.LeftmostChange` | NBDataBaseDemo/Pods/WCDB/sqlcipher/src/analyze.c:1099-1127 | comparing two neighbouring rows column by column finds the left-most column that changed |
| `Stat4Object.AnalyzeIndex` | NBDataBaseDemo/Pods/WCDB/sqlcipher/src/analyze.c:1030-1066 | the whole scan of a sorted index, driven row by row, ends with samples that carry the exact statistics, and with a periodic sample of every P-th row and no other |
| `CountText.PrintedLength` | NBDataBaseDemo/Pods/WCDB/sqlcipher/src/analyze.c:899-911 | for 64-bit counts the printed text takes at most 21 characters a column |
| `CountText.DecimalMeans` | NBDataBaseDemo/Pods/WCDB/sqlcipher/src/analyze.c:899-911 | a count is printed as its decimal digits without leading zeros, and several with single blanks between them |
| `CountText.FormatCounts` | NBDataBaseDemo/Pods/WCDB/sqlcipher/src/analyze.c:899-911 | the formatting loop prints the counts separated by blanks, inside its buffer of 25 bytes a column |
| `CountText.DecodeIntArray` | NBDataBaseDemo/Pods/WCDB/sqlcipher/src/analyze.c:1418-1451 | the decoding loop fills the array from the text and leaves the rest of it alone |
| `CountText.DecodePrinted` | NBDataBaseDemo/Pods/WCDB/sqlcipher/src/analyze.c:1418-1451 | decoding the printed text gives back the original array, for every column count and every 64-bit value |
| `PageBytes.PutByte` | NBDataBaseDemo/Pods/WCDB/sqlcipher/src/backup.c:295-306 | writing bytes into a page changes exactly the file offsets it covers |
| `PageBytes.ChunkFits` | NBDataBaseDemo/Pods/WCDB/sqlcipher/src/backup.c:284-306 | a chunk at an aligned offset lies on one destination page |
| `PageBytes.Put4Value` | NBDataBaseDemo/Pods/WCDB/sqlcipher/src/backup.c:309 | a page count or cookie is stored as four bytes, the most significant first |
| `Backup.LoopByte` | NBDataBaseDemo/Pods/WCDB/sqlcipher/src/backup.c:284-313 | the copy loop of one source page puts each of its bytes at the same file offset of the destination, outside the destination's locking page, and the page count in bytes 28-31 of page 1 except on updates; it changes no other byte, and if it stops early nothing is claimed of the rest |
| `BackupSafety.OnePageByte` | NBDataBaseDemo/Pods/WCDB/sqlcipher/src/backup.c:227-316 | copying a page makes every byte of it agree with the source and disturbs no byte of another page that agreed |
| `BackupSafety.StepKeeps` | NBDataBaseDemo/Pods/WCDB/sqlcipher/src/backup.c:351-600 | a backup step keeps the invariant: until a fatal code is stored all pages below iNext agree with the source, byte by byte |
| `BackupSafety.WriteKeeps` | NBDataBaseDemo/Pods/WCDB/sqlcipher/src/backup.c:693-720 | a source page write reported through BackupUpdate keeps it |
| `BackupSafety.RestartKeeps` | NBDataBaseDemo/Pods/WCDB/sqlcipher/src/backup.c:733-739 | a restart keeps it, whatever the source has become |
| `BackupSafety.ShrinkKeeps` | NBDataBaseDemo/Pods/WCDB/sqlcipher/src/backup.c:422-440 | a source that shrinks keeps it |
| `BackupSafety.NextKeeps` | NBDataBaseDemo/Pods/WCDB/sqlcipher/src/backup.c:351-739 | every event keeps it |
| `BackupSafety.RunKeeps` | NBDataBaseDemo/Pods/WCDB/sqlcipher/src/backup.c:351-739 | so it holds after every interleaving of steps, source writes, shrinking and restarts, for any two page sizes |
| `BackupDone.TruncateAssertion` | NBDataBaseDemo/Pods/WCDB/sqlcipher/src/backup.c:483-516 | the assertion about nDestTruncate holds for every source size and all page sizes; the destination never ends with its locking page and has no page more than needed |
| `BackupDone.PlainMatches` | NBDataBaseDemo/Pods/WCDB/sqlcipher/src/backup.c:563-566 | with a destination page size no larger, the committed file holds the source |
| `BackupDone.PatchedMatches` | NBDataBaseDemo/Pods/WCDB/sqlcipher/src/backup.c:494-562 | with a larger destination page size, truncating, writing the pages behind the locking page and cutting the file leave no gap: the file holds the source |
| `BackupDone.DoneMeansCopied` | NBDataBaseDemo/Pods/WCDB/sqlcipher/src/backup.c:446-576 | whatever happened before, when a step reports DONE the destination file holds every byte of the source outside the source's locking page at the same offset, header bytes 28-31 and 40-43 (and 18-19 in WAL mode) excepted |
| `BackupDone.CookieByte` | NBDataBaseDemo/Pods/WCDB/sqlcipher/src/backup.c:456-458 | and bytes 40-43 hold the destination's schema cookie plus one |
| `BackupDone.EmptyDone` | NBDataBaseDemo/Pods/WCDB/sqlcipher/src/backup.c:462-465 | for an empty source DONE means the file is the new page with the new schema cookie, cut to the source's page size if that is smaller |
| `BackupSteps.OnePageReports` | NBDataBaseDemo/Pods/WCDB/sqlcipher/src/backup.c:227-316 | copying a page reports the first destination page that fails, or that an in-memory destination has another page size, and otherwise succeeds |
| `BackupSteps.UpdateReports` | NBDataBaseDemo/Pods/WCDB/sqlcipher/src/backup.c:693-720 | a reported write behind iNext is copied again and its failure becomes the backup's code; any other write changes nothing |
| `BackupSteps.PageCountWritten` | NBDataBaseDemo/Pods/WCDB/sqlcipher/src/backup.c:308-310 | the copy of page 1 holds the source's page count, except when it is an update |
| `BackupSteps.LoopCopies` | NBDataBaseDemo/Pods/WCDB/sqlcipher/src/backup.c:424-437 | the copying loop passes every page up to the last it may, all with a negative nPage, or stops behind the first that cannot be copied, with its code |
| `BackupSteps.DoneExactly` | NBDataBaseDemo/Pods/WCDB/sqlcipher/src/backup.c:446-576 | the finishing part ends with DONE if and only if none of the calls that this configuration makes fails, and with a fatal code otherwise |
| `BackupSteps.StepRefused` | NBDataBaseDemo/Pods/WCDB/sqlcipher/src/backup.c:362-418 | a step after a fatal code changes nothing; one that cannot begin reports the first reason and changes nothing but the destination lock |
| `BackupSteps.StepReports` | NBDataBaseDemo/Pods/WCDB/sqlcipher/src/backup.c:351-600 | any other step: result code, iNext, page count, pages remaining and attachment, for every nPage and whatever fails |
| `BackupSteps.QuietStep` | NBDataBaseDemo/Pods/WCDB/sqlcipher/src/backup.c:424-445 | a step during which nothing fails copies nPage pages, or all with a negative nPage, and reports DONE exactly when none is left |
| `BackupSteps.OneCallCopies` | NBDataBaseDemo/Pods/WCDB/sqlcipher/src/backup.c:351-576 | so after any run without a fatal code one undisturbed call with a negative nPage reports DONE and the destination file holds the source |
| `BackupSteps.DoneAtStep` | NBDataBaseDemo/Pods/WCDB/sqlcipher/src/backup.c:424-445 | with an unchanging source of N pages and steps of k pages DONE comes at step ceil(N/k) and not before |
| `BackupObject.Sqlite3Backup.constructor` | NBDataBaseDemo/Pods/WCDB/sqlcipher/src/backup.c:141-206 | a new backup starts at page 1, unlocked and unattached |
| `BackupObject.SourcePager.AttachBackupObject` | NBDataBaseDemo/Pods/WCDB/sqlcipher/src/backup.c:339-346 | attaching puts the backup at the head of the source's list and keeps the list well linked |
| `BackupObject.SourcePager.BackupStep` | NBDataBaseDemo/Pods/WCDB/sqlcipher/src/backup.c:351-600 | in place, a step computes the step on values, and attaches the backup when it has to wait for more |
| `BackupObject.SourcePager.BackupUpdate` | NBDataBaseDemo/Pods/WCDB/sqlcipher/src/backup.c:693-720 | walking the list updates every attached backup |
| `BackupObject.SourcePager.BackupRestart` | NBDataBaseDemo/Pods/WCDB/sqlcipher/src/backup.c:733-739 | walking the list sets every attached backup back to page 1 |
| `BackupObject.SourcePager.BackupFinish` | NBDataBaseDemo/Pods/WCDB/sqlcipher/src/backup.c:605-651 | finishing takes the backup, and only it, off the list and reports its code |
| `BitvecForms.SetBitAt` | NBDataBaseDemo/Pods/WCDB/sqlcipher/src/bitvec.c:184-187 | setting a bit adds exactly one member to the bitmap |
| `BitvecForms.ClearBitAt` | NBDataBaseDemo/Pods/WCDB/sqlcipher/src/bitvec.c:252-253 | clearing a bit removes exactly one |
| `BitvecForms.ProbeOn` | NBDataBaseDemo/Pods/WCDB/sqlcipher/src/bitvec.c:145-149 | probing on from an occupied slot gets nearer to an empty one: the probe loops stop |
| `BitvecForms.ProbeMisses` | NBDataBaseDemo/Pods/WCDB/sqlcipher/src/bitvec.c:144-150 | the first empty slot on the probe path of a value proves its absence |
| `BitvecForms.HashInsert` | NBDataBaseDemo/Pods/WCDB/sqlcipher/src/bitvec.c:228-230 | storing a value in that slot keeps the table sound (nSet is the number of slots in use, values are distinct and reachable from their home slot) and adds exactly that member |
| `BitvecForms.EmptySlot` | NBDataBaseDemo/Pods/WCDB/sqlcipher/src/bitvec.c:145-150 | a table that is not full has an empty slot |
| `BitvecObject.UnionUpdate` | NBDataBaseDemo/Pods/WCDB/sqlcipher/src/bitvec.c:175-183 | changing one sub-bitvec at one number changes the whole set at one number |
| `BitvecObject.DivisorFits` | NBDataBaseDemo/Pods/WCDB/sqlcipher/src/bitvec.c:217-218 | the divisor is smaller than iSize and 62 of them cover it: re-hashing terminates |
| `BitvecObject.Bitvec.constructor` | NBDataBaseDemo/Pods/WCDB/sqlcipher/src/bitvec.c:115-122 | a new Bitvec is the empty set |
| `BitvecObject.Bitvec.TestNotNull` | NBDataBaseDemo/Pods/WCDB/sqlcipher/src/bitvec.c:130-152 | testing is membership, through nested sub-bitvecs and all three forms, and false for 0 and above iSize |
| `BitvecObject.Bitvec.Set` | NBDataBaseDemo/Pods/WCDB/sqlcipher/src/bitvec.c:169-232 | the code is OK if and only if no request for memory failed during the call; the new set is the old one plus i, less at most as many values as requests failed; without a re-hash a failing call keeps the old set; no request is made unless NeedsMemory says so |
| `BitvecObject.Bitvec.Rehash` | NBDataBaseDemo/Pods/WCDB/sqlcipher/src/bitvec.c:206-227 | turning the hash into sub-bitvecs in place and inserting the old values again is OK if and only if no request failed, and loses at most as many values as requests failed |
| `BitvecObject.Bitvec.NoMemoryNeeded` | NBDataBaseDemo/Pods/WCDB/sqlcipher/src/bitvec.c:184-210 | setting in a bitmap, a value that is already a member of any form, or in a table less than half full, makes no request |
| `BitvecObject.Bitvec.Clear` | NBDataBaseDemo/Pods/WCDB/sqlcipher/src/bitvec.c:240-271 | clearing gives the old set without i, in every form |
| `BitvecObject.Bitvec.RebuildWithout` | NBDataBaseDemo/Pods/WCDB/sqlcipher/src/bitvec.c:254-271 | rebuilding the table from a copy restores reachability and drops exactly i |
| `BitvecObject.BitvecTest` | NBDataBaseDemo/Pods/WCDB/sqlcipher/src/bitvec.c:153-155 | a null Bitvec has no members |
| `BitvecObject.BitvecSet` | NBDataBaseDemo/Pods/WCDB/sqlcipher/src/bitvec.c:169-171 | setting in a null Bitvec succeeds and does nothing; in any other, the same as Set |
| `BitvecBuiltinTest.SetAgrees` | NBDataBaseDemo/Pods/WCDB/sqlcipher/src/bitvec.c:375-379 | setting a value on both sides keeps the bit array and the set in agreement |
| `BitvecBuiltinTest.ClearAgrees` | NBDataBaseDemo/Pods/WCDB/sqlcipher/src/bitvec.c:380-383 | so does clearing it |
| `BitvecBuiltinTest.LastRoundDecides` | NBDataBaseDemo/Pods/WCDB/sqlcipher/src/bitvec.c:355-387 | what the last round on a value was decides whether it is in the bit array, and in the Bitvec, which instruction 5 leaves as it was |
| `BitvecBuiltinTest.Compare` | NBDataBaseDemo/Pods/WCDB/sqlcipher/src/bitvec.c:391-401 | the final comparison is 0 exactly if both sides agree, and otherwise the first value on which they differ |
| `BitvecBuiltinTest.BuiltinTest` | NBDataBaseDemo/Pods/WCDB/sqlcipher/src/bitvec.c:337-410 | the self-test ends with -1 if and only if a request for memory failed; otherwise it has run the whole program and its result is the first value on which the bit array and the Bitvec should differ, 0 without instruction 5, whatever the random numbers |
| `BtMutex.NextKeeps` | NBDataBaseDemo/Pods/WCDB/sqlcipher/src/btmutex.c:27-150 | every step of every connection keeps the invariant: list order, the lock fields at each point of a call, the owner of each mutex, and the db field |
| `BtMutex.RunKeeps` | NBDataBaseDemo/Pods/WCDB/sqlcipher/src/btmutex.c:27-150 | so it holds in every reachable state, for any number of connections and any interleaving |
| `BtMutexRuns.OneLocked` | NBDataBaseDemo/Pods/WCDB/sqlcipher/src/btmutex.c:27-50 | in every reachable state a BtShared has at most one locked Btree, and its db is that Btree's connection |
| `BtMutexRuns.AssertsHold` | NBDataBaseDemo/Pods/WCDB/sqlcipher/src/btmutex.c:27-150 | no assertion of the locking routines fails |
| `BtMutexRuns.HoldsSmaller` | NBDataBaseDemo/Pods/WCDB/sqlcipher/src/btmutex.c:102-136 | a connection waiting for a mutex holds only BtShareds at smaller addresses |
| `BtMutexRuns.NoDeadlock` | NBDataBaseDemo/Pods/WCDB/sqlcipher/src/btmutex.c:71-137 | in no reachable state is there a cycle of connections waiting for each other |
| `BtMutexRuns.SomeoneRuns` | NBDataBaseDemo/Pods/WCDB/sqlcipher/src/btmutex.c:71-137 | every blocked connection waits, directly or through others, for one that holds a mutex and is not blocked |
| `BtMutexRuns.CallIsShort` | NBDataBaseDemo/Pods/WCDB/sqlcipher/src/btmutex.c:102-137 | a call takes at most 2n+2 steps of its connection |
| `BtMutexRuns.StateAfterRun` | NBDataBaseDemo/Pods/WCDB/sqlcipher/src/btmutex.c:71-150 | between calls a Btree is locked if and only if it was entered more often than left, whatever was dropped and taken back on the way |
| `BtMutexRuns.EnterRestoresLater` | NBDataBaseDemo/Pods/WCDB/sqlcipher/src/btmutex.c:121-136 | when Enter returns, every later lock it dropped is held again and only the entered Btree has changed |
| `BtMutexRuns.BalancedRestores` | NBDataBaseDemo/Pods/WCDB/sqlcipher/src/btmutex.c:71-150 | balanced calls give back the initial lock state |
| `BtMutexRuns.EnterAllHolds` | NBDataBaseDemo/Pods/WCDB/sqlcipher/src/btmutex.c:186-194 | after EnterAll the connection holds the mutex of every listed Btree |
| `BtMutexRuns.AllNestRestores` | NBDataBaseDemo/Pods/WCDB/sqlcipher/src/btmutex.c:186-203 | EnterAll, anything balanced, LeaveAll: the initial lock state is back |
| `BtMutexObject.LockBtreeMutex` | NBDataBaseDemo/Pods/WCDB/sqlcipher/src/btmutex.c:27-35 | taking one mutex sets the db and the locked field and disturbs no other Btree, though other connections run; it waits only while nothing at a larger address is held |
| `BtMutexObject.UnlockBtreeMutex` | NBDataBaseDemo/Pods/WCDB/sqlcipher/src/btmutex.c:41-50 | dropping one mutex clears the locked field and disturbs no other Btree |
| `BtMutexObject.BtreeLockCarefully` | NBDataBaseDemo/Pods/WCDB/sqlcipher/src/btmutex.c:102-137 | if the first try fails the later mutexes are dropped before the wait, as the precondition of MutexEnter demands, and in the end every wanted Btree is locked and no other BtShared is held |
| `BtMutexObject.BtreeEnter` | NBDataBaseDemo/Pods/WCDB/sqlcipher/src/btmutex.c:71-96 | in place, the entered Btree counts one more and is locked; every other one is as before |
| `BtMutexObject.BtreeLeave` | NBDataBaseDemo/Pods/WCDB/sqlcipher/src/btmutex.c:142-150 | in place, the Btree counts one less and is unlocked exactly at zero |
| `BtMutexObject.BtreeEnterAll` | NBDataBaseDemo/Pods/WCDB/sqlcipher/src/btmutex.c:186-194 | each Btree is entered once per entry of aDb, and every sharable one is held |
| `BtMutexObject.BtreeLeaveAll` | NBDataBaseDemo/Pods/WCDB/sqlcipher/src/btmutex.c:195-203 | and left as often |
| `LrTables.ActionSource` | NBDataBaseDemo/Pods/WCDB/sqlcipher/parse.c:1721-1778 | an action found for a token is the state's default, or the entry of the token itself, its fallback or the wildcard |
| `LrTables.LookupOrder` | NBDataBaseDemo/Pods/WCDB/sqlcipher/parse.c:1730-1777 | the order of the look-up, on the arrays: the entry of the token itself, then that of its fallback, then the wildcard's, then the default |
| `LrForest.Unfold` | NBDataBaseDemo/Pods/WCDB/sqlcipher/parse.c:3895-3942 | unit rules that were optimized out can be put back on top of a tree |
| `LrForest.ItemsDown` | NBDataBaseDemo/Pods/WCDB/sqlcipher/parse.c:2241-2283 | an item of the top state, read down the stack, finds the trees of its symbols and below them a state its rule can begin in |
| `LrDriver.ShiftKeeps` | NBDataBaseDemo/Pods/WCDB/sqlcipher/parse.c:1857-1892 | a shift, stack overflow included, keeps the forest on the stack and its bounds; the token is pushed as it came, not as its fallback |
| `LrDriver.ReduceKeeps` | NBDataBaseDemo/Pods/WCDB/sqlcipher/parse.c:2241-2283 | a complete rule can always be reduced: enough symbols on the stack and a goto below; reducing keeps the forest, and a start rule accepts what was shifted with the stack back at its bottom |
| `LrDriver.RoundKeeps` | NBDataBaseDemo/Pods/WCDB/sqlcipher/parse.c:4102-4184 | one round of the driver: no assertion fails, the invariant is kept, and without an error message the token is shifted, or a rule reduced, or at the end of the input all shifted tokens accepted |
| `LrDriver.ErrorExactly` | NBDataBaseDemo/Pods/WCDB/sqlcipher/parse.c:4102-4184 | a round reports an error exactly if the look-up gives the error action or an entry is to be pushed on a full stack |
| `LrDriver.AcceptedIsSentence` | NBDataBaseDemo/Pods/WCDB/sqlcipher/parse.c:4060-4201 | for tables that meet local consistency conditions, every token stream taken to its end without an error message is accepted and is a yield of the start symbol, up to fallback and wildcard |
| `LrDriver.AnyRunIsSound` | NBDataBaseDemo/Pods/WCDB/sqlcipher/parse.c:4060-4201 | after any tokens, errors and overflows included, the stack is within 100 entries and each accepted input is such a yield |
| `LrCompleteness.SentenceIsAccepted` | NBDataBaseDemo/Pods/WCDB/sqlcipher/parse.c:4060-4201 | conversely, for tables that also meet local completeness conditions (each item's next symbol has its entry, each complete item its reduction on the tokens that may follow), every tree of the start symbol whose parse needs fewer than 100 entries: its tokens are accepted with no error message |
| `LrExample.SuchTablesExist` | NBDataBaseDemo/Pods/WCDB/sqlcipher/parse.c:4060-4201 | concrete tables that meet the conditions of both theorems, and the sentence they accept |
| `LrTermination.TreeBounded` | NBDataBaseDemo/Pods/WCDB/sqlcipher/parse.c:2241-2283 | in a grammar without cycles of unit and empty rules a derivation tree over n tokens has a bounded number of rules |
| `LrTermination.EveryCallReturns` | NBDataBaseDemo/Pods/WCDB/sqlcipher/parse.c:4102-4184 | for consistent tables and such a grammar every call of the driver returns, whatever the token, within a bound that the shifted tokens give |
| `LrTermination.EveryStreamReturns` | NBDataBaseDemo/Pods/WCDB/sqlcipher/parse.c:4060-4201 | so every stream of tokens is taken to its end |
| `LrParser.YyParser.FindShiftAction` | NBDataBaseDemo/Pods/WCDB/sqlcipher/parse.c:1721-1778 | the fallback loop stops and finds the action the tables define, in that order |
| `LrParser.YyParser.FindReduceAction` | NBDataBaseDemo/Pods/WCDB/sqlcipher/parse.c:1784-1811 | the goto is found inside the table |
| `LrParser.YyParser.StackOverflow` | NBDataBaseDemo/Pods/WCDB/sqlcipher/parse.c:1816-1834 | an overflow pops everything and reports one error |
| `LrParser.YyParser.YyShift` | NBDataBaseDemo/Pods/WCDB/sqlcipher/parse.c:1857-1892 | in place, the shift on values; never outside the stack array |
| `LrParser.YyParser.YyReduce` | NBDataBaseDemo/Pods/WCDB/sqlcipher/parse.c:2241-2283 | in place, the reduction on values; never outside the stack array |
| `LrParser.YyParser.Parse` | NBDataBaseDemo/Pods/WCDB/sqlcipher/parse.c:4102-4184 | the driver loop in place computes the call of the driver on values, wherever that returns |
| `LrParser.CallUnique` | NBDataBaseDemo/Pods/WCDB/sqlcipher/parse.c:4102-4184 | what a call leaves is decided by the token and the parser it finds |
| `RepairNumbers.ParseIsSigned` | NBDataBaseDemo/Pods/WCDB/repair/sqliterk_util.c:44-88 | ParseInt64 reads two's complement in 1, 2, 3, 4, 6 or 8 bytes and refuses every other length |
| `RepairNumbers.IntRoundTrip` | NBDataBaseDemo/Pods/WCDB/repair/sqliterk_util.c:44-88 | an integer stored by the format is read back, for every length and value in range |
| `RepairNumbers.ParsedInt` | NBDataBaseDemo/Pods/WCDB/repair/sqliterk_util.c:44-88 | and what is read would be stored in the same bytes |
| `RepairNumbers.VarintRead` | NBDataBaseDemo/Pods/WCDB/repair/sqliterk_util.c:109-132 | a varint of at most eight bytes is read as what it stands for, wherever it lies and whatever follows |
| `RepairNumbers.VarintParsed` | NBDataBaseDemo/Pods/WCDB/repair/sqliterk_util.c:109-132 | what is taken for a varint is one, of that value, of at most nine bytes |
| `RepairNumbers.EncodeIsVarint` | NBDataBaseDemo/Pods/WCDB/repair/sqliterk_util.c:109-132 | every value below 2^56 has such a varint |
| `RepairNumbers.Int32Means` | NBDataBaseDemo/Pods/WCDB/repair/sqliterk_util.c:92-106 | a varint kept in a C int is its value modulo 2^32, in the range of a C int |
| `RepairNumbers.VarintAgrees` | NBDataBaseDemo/Pods/WCDB/repair/sqliterk_util.c:120-131 | the parser agrees with section 1.6 on a varint if and only if it has at most eight bytes, or nine of which the first eight carry zeros and the last is below 128 |
| `RepairNumbers.NineBytesMisread` | NBDataBaseDemo/Pods/WCDB/repair/sqliterk_util.c:120-131 | a nine-byte varint that is misread |
| `RecordFormat.ValueRoundTrip` | NBDataBaseDemo/Pods/WCDB/repair/sqliterk_btree.c:441-468 | every serial type is read back as the value it stores |
| `RecordFormat.RecordRoundTrip` | NBDataBaseDemo/Pods/WCDB/repair/sqliterk_btree.c:415-477 | for every record of the format (varints of at most eight bytes) the column values come back exactly, and all bytes are used |
| `RecordFormat.DecodedIffReadable` | NBDataBaseDemo/Pods/WCDB/repair/sqliterk_btree.c:415-477 | a payload is decoded to these values exactly when it is laid out as a record of them: anything else is not taken for a record |
| `RecordPages.LocalSizeFills` | NBDataBaseDemo/Pods/WCDB/repair/sqliterk_btree.c:349-365 | the local part of a spilling payload is within its limits, and fills the overflow pages to the last byte if any admissible size does; otherwise it is the smallest |
| `RecordPages.PayloadRoundTrip` | NBDataBaseDemo/Pods/WCDB/repair/sqliterk_btree.c:345-413 | a payload laid out by section 1.6, local part and overflow chain, is read back byte for byte, for every size and usable size |
| `RecordPages.CellRoundTrip` | NBDataBaseDemo/Pods/WCDB/repair/sqliterk_btree.c:291-316 | a cell gives back its rowid and its column values |
| `RecordPages.CellsRoundTrip` | NBDataBaseDemo/Pods/WCDB/repair/sqliterk_btree.c:274-327 | all rows of a leaf come back, in order |
| `RecordOutcomes.PayloadOutcome` | NBDataBaseDemo/Pods/WCDB/repair/sqliterk_btree.c:345-413 | for any page and size: MISUSE exactly for a size that is not positive, DAMAGED exactly if the local part leaves the page, and of a payload every byte comes from its place on the page or on the chain |
| `RecordOutcomes.CellOutcome` | NBDataBaseDemo/Pods/WCDB/repair/sqliterk_btree.c:291-316 | a cell gives a row if and only if its bytes can be read as size, rowid and record, and then that row |
| `RecordOutcomes.CellsOutcome` | NBDataBaseDemo/Pods/WCDB/repair/sqliterk_btree.c:274-327 | for any cells, the rows before the first that fails are handed over, and that cell decides the code |
| `RecordChains.LoopEnds` | NBDataBaseDemo/Pods/WCDB/repair/sqliterk_btree.c:376-412 | the overflow loop ends, along a chain, if and only if it ends within as many rounds as there are pages; otherwise it goes round for ever |
| `RecordReader.ReadVarint` | NBDataBaseDemo/Pods/WCDB/repair/sqliterk_util.c:109-132 | the accumulator loop computes ParseVarint64 |
| `RecordReader.ReadNumber` | NBDataBaseDemo/Pods/WCDB/repair/sqliterk_util.c:139-155 | the byte copy loop reverses the eight bytes |
| `RecordReader.ReadColumns` | NBDataBaseDemo/Pods/WCDB/repair/sqliterk_btree.c:415-477 | the column loop computes the decoding of the payload |
| `RecordReader.ReadOverflow` | NBDataBaseDemo/Pods/WCDB/repair/sqliterk_btree.c:376-412 | where it ends, the overflow loop fills the buffer along the chain and stops at its end |
| `RecordReader.ReadBuffer` | NBDataBaseDemo/Pods/WCDB/repair/sqliterk_btree.c:345-413 | the buffer holds the payload |
| `RecordReader.ReadCells` | NBDataBaseDemo/Pods/WCDB/repair/sqliterk_btree.c:274-327 | the cell loop hands over the rows before the first failure |
| `RepairWalk.Walk` | NBDataBaseDemo/Pods/WCDB/repair/sqliterk_btree.c:145-270 | if no overflow chain passes through an interior page, the guarded recursion ends on every page graph, cycles included, and never releases an interior page that was being checked before |
| `RepairWalk.WalkEnds` | NBDataBaseDemo/Pods/WCDB/repair/sqliterk_btree.c:145-270 | under that condition calls are nested no deeper than there are interior pages not being checked |
| `RepairWalk.LoopNeverEnds` | NBDataBaseDemo/Pods/WCDB/repair/sqliterk_btree.c:381-396 | a file of two pages whose overflow chain marks an interior page as checked while it is being checked: no number of nested calls is enough |
| `RepairWalk.WalkVisits` | NBDataBaseDemo/Pods/WCDB/repair/sqliterk_btree.c:145-270 | a walk leaves each page as it was, with the verdict of its own content, or marked as an overflow page; and judges its own page |
| `RepairWalk.WalkReleases` | NBDataBaseDemo/Pods/WCDB/repair/sqliterk.c:272-312 | without cancellation no page is being checked afterwards that was not before, and every interior page that was still is |
| `RepairWalk.ReachableVisited` | NBDataBaseDemo/Pods/WCDB/repair/sqliterk_btree.c:239-244 | without cancellation every page reachable through interior pages is judged after the walk, by whatever path |
| `RepairWalk.FinalStatus` | NBDataBaseDemo/Pods/WCDB/repair/sqliterk.c:103-138 | without cancellation, after a whole parse a page on no overflow chain has the status its content decides, given as a table, and is unchecked exactly if it has no B-tree type and no interior page points to it; a page on a chain may be checked instead |
| `RepairWalk.FirstPageJudged` | NBDataBaseDemo/Pods/WCDB/repair/sqliterk_btree.c:77-84 | page 1 is opened whatever it holds, and has the verdict of its content if it is on no chain |
| `RepairWalk.OverflowChecked` | NBDataBaseDemo/Pods/WCDB/repair/sqliterk_btree.c:381-396 | without cancellation the overflow pages of a leaf that is on no chain end up checked, whatever they hold and whichever is opened first, unless an interior page points to them |
| `RepairWalk.WalkCancelled` | NBDataBaseDemo/Pods/WCDB/repair/sqliterk.c:283-312 | a visit is cancelled exactly if the page is let in and is a leaf whose parsing is cancelled, and it leaves the page in checking status |
| `RepairWalk.CancelStops` | NBDataBaseDemo/Pods/WCDB/repair/sqliterk_btree.c:239-244 | the children of a page are visited in order up to the first that is cancelled, and none after it |
| `RepairPages.LeafClassified` | NBDataBaseDemo/Pods/WCDB/repair/sqliterk_btree.c:160-262 | a table leaf laid out by the format is recognised with its cells and overflow pages if and only if it has cells and their pointers are below 0x8000; an empty one is taken for damaged |
| `RepairPages.LeafRecovered` | NBDataBaseDemo/Pods/WCDB/repair/sqliterk_btree.c:145-327 | in a file on which the code stays in its buffers and comes to an end on each page, no chain passing through an interior page: such a leaf ends up checked, and parsing it gives its rows as stored |
| `RepairPages.OverflowRecovered` | NBDataBaseDemo/Pods/WCDB/repair/sqliterk_btree.c:376-412 | and its overflow pages end up checked, if it is on no chain and no interior page points to them |
| `RepairPages.EmptyLeafDamaged` | NBDataBaseDemo/Pods/WCDB/repair/sqliterk_btree.c:186-191 | in such a file an empty table leaf on no chain ends up marked as damaged |
| `RepairPages.EmptyDatabaseDamaged` | NBDataBaseDemo/Pods/WCDB/repair/sqliterk_btree.c:186-191 | a concrete one: the parse of a database without tables marks its only page as damaged |
| `RepairPages.InteriorClassified` | NBDataBaseDemo/Pods/WCDB/repair/sqliterk_btree.c:182-231 | an interior table page laid out by the format is found with its children if and only if it has cells, their pointers are below 0x8000, and the right-most child's number stands at offset 8 of the page, as on every page but the first |
| `RepairPages.RightMostMissed` | NBDataBaseDemo/Pods/WCDB/repair/sqliterk_btree.c:229-231 | a concrete page 1 on which the right-most child is missed |
| `RepairPages.IndexClassified` | NBDataBaseDemo/Pods/WCDB/repair/sqliterk_btree.c:182-231 | what is found on an interior index page: its header is read four bytes too early, so the children of the last two cells and the right-most child are not looked for |
| `RepairPages.ChildrenVisited` | NBDataBaseDemo/Pods/WCDB/repair/sqliterk_btree.c:145-270 | in a file as above every page that an interior table page points to is judged after the parse |
| `RepairKit.Sqliterk.SetStatus` | NBDataBaseDemo/Pods/WCDB/repair/sqliterk_pager.c:554-566 | a status is stored for valid page numbers only |
| `RepairKit.Sqliterk.OnBeginParsePage` | NBDataBaseDemo/Pods/WCDB/repair/sqliterk.c:272-281 | a page that is being checked is refused, any other is marked |
| `RepairKit.Sqliterk.OnEndParsePage` | NBDataBaseDemo/Pods/WCDB/repair/sqliterk.c:283-312 | the result decides the status; cancelling leaves it alone |
| `RepairKit.Sqliterk.BtreeParsePage` | NBDataBaseDemo/Pods/WCDB/repair/sqliterk_btree.c:145-270 | in place, the walk on values |
| `RepairKit.Sqliterk.ParseOverflow` | NBDataBaseDemo/Pods/WCDB/repair/sqliterk_btree.c:381-396 | in place, the notifications of the overflow pages mark each of them as checked, whatever its status was |
| `RepairKit.Sqliterk.Parse` | NBDataBaseDemo/Pods/WCDB/repair/sqliterk.c:103-115 | in place, the parse of all pages on values |
| `RepairKit.Sqliterk.GetParsedPageCount` | NBDataBaseDemo/Pods/WCDB/repair/sqliterk_pager.c:577-590 | the count of checked pages |
| `RepairKit.ParsedCount` | NBDataBaseDemo/Pods/WCDB/repair/sqliterk_pager.c:577-590 | without cancellation, after a whole parse it is the number of pages whose content is good, plus at most the overflow pages |
| `MasterFile.HeadRead` | NBDataBaseDemo/Pods/WCDB/repair/sqliterk_output.cpp:624-633 | an entity head is read back |
| `MasterFile.BufferBound` | NBDataBaseDemo/Pods/WCDB/repair/sqliterk_output.cpp:708-727 | an entity that passes the length checks fits its buffer if and only if its two names have at most 508 bytes together |
| `MasterFile.LongNamesDoNotFit` | NBDataBaseDemo/Pods/WCDB/repair/sqliterk_output.cpp:708-727 | a concrete row of a table that is written, passes the length checks, and does not fit |
| `MasterFile.Placeholders` | NBDataBaseDemo/Pods/WCDB/repair/sqliterk_output.cpp:906-921 | before anything is loaded the map has a placeholder for each wanted table and nothing else |
| `MasterFile.StreamLoads` | NBDataBaseDemo/Pods/WCDB/repair/sqliterk_output.cpp:948-993 | loading the inflated entities gives the rows in order over the placeholders |
| `MasterFile.OverlayLast` | NBDataBaseDemo/Pods/WCDB/repair/sqliterk_output.cpp:983-993 | a name stands for the last wanted row of that name: later duplicates win |
| `MasterFile.OverlayKeeps` | NBDataBaseDemo/Pods/WCDB/repair/sqliterk_output.cpp:908-921 | names of no wanted row keep their placeholder, or stay absent |
| `MasterFile.EmptyListIsNoFilter` | NBDataBaseDemo/Pods/WCDB/repair/sqliterk_output.cpp:906-918 | an empty list of tables is no filter: no placeholders, and every row is loaded |
| `MasterFile.KeptRows` | NBDataBaseDemo/Pods/WCDB/repair/sqliterk_output.cpp:691-701 | exactly the table and index rows that are not system rows are written |
| `MasterStore.CryptJoin` | NBDataBaseDemo/Pods/WCDB/repair/sqliterk_output.cpp:79-94 | encrypting chunk by chunk is encrypting the whole stream |
| `MasterStore.SaveThenLoad` | NBDataBaseDemo/Pods/WCDB/repair/sqliterk_output.cpp:636-1000 | with compression and cipher as abstract inverses, loading what was saved rebuilds exactly those rows, restricted to the wanted tables, over the placeholders, and the salt |
| `MasterStore.WriteChunks` | NBDataBaseDemo/Pods/WCDB/repair/sqliterk_output.cpp:732-748 | the deflate loop writes the encrypted output in chunks, without loss at the chunk borders |
| `MasterStore.SaveMaster` | NBDataBaseDemo/Pods/WCDB/repair/sqliterk_output.cpp:636-825 | saving succeeds if and only if every written row is within the limits and its buffer, and then the file is the one the loader inverts; otherwise it stops at the first row that is not, and says which limit it broke |
| `MasterStore.MasterReader.InflateRead` | NBDataBaseDemo/Pods/WCDB/repair/sqliterk_output.cpp:839-876 | the next bytes of the stream are returned, for any chunking of reads and of the decompressor, and DAMAGED exactly when there are not so many left |
| `MasterStore.LoadMaster` | NBDataBaseDemo/Pods/WCDB/repair/sqliterk_output.cpp:883-1011 | the loading loop computes the load of the file, damaged files included |
| `MasterLayout.HeadBytes` | NBDataBaseDemo/Pods/WCDB/repair/sqliterk_output.cpp:624-633 | the bytes of an entity head: page number, type, the lengths of the names, and the length of the sql text, lowest byte first |
| `MasterLayout.HeaderBytes` | NBDataBaseDemo/Pods/WCDB/repair/sqliterk_output.cpp:612-622 | the bytes of the file header: magic, version, number of entities, salt |
| `MasterLayout.CStringCuts` | NBDataBaseDemo/Pods/WCDB/repair/sqliterk_output.cpp:968-992 | a text is taken up to its first NUL, or whole if it has none |
| `MasterLayout.LoadsExactly` | NBDataBaseDemo/Pods/WCDB/repair/sqliterk_output.cpp:948-1000 | loading succeeds if and only if the stream begins with the announced number of whole entities with their terminators, and applies them in order; otherwise the file is damaged |
| `CompleteStates.Track` | NBDataBaseDemo/Pods/WCDB/sqlcipher/src/complete.c:109-121 | until a statement ends, the state tells exactly which opening has been seen and how far a trigger body is from its end |
| `CompleteStates.FirstReturn` | NBDataBaseDemo/Pods/WCDB/sqlcipher/src/complete.c:109-121 | the machine first returns to START exactly at a finished statement |
| `CompleteStates.FinishedIsLive` | NBDataBaseDemo/Pods/WCDB/sqlcipher/src/complete.c:109-121 | no finished statement is a proper prefix of another |
| `CompleteStates.MachineDecides` | NBDataBaseDemo/Pods/WCDB/sqlcipher/src/complete.c:109-121 | the machine accepts exactly the nonempty sequences of finished statements, whitespace left out, where a trigger ends at SEMI END SEMI and any other statement at its first SEMI |
| `CompleteText.Find` | NBDataBaseDemo/Pods/WCDB/sqlcipher/src/complete.c:178-195 | the end of a quoted or bracketed text is the first closing character |
| `CompleteText.FindClose` | NBDataBaseDemo/Pods/WCDB/sqlcipher/src/complete.c:161-164 | the end of a block comment is the first closing pair |
| `CompleteLexer.KeywordMeans` | NBDataBaseDemo/Pods/WCDB/sqlcipher/src/complete.c:200-246 | which words are keywords, in any mixture of cases |
| `CompleteLexer.LexSplits` | NBDataBaseDemo/Pods/WCDB/sqlcipher/src/complete.c:130-257 | the tokens are found by scanning if and only if the text can be cut into pieces with these tokens: comments up to their first closing, quoted texts, whole words, operators |
| `CompleteScan.ReadLexeme` | NBDataBaseDemo/Pods/WCDB/sqlcipher/src/complete.c:143-254 | the scanning loops find the lexeme that begins at a place |
| `CompleteScan.Complete` | NBDataBaseDemo/Pods/WCDB/sqlcipher/src/complete.c:104-261 | true exactly when the text can be cut into pieces, every quote, bracket and block comment being closed, and the tokens are a nonempty sequence of finished statements |

## Left out

- BackupDone.DoneMeansCopied: does not cover source writes that are never reported, as of pages marked free.
- BackupSteps.StepReports: iNext and the page counters are unbounded or taken modulo 2^32 as the code stores them; between steps nothing is claimed of nRemaining and nPagecount, which then describe an older source.
- Stat4Object.Stat4Accum.SampleInsert: samples are values in an array; the swapping of the anEq, anLt and anDLt memory between evicted and new samples, and rowid blobs, are not modelled.
- BitvecObject.Bitvec.Set: the descent into sub-bitvecs is a recursion, not a loop; the three arrays of the C union are separate arrays.
- LrCompleteness.SentenceIsAccepted: for tables without conflicts and sentences whose tokens stand for themselves; the SQL grammar settles conflicts by precedence and reads keywords as identifiers by fallback, so for it only soundness is claimed. Grammar actions and minor values are left out.
- RepairWalk.Walk: files with a chain through an interior page are not covered; LoopNeverEnds shows one on which the C code does not return, and on others it may. Recursion from sqlite_master rows into tables is off.
- RepairWalk.FinalStatus: two outcomes are left open, which depend on the order of the pages, for a page on an overflow chain that an interior page points to, or whose leaf is itself on a chain; cancelled parses are covered by WalkVisits, WalkCancelled and CancelStops.
- RepairPages.LeafRecovered: files with a page on which the code reads outside its buffers, or an overflow loop does not end, are excluded by RepairPages.FileOf.
- RecordReader.ReadOverflow: covers the chains on which the C loop ends, by naming the chain; RecordChains.LoopEnds says exactly which these are.
- RecordReader.ReadCells: the listener takes every row; its own return codes only appear in RepairWalk as the result of a leaf.
- MasterStore.SaveMaster: the compressor is fed all rows before its output is written; at which row a chunk comes out is left to the compressor.
- BtMutexObject.MutexEnter: the other connections are any changes to BtShareds this connection does not hold; their own routines are in BtMutex.
- CompleteScan.Complete: ASCII builds with triggers and EXPLAIN; the UTF-16 entry point is a conversion followed by this one.
- backup.c: sqlite3_backup_init's checks, mutexes, the rollback of the destination on finish, sqlite3BtreeCopyFile, and the change counter and version fields the pager stamps at commit.
- bitvec.c: sqlite3BitvecDestroy, which only frees memory.
- analyze.c: code emission, schema lookup and loading of the statistics tables; STAT3 builds.
- parse.c: the numeric tables and the grammar, the destructors, tracing, and parsers with an error symbol.
- sqliterk_pager.c: header parsing with its defaults, encryption of pages, and the integrity flags.
- sqliterk_output.cpp: recovery of rows into a new database, cancelling.
- Out-of-memory paths, except in Bitvec, where what a failing re-hash loses is bounded but not said value by value.
- alter.c, auth.c, attach.c, callback.c, fault.c, crypto.c, sqliterk_crypto.c and the application headers: thin, foreign calls, or interfaces without bodies.

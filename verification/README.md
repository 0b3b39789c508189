# go-sstables: a verified model of the store

This project models the parts of go-sstables that decide whether a key-value pair is ever lost, duplicated or
resurrected, and proves what they promise for all inputs and all runs.

* **SimpleDB** (`SimpleDB*.dfy`, `SSTableManager.dfy`, `Readers.dfy`, `Tables.dfy`) is a step system. A state is the
  memory of the process and the disk; a step is a section of the code that is atomic for the other goroutines or for a
  crash: log append, memstore update, rotation, the rendezvous with the flusher, each stage of a flush, the two halves of
  GetBytes, selection, merge, commit and each removal of a compaction, a crash, a crash at any byte of a log append or of
  the header of a new log file, and each stage of recovery. The specification is a plain map. A run is any sequence of
  enabled steps from an empty directory, with any number of crashes in it, also during recovery. In every run GetBytes
  answers what the map holds, and the directory recovers to the map. `SimpleDBCalls.dfy` shows that writes, gets, flushes
  and compactions can start and run to their end, `SimpleDBLog.dfy` ties the log of this system to the bytes of the log
  directory, `SimpleDBNames.dfy` its order to file names.
* **Merging** (`PriorityQueue.dfy`, `Merger.dfy`, `SuperReader.dfy`, `FailingSource.dfy`): the 1-based heap, the grouping
  iterator and the latest-wins reductions, down to the map override of the input tables, and what a source that fails
  does to them.
* **Memstore** (`SkipList.dfy`, `MemStore.dfy`): the pointer structure with its levels as an ordered map, and the byte count
  kept on top of it.
* **Files** (`Varint.dfy`, `RecordFormat.dfy`, `BufferedWriter.dfy`, `BufferedReader.dfy`, `FileWriter.dfy`,
  `FileReader.dfy`, `MmapReader.dfy`, `SSTable.dfy`, `TableWriting.dfy`, `CutTable.dfy`, `DamagedTable.dfy`,
  `Compaction.dfy`, `Wal.dfy`, `Names.dfy`): record framing, buffered files with short and failing writes, rewinding with truncation, the table writer
  with its index and data files, what opening finds in files that a failed write cut off or whose checksums differ, the
  write-ahead log and the order of padded file names.

A value is a Go byte slice: `None` is nil, a tombstone, and `Some([])` is the empty slice. A table is a finite map from keys
to values, and a list of tables, oldest first, means their override.

## Findings

Each finding has a lemma at a failing input and one that says exactly when the code does meet the property.

* **Empty values.** The documentation says that PutBytes rejects empty keys and values (`simpledb/db.go:57-60`); the code
  checks this in Put only. An empty value is found before its flush and gone after it (`EmptyValueIsLostByFlush`): a flush
  keeps the answer for a key if and only if the store holds no empty value for it (`FlushKeepsAnswerIff`), and GetBytes
  decides as the map does if and only if the memstores do not answer with an empty value (`DecideIsLive`). An empty value
  in the log is read back as nil, refused by the memstore, and Open fails: the replay succeeds if and only if no logged
  value of a non-empty key is empty (`ReplaySucceedsIff`).
* **Empty keys.** The replay of an addition with an empty key loses its value (`ReplayedStore`, `ReplayIsFaithfulIff`). In a
  merge the nil key of the first group passes for no key at all (`sstables/sstable_merger.go:100`), so that the records of
  the empty key join the group of the next key: with equal contexts the value of the empty key is returned for its
  neighbour (`EmptyKeyCorruptsNeighbour`). `OutputIff` says for every sorted stream when the output is right all the same.
* **Dropped tombstones.** A compaction drops tombstones wherever its run lies (`simpledb/compaction.go:119`).
  `DroppedTombstoneResurrects` is an input where a deleted key comes back, `CompactionPreservesReadsIff` the exact condition
  under which reads survive, and `GuardAtOldest` shows that a run from the oldest table on always meets it. The step system
  has the condition as the guard of its selection step; the code does not check it.
* **Ignored write errors.** A merge ignores what the table writer returns (`sstables/sstable_merger.go:161`), and the
  success flag is saved before the writer is closed (`simpledb/compaction.go:138`). The table holds exactly the entries of
  the compaction whose append succeeded, and all of them if and only if none failed (`MergeCompactInto`, `CompactTables`).
  Replacing the run by it keeps reads if and only if for each entry of the compaction a newer table decides the key, or
  the older ones with this table on top of them hold its value (`PartOfCompactionIff`); `LostEntryLosesKey` is a key that
  is lost. There are three outcomes:
  - Every failing append left the writer usable. Closing it is no error, and the table lacks these entries.
  - A file broke, closing the writer is an error, and a restart finds the flag, deletes the inputs and puts the table in
    their place. Both files are then front parts of what they should be (`StreamWriter.Close`, `FileHolds`). The table does
    not open, and neither does the database: a value is read back if and only if its record lies within the data file
    (`CutEntryIff`), and the validation on opening (`sstables/sstable_reader.go:205-237`) passes if and only if the last
    index entry does (`CutTableValidatesIff`). `CutRecordKeepsFromOpening` is a table that fails at every cut inside its
    record.
  - Or the table opens with the entries that the index file still holds, if and only if that file ends at an end point and
    the last of these entries passes (`LeftTableOpensIff`, `LeftTableReads`, `RestartCommits`). `CutIndexOpensEmpty` is a
    table that opens empty.
* **Swallowed read errors.** The merge drops every error of a table iterator but its end (`sstables/sstable_merger.go:17-23`).
  - A record with a wrong checksum comes with its key and value beside the error (`sstables/sstable_iterator.go:101-108`):
    with the checks or without, a merge sees the same records (`ChecksumsAreIgnored`), and the wrong value is merged
    (`WrongValueIsMerged`).
  - Records that cannot be read arrive with nil key and nil value; the heap hands them out at once, one behind the other
    (`TakeBlanks`). They join the group of the next key (`FailureReturns`, for any number of failures). Between two keys
    they make no difference if and only if a newer table holds the next key or the reduction drops it anyway
    (`FailureBetweenKeysIff`); otherwise the next key is missing. Inside the records of one key the group is split
    (`FailureInsideKeyIff`), and the older value can win (`FailureKeepsStaleValue`).
* **Torn log records.** A crash inside a log append can leave a part of a record. The replay then yields exactly the
  records before it, and it succeeds if and only if the cut lies at one of five end points (`TornLogReplays`, whichever
  log files flushes have removed); everywhere else, and for a log file without its whole header (`HeadlessLogFails`), it
  fails (`wal/replayer.go:53-67`) and the database cannot be opened any more. `ReplayIsTheLog` says this of the log
  directory in every state of every run, `OpensIffReplaySucceeds` what it means for Open, and `TornAppendOpensIff` and
  `TornCreateNeverOpens` what a crash at a given byte does.
* **Skipping nil records.** SkipNext ignores the nil marker (`recordio/file_reader.go:137-148`). `SkipPassesRecord` is the
  exact condition under which it lands on the next record, `SkippedNilMisleads` a good file on which it does not and the
  read after it fails.
* **Failed rewinds.** A failed rewind of the data file (`sstables/sstable_writer.go:132-137`) leaves a record without an
  index entry. Lookups stay right (`TableReadsBack`); the scan pairs keys and records by position, so it returns what was
  written if and only if the i-th record holds the value of the i-th entry for all entries (`ScanIsWrittenIff`). After any
  sequence of calls with failing appends, and successful rewinds, it does (`WriteCalls`). `OrphanMisleadsScan` shows the
  wrong value, or the checksum error, for every table with one orphan and one entry, and `WriteOrphan` how the writer
  leaves that table and closes it without an error.

## Model

| member | source | states |
|---|---|---|
| `SimpleDBTheorems.StepPreserves` | simpledb/db.go:116-347 | every step, in every state that satisfies the invariant, leads to a state that satisfies it for the map after that step |
| `SimpleDBTheorems.RunPreserves` | simpledb/db.go:116-347 | the invariant holds after every run, with the map of all operations logged in the run |
| `SimpleDBTheorems.Reachable` | simpledb/db.go:116-148 | the same from an empty directory |
| `SimpleDBTheorems.GetAnswersTheMap` | simpledb/db.go:197-242 | in every run, whatever happens between the two reads of a call GetBytes(k), the call stays pending until it ends and answers exactly what the map of all operations logged before it holds for k |
| `SimpleDBTheorems.PendingStays` | simpledb/db.go:197-221 | no step of the writers, the flusher, the compactor or other readers touches a pending call, and none of them logs an operation meanwhile |
| `SimpleDBTheorems.MapIsStableDuringGet` | simpledb/db.go:197-199 | no operation is logged while a GetBytes is pending, so the answer is right at every moment of the call |
| `SimpleDBTheorems.OpenDatabaseShowsTheMap` | simpledb/db.go:116-148 | in every run with any number of crashes, an open database with no writer in it shows exactly the map of all logged operations |
| `SimpleDBTheorems.GenerationsAscend` | simpledb/flush.go:44-45 | in every reachable state the reader list ascends strictly by generation and the current generation bounds all readers and all tables on disk |
| `SimpleDBTheorems.CrashStep` | simpledb/recovery.go:22-114 | a crash is possible in every state, of the running database or of a recovery, and inside the header of the log file that Open creates; the disk stays exactly as it is, and recovers to the same map |
| `SimpleDBTheorems.TornStep` | wal/appender.go:34-45 | a crash after n bytes of a log append, or of the header of a new log file, leaves tables, log files and compaction folder as they are and exactly the first n bytes behind the log; the map is the one without the operation |
| `SimpleDBTheorems.RecoveryProgress` | simpledb/recovery.go:80-111 | the next stage of Open is possible if and only if it is not the replay of a torn log, and then it brings the database closer to running |
| `SimpleDBTheorems.OpenTerminates` | simpledb/db.go:116-148 | from every state whose log is not torn, the steps of Open alone reach a running database, and it is quiet: all tables on disk are open, the generation is that of the newest, the log is one empty file, the memstore is empty, and the tables alone show the map |
| `SimpleDBTheorems.OpensIffNotTorn` | simpledb/db.go:133-136 | in every state of every run Open can finish if and only if the log is not torn, and a torn log keeps the database from running through all further crashes |
| `SimpleDBTheorems.WaitingStep` | simpledb/flush.go:94-97 | while a writer waits for the flusher with the database lock held, every step of the other goroutines leaves it waiting; a step of the flusher brings the flusher closer, any other leaves it where it is |
| `SimpleDBTheorems.FlusherArrives` | simpledb/flush.go:94-97 | in any interleaving of the other goroutines the flusher takes at most three steps before the rendezvous is possible, and at every moment it can take its next one |
| `SimpleDBTheorems.ReflectProgress` | simpledb/sstable_manager.go:32-82 | in the middle of reflecting a compaction the next step is always possible: the reader to remove is open and the rename target is free |
| `SimpleDBEdges.EmptyValueIsLostByFlush` | simpledb/db.go:256-304 | whatever the tables hold, an empty value is found while it is in the memstore and not found once it is in a table |
| `SimpleDBEdges.FlushKeepsAnswerIff` | simpledb/db.go:209-241 | a flush keeps the answer for a key if and only if the flushed store does not hold an empty value for it |
| `SimpleDBEdges.ReplaySucceedsIff` | simpledb/recovery.go:224-239 | replaying logged mutations succeeds if and only if no value of a non-empty key is empty |
| `SimpleDBEdges.ReplayedStore` | simpledb/recovery.go:224-239 | a successful replay builds the logged store, except that the empty key has lost its value |
| `SimpleDBEdges.ReplayIsFaithfulIff` | simpledb/recovery.go:224-239 | the replay rebuilds exactly the logged store if and only if no value is refused and the empty key holds no live value |
| `SimpleDBEdges.ValidOpsReplay` | simpledb/recovery.go:224-239 | operations with non-empty keys and values are replayed exactly, as the step system takes it |
| `SimpleDBNames.TablesSortByGeneration` | simpledb/recovery.go:142-144 | in every run, as long as the generations fit the fifteen digits, sorting the table directories found in any order gives the order of their generations |
| `SimpleDBNames.TableName` | simpledb/db.go:20-21 | the name of a table directory, byte by byte |
| `SimpleDBNames.GenerationsUpToSteps` | simpledb/flush.go:44-45 | no table has a generation above the number of steps of the run |
| `SimpleDBNames.RunSortsByGeneration` | simpledb/compaction.go:65-66 | and then sorting the paths of a selected run does not reorder it |
| `SimpleDBNames.LogsSortByNumber` | wal/replayer.go:36-37 | in every run of any length, as long as the numbers of the log files are below one million, sorting the log files found in any order gives the order of their creation |
| `SimpleDBNames.LogStaysOrdered` | wal/appender.go:82-104 | in every state of every run the log files ascend, and cut bytes lie in the last file or in a newer one |
| `SimpleDBLog.ReplayIsTheLog` | wal/replayer.go:18-77 | in every state of every run, with crashes at any byte of an append and with log files removed by flushes, replaying the directory yields exactly the logged operations, and fails if and only if the log is torn |
| `SimpleDBLog.OpensIffReplaySucceeds` | simpledb/recovery.go:215-243 | in every state of every run Open can finish if and only if the replay of the directory succeeds |
| `SimpleDBLog.TornAppendOpensIff` | wal/replayer.go:53-67 | after any run and a crash behind n bytes of the record of an operation, Open can finish if and only if n is one of the five end points of that record |
| `SimpleDBLog.TornCreateNeverOpens` | wal/replayer.go:53-56 | after any run and a crash inside the header of a new log file, Open can never finish again |
| `SimpleDBCalls.WriteCanStart` | simpledb/db.go:256-304 | in every reachable state with a free lock and no pending get, every operation with a non-empty key and value can be appended, and the process can die behind any byte of its record or of a new file header |
| `SimpleDBCalls.WriterCanApply` | simpledb/db.go:294-297 | a writer whose operation is logged can update the memstore now, and after any step of the other goroutines |
| `SimpleDBCalls.WriteCompletes` | simpledb/db.go:256-304 | from every such state a write runs to its end, and then readers see exactly the map of before with the key set or removed |
| `SimpleDBCalls.GetCompletes` | simpledb/db.go:197-242 | a get can start whenever the lock is free and end at any time, and its end changes nothing else |
| `SimpleDBCalls.FlushCompletes` | simpledb/flush.go:32-108 | from every such state with an idle flusher a flush runs to its end: the store is the newest open table and on disk, and the log holds no operation any more |
| `SimpleDBCalls.CompactionCanStart` | simpledb/sstable_manager.go:115-156 | every selection under the tombstone guard can be compacted, and the run is everything from its first to its last table |
| `SimpleDBCalls.CompactionCompletes` | simpledb/compaction.go:57-141 | such a compaction runs to its end, and then exactly that run is replaced in place by its compaction, in memory and on disk |
| `SimpleDBProof.AppendStep` | simpledb/db.go:282-292 | a synchronous log append that completes makes the operation part of the map and of what a crash recovers |
| `SimpleDBProof.ApplyStep` | simpledb/db.go:294-297 | updating the memstore after the append changes neither the map nor any pending answer |
| `SimpleDBProof.RotateStep` | simpledb/flush.go:89-108 | rotating the log and swapping the memstore keeps log files and unflushed stores paired |
| `SimpleDBProof.RendezvousStep` | simpledb/flush.go:94-97 | handing the store over to the idle flusher keeps the invariant, in which the one read store covers whatever the tables do not show yet |
| `SimpleDBProof.FlushWriteStep` | simpledb/flush.go:44-58 | writing the table under the next generation keeps the invariant: ascending generations, and the same map in memory and on disk |
| `SimpleDBProof.FlushRemoveWalStep` | simpledb/flush.go:60-65 | removing the log file of the flushed store loses nothing, because its table is on disk |
| `SimpleDBProof.FlushSkipStep` | simpledb/flush.go:36-40 | an empty store is skipped and its log file, without operations, stays |
| `SimpleDBProof.PublishStep` | simpledb/flush.go:82-84 | publishing the table between the two reads of a GetBytes does not change its answer |
| `SimpleDBProof.GetBeginStep` | simpledb/db.go:209-221 | the answer decided from the tables read now and the memstores is the one of the map |
| `SimpleDBProof.DecideIsLive` | simpledb/db.go:211-241 | for every key and all stores, the decision of GetBytes is lookup in the override of tables, read store and write store if and only if the memstores do not answer with an empty value |
| `SimpleDBProof.SelectStep` | simpledb/compaction.go:57-66 | the selected generations are a contiguous run of the reader list that satisfies the tombstone guard, and the invariant holds with this run |
| `SimpleDBProof.CommitStep` | simpledb/compaction.go:93-141 | the committed folder holds the compaction of exactly the selected tables |
| `SimpleDBProof.ReflectRemoveStep` | simpledb/sstable_manager.go:32-46 | each removal of a run member leaves a state from which a crash recovers the map |
| `SimpleDBProof.ReflectRenameStep` | simpledb/sstable_manager.go:48-54 | the rename puts the merged table at the place of the oldest run member |
| `SimpleDBProof.ReflectFinishStep` | simpledb/sstable_manager.go:56-82 | the new reader list shows the same map as the old one |
| `Readers.ReplaceKeepsReads` | simpledb/sstable_manager.go:48-79 | the merged table at the place of the run, beside any newest suffix of the run, shows what the run showed |
| `SimpleDBInvariant.LogProtects` | simpledb/recovery.go:215-240 | replaying all log files in order gives exactly the override of the unflushed stores |
| `SimpleDBRecovery.CrashRunning` | simpledb/db.go:116-148 | whatever the writers, the flusher and the compactor were doing, the disk they leave recovers to the map |
| `SimpleDBRecovery.RepairFirstStep` | simpledb/recovery.go:93-96 | removing the replacement path keeps the inputs left a newest suffix of the run |
| `SimpleDBRecovery.RepairMoveStep` | simpledb/recovery.go:98-101 | the rename succeeds and the merged table takes the oldest place of the run |
| `SimpleDBRecovery.RepairRemoveStep` | simpledb/recovery.go:103-110 | removing the leftovers in ascending order keeps only a newest suffix, also if members are gone already |
| `SimpleDBRecovery.LeftoversView` | simpledb/recovery.go:88-111 | with the merged table in place and any newest suffix of its inputs left, the disk shows the map |
| `SimpleDBRecovery.ReplayStep` | simpledb/recovery.go:215-255 | replaying the log into a new table is idempotent: with the table written and the log still there, a crash recovers to the same map |
| `Tables.CompactionPreservesReads` | simpledb/sstable_manager.go:115-156 | replacing a contiguous run by its compaction at its first position, with any newest suffix left beside it, keeps every read under the tombstone guard |
| `Tables.CompactionPreservesReadsIff` | simpledb/compaction.go:119-123 | without leftovers reads are kept if and only if no key deleted by the run and not decided by a newer table is live in an older one |
| `Tables.GuardAtOldest` | simpledb/compaction.go:119-123 | a run that starts at the oldest table always satisfies the guard |
| `Tables.LossyCompactionIff` | sstables/sstable_merger.go:152-162 | replacing a run by a table with some keys of its compaction keeps reads if and only if for every entry of the compaction a newer table decides the key, or the older ones with this table on top of them hold its value |
| `Tables.LostEntryLosesKey` | sstables/sstable_merger.go:152-162 | a run replaced by a part of its compaction loses a key that no other table holds |
| `Tables.DroppedTombstoneResurrects` | simpledb/compaction.go:119-123 | a compaction above the oldest table can bring a deleted key back |
| `Tables.NonContiguousRunLosesWrite` | simpledb/sstable_manager.go:129-141 | compacting tables around an unselected one lets an old write win |
| `Tables.LeftoverPrefixLosesWrite` | simpledb/recovery.go:103-110 | removing the newest leftovers first would let an old version win |
| `SSTableManager.FloodFill` | simpledb/sstable_manager.go:158-185 | in place and terminating: a position is set exactly when selected positions exist at or before it and at or after it |
| `SSTableManager.CandidatesAreContiguous` | simpledb/sstable_manager.go:142-150 | whatever was selected, the filled selection is one contiguous run, starting and ending at selected tables, with all selected tables in it |
| `SSTableManager.Manager.CandidateTablesForCompaction` | simpledb/sstable_manager.go:115-156 | the returned tables are a contiguous part of the reader list that contains every wanted table |
| `SSTableManager.Manager.AddReader` | simpledb/sstable_manager.go:97-106 | the table of the new reader overrides what the current reader showed, and readers in the order of their generations stay so |
| `SSTableManager.Manager.RemoveRunFromDisk` | simpledb/sstable_manager.go:32-46 | exactly the directories are gone that the run names and that are open readers |
| `SSTableManager.Manager.RemoveReaders` | simpledb/sstable_manager.go:70-79 | drops exactly the given readers, or fails exactly when one of them is not open |
| `SSTableManager.Manager.ReflectCompactionResult` | simpledb/sstable_manager.go:24-85 | succeeds exactly when all run members are open readers; then disk and reader list hold the merged table in place of the run, and a compaction under the guard leaves every read as it was |
| `Names.PaddedIsFixed` | wal/appender.go:10-11 | below the limit a padded number has exactly the given number of digits |
| `Names.NameOrder` | simpledb/recovery.go:142-146 | names with a padded number sort as their numbers below ten to the width |
| `Names.NameOrderEndsAtWidth` | wal/appender.go:9-11 | the limit is real: the next number sorts before the last one with the padded width |
| `Names.ParseFixed` | simpledb/recovery.go:145-149 | reading the digits of a name gives its number back |
| `Names.SortingIsUnique` | simpledb/recovery.go:142-143 | whatever order a walk finds strictly ordered names in, sorting them gives that one order |
| `Names.NamesOfAscending` | simpledb/compaction.go:65-66 | sorting the paths of an ascending run of generations never reorders it |
| `PriorityQueue.PriorityQueue.UpHeap` | pq/priority_queue.go:101-110 | restores the heap order after an append and only permutes the heap |
| `PriorityQueue.PriorityQueue.DownHeap` | pq/priority_queue.go:112-134 | restores the heap order after the root changed and only permutes the heap |
| `PriorityQueue.PriorityQueue.constructor` | pq/priority_queue.go:50-66 | the heap holds exactly the records of all sources, in heap order |
| `PriorityQueue.PriorityQueue.Next` | pq/priority_queue.go:68-99 | returns a least of the records that the iterators stand on and lets exactly its iterator go on; over sorted sources that is a least remaining record with the context of its source, and exactly that one is removed; the end exactly when nothing remains |
| `PriorityQueue.RootIsLeast` | pq/priority_queue.go:74-75 | the element at index 1 is a minimum of the heap |
| `Merger.MergeAll` | pq/priority_queue.go:68-99 | over sorted sources the queue hands out a sorted permutation of all records, and comes to an end |
| `TableWriting.MergeInto` | sstables/sstable_merger.go:41-68 | the table holds the records in key order up to the first error; unless an append is refused or a file fails, the merge fails if and only if two records have the same key |
| `Merger.ScanReduceLatestWins` | sstables/super_sstable_reader.go:107-121 | returns the value at the first greatest context as the loop finds it |
| `Merger.LatestIndexIsGreatest` | sstables/super_sstable_reader.go:110-120 | over non-negative contexts the start values 0 and 0 are harmless: the chosen position has the greatest context |
| `Merger.MergeCompactionIterator.Next` | sstables/sstable_merger.go:79-118 | returns the reductions of the groups one by one; at the end all records were consumed in order and exactly the output for that stream was returned, empty keys included |
| `Merger.OutputPlain` | sstables/sstable_merger.go:98-117 | without empty keys the output is the reductions of all groups of equal keys |
| `Merger.OutputIff` | sstables/sstable_merger.go:98-107 | for a stream of empty keys, the group of the next key and the rest: the output is right if and only if there is no empty key, or its chosen value is dropped anyway and its records do not change what is chosen for the next key |
| `Merger.StreamLaid` | sstables/sstable_merger.go:98-107 | every sorted stream lies so |
| `Merger.OutputAscends` | sstables/sstable_merger.go:98-117 | whatever the keys are, the returned keys ascend strictly |
| `Merger.EmptyKeyCorruptsNeighbour` | sstables/sstable_merger.go:98-107 | with equal contexts the value of an empty key is returned for the key behind it |
| `Merger.MergeCompactionIterator.constructor` | sstables/sstable_merger.go:120-143 | starts with nothing consumed and everything of the sorted sources ahead |
| `Merger.ReduceAllMembers` | sstables/sstable_merger.go:98-117 | an entry is returned if and only if it is the latest record of its key and the reduction keeps its value |
| `Merger.ReduceAllAscends` | sstables/sstable_merger.go:98-117 | the returned keys ascend strictly |
| `Merger.MergeCompact` | sstables/sstable_merger.go:146-165 | for strictly sorted sources with distinct non-negative contexts: ascending keys and the output for the sorted stream of all records; without empty keys exactly the entries of the source with the greatest context that the reduction keeps |
| `FailingSource.ReturnedIsOutput` | sstables/sstable_merger.go:79-118 | the iterator folded over any stream returns, where empty keys come first, the output proved of the iterator |
| `FailingSource.ChecksumsAreIgnored` | sstables/sstable_merger.go:17-23 | whatever reading returns, with the checksum checks or without a merge gets the same records: those that can be read under their keys, and blank ones |
| `FailingSource.ScanFromIsScanNext` | sstables/sstable_iterator.go:77-111 | the scan up to its first error in terms of single calls, where a checksum error comes with key and value |
| `FailingSource.WrongValueIsMerged` | sstables/sstable_iterator.go:101-108 | a value with a wrong checksum is merged under its key although the checks are on |
| `FailingSource.TakeBlanks` | pq/priority_queue.go:68-99 | once a source fails, the heap hands out its blank records next, one behind the other, and nothing else of it changes |
| `FailingSource.FailureReturns` | sstables/sstable_merger.go:17-23 | the blank records of a source that failed join the group of the next key; what is returned before and behind them does not change, also if that holds other failures |
| `FailingSource.FailureBetweenKeysIff` | sstables/sstable_merger.go:17-23 | a failure between two keys, among any others, changes nothing of the output if and only if a newer table holds the next key or the reduction drops it anyway |
| `FailingSource.FailureInsideKeyIff` | sstables/sstable_merger.go:17-23 | a failure between two records of one key changes nothing if and only if one of the two parts is dropped and the other one chooses as the whole would |
| `FailingSource.FailureAtTheEnd` | sstables/sstable_merger.go:17-23 | with no key behind it a failure changes nothing of what the records that were read give |
| `FailingSource.FailureKeepsStaleValue` | sstables/sstable_merger.go:17-23 | a failure inside a key returns the older value first and the newer one as a second entry of the same key |
| `SuperReader.Get` | sstables/super_sstable_reader.go:34-49 | lookup from back to front is lookup in the override of all tables |
| `SuperReader.Contains` | sstables/super_sstable_reader.go:18-32 | membership from back to front is membership in the override |
| `SuperReader.Scan` | sstables/super_sstable_reader.go:51-105 | all three scans emit, in ascending order, what the merge makes of the sorted stream of all records in the range; without empty keys in the tables exactly the pairs of a key and the non-nil value that a lookup of it finds, where the key is not below the lower and not above the upper end, both included; an error exactly if there is a table and the upper end is below the lower one |
| `SuperReader.NarrowIs` | sstables/sstable_reader.go:161-175 | the scan of one table returns exactly its entries with both ends of the range included, in their order |
| `SuperReader.ExecuteCompaction` | simpledb/compaction.go:93-123 | the merge step of a compaction writes, in ascending order, what the merge makes of the sorted stream of all records; without empty keys that is the compaction of the run, as the step system uses it |
| `SkipList.Map.FindGreaterOrEqual` | skiplist/map_generic.go:219-241 | the first node not before the key, and on every level the last node before it |
| `SkipList.Map.RandomHeight` | skiplist/map_generic.go:243-255 | every outcome lies between one and the maximum, so the branch for greater heights is never taken |
| `SkipList.Map.Insert` | skiplist/map_generic.go:146-171 | for every height, each level stays strictly sorted and a part of the level below, and the map gains exactly the pair |
| `SkipList.Map.Get` | skiplist/map_generic.go:185-194 | lookup in the ordered map |
| `SkipList.Map.Contains` | skiplist/map_generic.go:177-183 | membership in the ordered map |
| `SkipList.Map.Iterate` | skiplist/map_generic.go:196-199 | all pairs of the map in ascending order |
| `SkipList.Map.IterateStartingAt` | skiplist/map_generic.go:201-204 | all pairs not below the key in ascending order |
| `SkipList.Map.IterateBetween` | skiplist/map_generic.go:206-212 | all pairs between two keys, both included; an error exactly when the keys are in the wrong order |
| `SkipList.Iterator.Next` | skiplist/map_generic.go:60-79 | returns the pending pairs one by one and then the end |
| `MemStore.CompareIsTotalOrder` | skiplist/map_generic.go:43-45 | byte comparison meets the contract of a comparator |
| `Bytes.LessIff` | skiplist/map_generic.go:43-45 | the order of keys written out: the first byte that differs decides, and a front part comes before the whole |
| `MemStore.MemStore.SetValue` | memstore/memstore.go:133-135 | overwriting through the pointer adjusts the byte count exactly, without underflow |
| `MemStore.MemStore.UpsertInternal` | memstore/memstore.go:119-141 | all error cases, the new contents, and the byte count equal to key lengths plus live value lengths |
| `MemStore.MemStore.DeleteInternal` | memstore/memstore.go:151-163 | an existing key becomes a tombstone, a missing one is an error or nothing |
| `MemStore.MemStore.Tombstone` | memstore/memstore.go:165-178 | the key is recorded as deleted whether it was there or not |
| `MemStore.MemStore.Get` | memstore/memstore.go:102-113 | missing, tombstoned and present keys are told apart |
| `MemStore.MemStore.Contains` | memstore/memstore.go:75-85 | true exactly for present, not tombstoned keys |
| `MemStore.MemStore.FlushMemstore` | memstore/memstore.go:212-235 | the entries handed to the table writer ascend strictly and stand for the store, with or without its tombstones |
| `TableWriting.WriteEntries` | memstore/memstore.go:212-235 | over ascending entries only a refused append or a failing file is an error, and a refused append always is; what the table holds is the entries, or with an error the first of them |
| `TableWriting.FlushEntries` | memstore/memstore.go:197-238 | a flush without an error leaves a closed table of exactly the entries; if any entry is missing the flush is an error, and over reliable files only a refused append makes it one |
| `MemStore.RWMemstore.Get` | simpledb/rw_memstore.go:22-36 | the write store decides unless it does not know the key |
| `MemStore.RWMemstore.Upsert` | simpledb/rw_memstore.go:44-46 | the effect of a logged addition, and an error without effect for nil keys and values |
| `MemStore.RWMemstore.Delete` | simpledb/rw_memstore.go:48-55 | delete-or-tombstone has the effect of the tombstone that a replay records |
| `Varint.VarintRoundTrip` | recordio/common_reader.go:82-111 | a 64-bit number is read back from its varint whatever follows, and takes at most ten bytes |
| `Varint.ReadFitsUint64` | recordio/common_reader.go:82-111 | what is read without an error fits 64 bits |
| `Varint.PutUvarint` | recordio/file_writer.go:135-147 | the loop leaves exactly the varint in the buffer and nothing before it changes |
| `RecordFormat.MagicIsVarint` | recordio/recordio.go:15-18 | the marker bytes are the varint of the magic number |
| `RecordFormat.FileHeaderRoundTrip` | recordio/file_writer.go:92-98 | a written file header is accepted exactly for the known compression types, with its version and type |
| `RecordFormat.FileHeaderBytes` | recordio/file_writer.go:92-98 | a file starts with the bytes 3, 0, 0, 0 and the compression type in four bytes, the lowest first |
| `RecordFormat.HeaderAcceptedIff` | recordio/common_reader.go:21-43 | a header is accepted if and only if it has eight bytes, a version from 1 to 3 and a compression type from 0 to 3 |
| `RecordFormat.FillRecordHeaderV3` | recordio/file_writer.go:135-147 | fills exactly the header, and the buffer of 31 bytes always suffices |
| `RecordFormat.HeaderRoundTrip` | recordio/common_reader.go:82-111 | a header is read back whatever follows it |
| `RecordFormat.NilMarkerIff` | recordio/common_reader.go:82-111 | a record is nil if and only if the byte behind its marker is 1 |
| `RecordFormat.HeaderFromWindow` | recordio/mmap_reader.go:138-158 | a header is read from its own bytes, so a fixed window decodes it as the whole file does |
| `RecordFormat.RecordRoundTrip` | recordio/file_reader.go:66-123 | a record is read back as it was written, nil as nil and empty as empty, whatever follows it |
| `RecordFormat.ReadAllRoundTrip` | recordio/file_reader.go:66-123 | a file of records reads back as exactly these records and then ends, with any number of zero bytes behind them |
| `RecordFormat.BadMarkerReads` | recordio/file_reader.go:68-84 | where no marker stands the file ends if and only if all bytes behind the number found there are zero, and reading fails if and only if some byte is not |
| `RecordFormat.UndecodableFails` | recordio/file_reader.go:107-117 | a payload that cannot be decompressed is an error, never a record |
| `RecordFormat.CutRecord` | recordio/file_reader.go:66-104 | a record that is cut off is never read as a record: the reader ends at five end points and fails everywhere else |
| `RecordFormat.TornFileReadsBack` | recordio/file_reader.go:66-104 | a file whose last record is cut off anywhere reads back as the records before it, without an error if and only if the cut lies at an end point |
| `RecordFormat.CutFileReads` | recordio/file_reader.go:23-104 | a file cut off anywhere behind its header reads back as exactly the records that lie within it, without an error if and only if the cut lies at an end point |
| `RecordFormat.SkipPassesRecord` | recordio/file_reader.go:126-163 | skipping lands on the next record if and only if the record is not nil or the compressor turns nothing into nothing |
| `RecordFormat.SkippedNilMisleads` | recordio/file_reader.go:137-148 | with a lossless compressor that turns nothing into a byte, skipping a nil record lands inside the next record and the read after it fails on a good file |
| `RecordFormat.MixedRun` | recordio/file_reader.go:56-163 | in any mix of reads and skips the offset is always the start of the next record, and each read returns the record at its position |
| `BufferedWriter.File.Write` | recordio/bufio_vendor.go:117-119 | writes an arbitrary front part at the file position, with or without an error; a reliable file takes everything |
| `BufferedWriter.Writer.Flush` | recordio/bufio_vendor.go:74-104 | success empties the buffer into the file; a short or failing write keeps the rest in order and is final |
| `BufferedWriter.Writer.Write` | recordio/bufio_vendor.go:113-138 | whatever the file does, it holds a front part of the bytes supplied; without an error file and buffer hold exactly these; an error comes from a file that is not reliable, by a failed or short write, only; the loop terminates |
| `BufferedWriter.Writer.Seek` | recordio/bufio_vendor.go:38-45 | everything supplied is in the file before the position moves |
| `FileWriter.FileWriter.Open` | recordio/file_writer.go:45-81 | success leaves exactly the file header on disk |
| `FileWriter.FileWriter.Write` | recordio/file_writer.go:160-204 | the record is appended at the returned offset, or an error of the file is final, or an error of the compressor leaves no trace; on an open writer with a reliable file it succeeds unless the compressor fails; nothing happens on a writer that is not open |
| `FileWriter.FileWriter.WriteSync` | recordio/file_writer.go:208-229 | success leaves header and all records in the file itself; failing writes, flushes and syncs are errors, and there are no others but those of the compressor |
| `FileWriter.FileWriter.Seek` | recordio/file_writer.go:259-274 | going back to the start of a record drops it and its successors, and fails only if the file does; offsets in the header or beyond the size are errors without effect |
| `FileWriter.FileWriter.Close` | recordio/file_writer.go:231-253 | the closed file is header and surviving records and nothing else, although nil records do not move the largest offset; after a failed write closing is an error, and only a file that is not reliable makes it one |
| `FileWriter.FileHolds` | recordio/file_writer.go:160-253 | whatever failed, a file with nothing behind its position, like one that was never rewound, is a front part of header, records and the first lost record, and any file agrees with header and records as far as it was written |
| `FileWriter.ClosedFileReadsBack` | recordio/file_reader.go:56-124 | a closed file, with any number of zero bytes behind it, reads back as the surviving records |
| `BufferedReader.Reader.Fill` | recordio/bufio_vendor.go:186-214 | what is pending stays the same, and something is buffered unless the file ended |
| `BufferedReader.Reader.ReadByte` | recordio/bufio_vendor.go:277-289 | delivers the first pending byte, or the end exactly when nothing is pending |
| `BufferedReader.Reader.Read` | recordio/bufio_vendor.go:228-273 | delivers a non-empty front part of what is pending, or the end exactly when nothing is pending |
| `FileReader.CountingReader.ReadVarint` | recordio/common_reader.go:87-105 | decoding byte by byte gives what the varint of the pending bytes is, and consumes and counts exactly its bytes |
| `FileReader.CountingReader.ReadRecordHeaderV3` | recordio/common_reader.go:82-111 | decodes the header of the pending bytes and consumes and counts exactly its bytes |
| `FileReader.CountingReader.ReadFull` | recordio/counting_buffered_reader.go:43-49 | fills the buffer with what is pending as far as it goes, and counts it |
| `FileReader.FileReader.Open` | recordio/file_reader.go:23-54 | succeeds exactly on a file with a valid header and then stands behind it |
| `FileReader.FileReader.ReadNext` | recordio/file_reader.go:56-124 | result and new offset are those of decoding the pending bytes, and the reader stays aligned with its offset although the counter is never reset, also behind a record that cannot be decompressed |
| `FileReader.FileReader.SkipNext` | recordio/file_reader.go:126-163 | the offset moves behind the announced payload and the reader stands there, whatever was buffered |
| `MmapReader.LookupIsScan` | recordio/mmap_reader.go:129-196 | lookup by offset and the sequential reader agree on which offsets hold a record and on what it is |
| `MmapReader.LookupRecord` | recordio/mmap_reader.go:129-196 | the i-th record of a file is found at its offset |
| `MmapReader.LookupErrors` | recordio/mmap_reader.go:143-160 | offsets at and behind the end of the file are told apart, and a wrong marker is an error even where only zeros follow |
| `MmapReader.LookupCutPayload` | recordio/mmap_reader.go:162-175 | a record whose header is whole and whose payload is cut off is an error, never a record |
| `MmapReader.SeekNext` | recordio/mmap_reader.go:59-127 | terminates; what it finds is a marker at or behind the offset with a readable record; a record with its marker at the offset itself is always found, and before the find, or in the whole file if there is none, only such records are passed over that stand right behind a proper front part of a marker |
| `SSTable.StreamWriter.CheckOrder` | sstables/sstable_writer.go:90-109 | rejects exactly equal and lower keys and writers that are not open |
| `SSTable.StreamWriter.Store` | sstables/sstable_writer.go:125-144 | on success index and data gain one entry that points at its record; either append can fail and break its file for good, or be refused without a trace, and fails for no other reason; after a failed index append the data file is rewound, and holds the records of before unless the rewind fails too |
| `SSTable.StreamWriter.WriteNext` | sstables/sstable_writer.go:89-145 | through any sequence of accepted, rejected and failing calls, with entries accepted behind failed ones, the index keys ascend strictly and each entry points at the record with its value, the i-th at the i-th unless a rewind failed; a key in order is written unless its append is refused or a file broke |
| `SSTable.StreamWriter.Close` | sstables/sstable_writer.go:147-148 | whatever failed, the accepted entries ascend and point at their records, the index file is a front part of them, and so is the data file of its records unless it was rewound; after a file broke closing is an error, without an error both files are complete, and over reliable files there is none |
| `TableWriting.WriteCalls` | sstables/sstable_writer.go:89-148 | any sequence of calls with any appends refused and any file failing, then Close: exactly the keys that do not ascend are rejected, and over reliable files exactly the refused appends fail; without an error of Close the table holds exactly the accepted entries, and unless a rewind failed the i-th entry points at the i-th record and the scan returns them |
| `TableWriting.WriteOrphan` | sstables/sstable_writer.go:132-137 | the index append of the first entry is refused; if the rewind behind it fails, the second entry is accepted and closing is no error, the closed table is exactly the one of `OrphanMisleadsScan` |
| `SSTable.EntryReadsBack` | sstables/sstable_reader.go:79-117 | the i-th index entry leads to the value written with its key, checksum included |
| `SSTable.TableReadsBack` | sstables/sstable_reader.go:67-117 | for every key, lookup in the closed table, with the checksum checks or without, finds what was written, or nothing |
| `SSTable.FullScan` | sstables/sstable_iterator.go:77-111 | for any index and any data file, the loop returns the keys with the records as they come, up to the first record that cannot be read or has another checksum |
| `SSTable.ScanRefusesIff` | sstables/sstable_iterator.go:77-111 | for any records on disk and any index, the scan pairs keys and records by position and stops exactly at the first entry, if there is one, whose checksum is neither zero nor that of the record beside it; without the checks it never stops |
| `SSTable.ScanPairsInOrder` | sstables/sstable_iterator.go:77-111 | the scan of a closed table pairs the i-th key with the i-th record whatever rewinds failed, and stops early exactly where a checksum tells record and entry apart |
| `SSTable.ScanIsWrittenIff` | sstables/sstable_iterator.go:77-111 | it returns what was written if and only if the i-th record holds the value of the i-th entry, for all entries |
| `SSTable.InStepScans` | sstables/sstable_iterator.go:77-111 | without a failed rewind the scan equals lookup by offset: it returns exactly what was written |
| `SSTable.OrphanMisleadsScan` | sstables/sstable_writer.go:132-137 | with one record left by a failed rewind the scan returns it under the key of the entry or fails on its checksum, while the lookup is right |
| `SSTable.MergeCompactInto` | sstables/sstable_merger.go:146-165 | the order rejections of the writer are unreachable; the table holds exactly the entries that the merge returns and whose append succeeded, and all of them if and only if no append failed; unless a file broke, exactly the refused appends fail |
| `CutTable.LoadIndex` | sstables/skiplist_index.go:26-62 | the entries of the index file, or an error if a record of it cannot be read or decoded |
| `CutTable.IndexRefusedIff` | sstables/skiplist_index.go:26-62 | loading fails if and only if reading the file fails or one of its records, nil read as empty, cannot be decoded |
| `CutTable.ValidateDataFile` | sstables/sstable_reader.go:205-238 | passes if and only if every entry of the index can be read with its checksum |
| `DamagedTable.LookupRefusesIff` | sstables/sstable_reader.go:79-117 | for any data file with a record at the offset of an index entry, the lookup is refused if and only if the checksum of the value differs from that of the entry and the latter is not zero, and otherwise returns the value |
| `DamagedTable.LookupUnchecked` | sstables/sstable_reader.go:67-117 | with the checks off, as they are by default, the lookup of a key returns the record at the offset of its entry whatever the checksum is; with the checks on, under the same condition |
| `DamagedTable.LookupAtEnd` | sstables/sstable_reader.go:79-117 | an entry at the very end of the file reads as nil, under the same condition |
| `DamagedTable.ValidationRefusesIff` | sstables/sstable_reader.go:205-238 | for any records and any index into them, the validation passes if and only if every checksum is that of its record or zero |
| `DamagedTable.OpensIff` | sstables/sstable_reader.go:282-341 | whatever two files hold, the table opens if and only if the index can be loaded, the data file starts with an accepted header, written out by its bytes, and every entry is read without an error; then with exactly the loaded index |
| `DamagedTable.OpeningRefusesIff` | sstables/sstable_reader.go:282-341 | so a table of two good files opens, with all its entries, if and only if every checksum in its index passes |
| `DamagedTable.ValidatedOnce` | sstables/sstable_reader.go:253-262 | once the validation on opening has passed, the checks make no difference to any lookup, for any index and any data file, and every key of the index is found |
| `CutTable.CutLookup` | recordio/mmap_reader.go:129-196 | in a data file that is cut off, the i-th record is found if and only if it lies within the file |
| `CutTable.CutEntryIff` | sstables/sstable_reader.go:79-117 | in a data file that is cut off, an entry is read back if and only if its record lies within the file, or is nil and starts at its very end; reading it is no error if and only if the record lies within the file, or starts at its very end and the checksum cannot tell the value from nil |
| `CutTable.CutPlaceReads` | sstables/sstable_reader.go:79-117 | an index entry for the place of any record reads what the cut file holds there, or nil at its end, if its checksum allows it, and fails otherwise |
| `CutTable.KeptEntryReads` | sstables/sstable_reader.go:79-117 | in a data file that was rewound, an entry within the part written since is read back whatever lies behind it |
| `CutTable.CutTableValidatesIff` | sstables/sstable_reader.go:205-238 | a data file that is cut off passes the validation if and only if the last entry of the index does, also if that is the entry of a lost append |
| `CutTable.CutIndexLoads` | sstables/skiplist_index.go:26-62 | an index file that is cut off is loaded up to the cut if it ends at an end point, and not at all otherwise |
| `CutTable.WriterLeaves` | sstables/sstable_writer.go:147-148 | a closed writer leaves two front parts, the index record that a failing index file lost included, unless its data file was rewound and then failed |
| `CutTable.LeftTableOpensIff` | sstables/sstable_reader.go:282-341 | such a table opens if and only if its index file ends at an end point and the last entry in it passes, and then with exactly the entries that the index file holds |
| `CutTable.LeftTableReads` | sstables/sstable_reader.go:67-117 | and then every lookup, with the checks or without, answers with what the data file holds at the place of the key's record, nil at its very end |
| `CutTable.ClosedTableOpens` | sstables/sstable_reader.go:282-341 | a table that was closed without an error opens with all its entries |
| `CutTable.CutRecordKeepsFromOpening` | sstables/sstable_reader.go:205-238 | for every entry and every cut inside its record, a table of that entry cannot be opened |
| `CutTable.CutIndexOpensEmpty` | sstables/skiplist_index.go:47-52 | for every entry, a table whose index file ends behind its header opens as an empty table |
| `CutTable.PartOfCompactionIff` | simpledb/recovery.go:88-111 | replacing a run by a table with some keys of its compaction keeps reads if and only if for each entry of the compaction a newer table decides the key, or the older ones with this table on top of them hold its value |
| `Compaction.CompactTables` | simpledb/compaction.go:89-141 | the table holds exactly the entries of the compaction of the run whose append succeeded, and over reliable files exactly the refused appends fail; the success flag is set whatever failed; without an error of closing, both files are complete for these entries |
| `Compaction.RestartCommits` | simpledb/recovery.go:88-101 | the folder left by any failure: when it opens, with which entries, the one of a lost index record included, what every lookup then finds, and when committing that keeps every read |
| `Wal.Appender.SetupNextWriter` | wal/appender.go:82-104 | opens the file with the next number, and fails without any effect at one million files |
| `Wal.Appender.Rotate` | wal/appender.go:47-60 | closes the current file with its records and starts an empty one; no record is added or lost |
| `Wal.Appender.CheckSizeAndRotate` | wal/appender.go:71-80 | rotates exactly when the size limit would be exceeded, and never changes the sequence of records |
| `Wal.Appender.Append` | wal/appender.go:21-32 | the sequence of records grows by exactly the record, or not at all; an error comes from a closed log, a file that is not reliable, the compressor or the limit of one million files, and from nothing else |
| `Wal.Appender.AppendSync` | wal/appender.go:34-45 | after success the files on disk, the open one as it is, already hold the whole log; errors have the same causes as for an append |
| `Wal.Appender.Close` | wal/appender.go:62-69 | after success the closed files hold the whole log and there are no other files; only a file that is not reliable makes it an error |
| `Wal.SortedByCreation` | wal/replayer.go:36-37 | sorting the file names gives the order of their creation, for any files with numbers below one million |
| `Wal.LogFilesAre` | wal/replayer.go:18-37 | of any listing exactly the files whose name ends in the bytes of ".wal" are log files, as often as they are listed |
| `Wal.LogFileName` | wal/appender.go:9-11 | the name of a log file, byte by byte |
| `Wal.Replay` | wal/replayer.go:18-77 | hands out the records of the log files in name order up to the first error, whatever order the walk found them in |
| `FileReader.ReadWhole` | wal/replayer.go:46-72 | the records of one file up to its end or its first error |
| `Wal.ReplayYieldsTheLog` | wal/replayer.go:18-77 | for any listing of the log files among other files, and whichever log files have been removed, the replay is exactly the log |
| `Wal.ClosedLogReplays` | wal/replayer.go:18-77 | for every run of appends and rotations that ended without a failure, the replay is exactly what was appended, in order |
| `Wal.TornLogReplays` | wal/replayer.go:53-67 | with the last append cut off anywhere, and whichever log files have been removed, the replay yields exactly the complete records, and succeeds if and only if the cut lies at an end point |
| `Wal.HeadlessLogFails` | wal/replayer.go:53-56 | with a last log file that has no whole header the other files are replayed, and then the replay fails |
| `Wal.NewAppender` | wal/appender.go:106-120 | a new log starts with an empty first file, and fails only for a file that is not reliable or an unknown compression type |

## Left out

- SimpleDBTheorems.StepPreserves: the fields of the database object are updated by steps on values, not in place; the classes below the database (manager, memstore, files, log) are modelled in place.
- SimpleDBTheorems.GetAnswersTheMap: operations have non-empty keys and values, as the documentation asks; the selection of a compaction carries the tombstone guard, which the code does not check.
- SimpleDBProof.AppendStep: the log is synchronous, a crash inside an append is the step of its own that `TornStep` treats, and one log file belongs to one memstore, as the oversized rotation limit intends (`simpledb/recovery.go:194-195`); the asynchronous log gives a weaker promise.
- SimpleDBProof.FlushWriteStep: writing a table directory is one step; a crash in the middle of it would leave a half-written table that the reconstruction refuses to open.
- SimpleDBProof.CommitStep: the closed merged table and the success flag appear in one step; the code saves the flag (`simpledb/compaction.go:138`) before the deferred close of the table (`simpledb/compaction.go:89-91`).
- SimpleDBTheorems.CrashStep: besides the log append and the creation of a log file, which can be cut off, file operations are whole steps, as the lines above say.
- SimpleDBRecovery.ReplayStep: the flush of the replayed store and the registration of its reader are one step, and so is the removal of the log directory.
- SimpleDBTheorems.OpenTerminates: at most one compaction folder exists, as one compactor leaves it; errors of the file system while the database runs are not steps, so that a table that cannot be opened, as the finding on ignored write errors describes it, is no state of a run.
- SSTableManager.Manager.CandidateTablesForCompaction: the size and tombstone ratios are an arbitrary predicate on tables; their floating point arithmetic is not modelled.
- SSTableManager.Manager.ReflectCompactionResult: errors of closing and removing are not modelled; readers are named by their generation.
- SkipList.Map.Insert: a duplicate key, a panic in the code, is excluded by the precondition; the unreachable growth of the maximum height is not written out.
- MemStore.RWMemstore.Get: the two stores of a new database are one object in the code; the step system starts with an empty read store, which answers the same.
- Merger.MergeCompactionIterator.Next: the iterators below it do not fail; what their dropped errors do is stated in `FailingSource` for the iterator folded over any stream of records.
- PriorityQueue.PriorityQueue.Next: the heap index kept in each element is not modelled, nothing reads it.
- SuperReader.Scan: each table is scanned exactly in the range, as the skip list index does it; the other index implementations are not modelled.
- BufferedWriter.File.Write: a write of nothing without an error is excluded, the loop in front of it would not end; aligned writing and direct I/O are not modelled.
- BufferedReader.Reader.Fill: the file never returns nothing before its end, so the hundred retries are not written out; read errors of the file system are not modelled.
- FileWriter.FileWriter.Seek: only the start of a record, or an offset that is refused, may be passed; the code takes any offset between header and size.
- FileWriter.FileWriter.Write: buffer pools and the check of the written length, implied by the writer's contract, are not modelled.
- FileReader.FileReader.ReadNext: the formats of versions 1 and 2 are not modelled; sizes are unbounded numbers, so an allocation never fails and offsets do not wrap.
- MmapReader.SeekNext: nothing is claimed about a record right behind a proper front part of a marker, since after a partial match the search steps over the byte that does not fit; a marker inside a payload is accepted like any other.
- CutTable.ValidateDataFile: the options to skip the validation and to load other index implementations are not modelled.
- SSTable.StreamWriter.Close: the bloom filter and the metadata file are not modelled; checksums and the encoding of index entries are function parameters.
- CutTable.KeptEntryReads: one direction only, for a data file that was rewound before it failed; what lies behind the part written since can, by chance, hold the record that is missing.
- Compaction.RestartCommits: a data file that was rewound and then failed is excluded, for it the line above holds.
- Wal.Replay: files are of the current version, and the function that receives the records does not fail.
- The disk key index, the slice index and the map index (`sstables/disk_key_index.go`, `sstables/slice_key_index.go`, `sstables/map_key_index.go`).
- Closing the database, option handling, tickers, logging, and the string variants of Get, Put and Delete.
- SuperSSTableReader.MetaData and RWMemstore.Contains, which the read path does not use.
- Compressors, protocol buffer encodings and hash functions, which are parameters or values here.

# Mini-Mito, modelled and verified

Mini-Mito is a log-structured time-series store. Whatever it does, it keeps one thing: a map from each key (encoded
tags and a timestamp) to the key's newest version, a value or a tombstone. This project models the parts that keep this
map and proves that they do, for every input and every interleaving.

- `Rows` is the common ground: key order, row versions, the newest-version map, and when one bag of rows *covers*
  another (holds nothing foreign and everything newest that has not expired).
- `Machine` is the region as a state machine: in-flight writers, batches, optimistic transactions, freezing, flushing,
  windowed compaction with or without an expiry cutoff, files with atomic renames, the manifest, logs, crashes, and every
  step of reopening. Its `floor` is the highest cutoff used so far. `Invariant` says what each state keeps;
  `WorkerSteps`, `WriterSteps` and `OpenSteps` prove it step by step; `Safety` draws the conclusions about whole runs,
  `Provenance` says where the rows of the history come from, `Transactions` draws the conclusions about snapshots and
  commits, `Ttl` those about expiry, and `Losses` those about crashes that also lose what was not synced.
- `RegionCode`, `Walk` and `Reopen` are the same region in the program's form: a class whose methods update fields, run
  loops and merge, each proved to be a run of the machine. `Walk` holds the loops over the sources of a version.
- `Reads` and `Separation` say exactly when `Region::get` is right, and that ordinary runs, crashes of a region at rest
  included, keep it right. `Witnesses` holds runs from the initial state that show what does not hold. `Compaction` proves progress.
- `Merge` is the k-way heap merge, `Columnar` and `Memtable` the columnar memtable over its log, `Wal` the log's bytes,
  `Durability` the merging of orphan logs over bytes that may not be synced yet, `Bloom`, `SsTable`, `SstFile` and
  `SstScan` the SST file, `Query` pruning, projection and limits, `Schema` the encoding of tags and fields. `EndToEnd`
  joins them: a flush, and a query from its filters to its last row.

Where the code and the idea behind it part, the model follows the code:

- `Region::get` overwrites its answer without comparing numbers (src/memtable/memtable.rs:748-767), unlike
  `visible_seq`. `Reads.GetIsNewestIff` gives the exact condition under which its answer is the newest version, in terms
  of the sources' own lookups and highest numbers; `Witnesses.GetMayResurrect` is a run after which it is not.
- A log batch whose fields overflow their length prefixes, or whose frame is over the limit, is accepted by the writer
  and lost by recovery; `Wal.DecodeEncode` and `Wal.SurvivesIff` are equivalences. Cells of 4 GiB or more may share an
  encoding (`Schema.LongCellsCollide`).
- Recovery stops at a torn tail but does not cut it off. `Wal.AppendsSurviveIff`: what a reopened log takes comes back
  exactly if the log ended with a whole frame; behind every other log some batch is lost that the format can hold.
  `Wal.TornTailHides` is an instance, and `Wal.CutIsIntactIff` says which crashes leave such a log.
- Reopening removes an orphan log while its rows may only be buffered for the active one. `Durability.LosslessIff` says
  exactly when that is safe, `Durability.LosingRun` is a case in which it is not.
- Only `get` surely hides expired rows: a table scan shows those that still sit in memtables
  (`EndToEnd.RunQuery` says exactly which), and a commit misses a conflict with a row that compaction has dropped
  (`Witnesses.ExpiryHidesConflict`; `Transactions.ConflictIsFound` says that it misses no other).
- A compaction threshold below two makes no progress (`Compaction.NoProgressBelowTwo`).

Numbers are unbounded in Dafny. Truncating casts to 16 and 32 bits, two's complement timestamps and saturating
subtraction are written out. Sequence numbers and file ids are natural numbers that never wrap.

## Model

| member | source | states |
|---|---|---|
| `Safety.CrashConsistency` | src/memtable/memtable.rs:363-406 | after every run from the first open (writers, batches, commits, freezes, flushes, compactions with or without a cutoff, removals, interleaved, with any number of crashes, also inside recovery), a region that is up shows, of every key that no cutoff used has passed, exactly the newest version ever made durable, tombstones included; without cutoffs that is the whole map |
| `Provenance.NothingInvented` | src/memtable/memtable.rs:559-590 | every row that any run makes durable was asked for: some single write, batch entry or transaction write of the run has its key and its value |
| `Provenance.AllocatedIsInserted` | src/memtable/memtable.rs:579-587 | whatever writers, transactions and the worker do between its two halves, a single write adds exactly its key and value, under the number it took first, to history, memtable and log |
| `Safety.FirstOpen` | src/memtable/memtable.rs:313-406 | opening an empty directory leads to the running state with one empty log and numbering from one |
| `Safety.InternalStepsKeepMap` | src/memtable/memtable.rs:70-187 | no sequence of worker steps, reader steps, crashes and reopenings changes what is visible from the highest cutoff used on, even when freezes fall between a compaction's snapshot and its publish |
| `Safety.DiskHoldsHistory` | src/memtable/memtable.rs:416-545 | a crash may come at any instant and takes only what is in memory; in every reachable state the disk it leaves (files that reopening loads, and logs) holds nothing foreign and every newest row that has not expired |
| `Losses.LossyCrash` | src/memtable/wal.rs:80-97 | a crash that also loses what was appended to the active log since some earlier state, with no freeze in between, leaves a disk that a run without those appends reaches, with exactly the rows and commits of the earlier state as its history |
| `Losses.LossyCrashShows` | src/memtable/memtable.rs:363-406 | reopened after such a crash the region shows exactly the newest version of every row that survived and has not expired |
| `Safety.StepOk` | src/memtable/memtable.rs:70-187 | every enabled step, by writer, worker, crash or recovery, keeps the invariant that ties memory, files, manifest, logs and history together |
| `Safety.VisibleIsHistory` | src/memtable/memtable.rs:846-882 | in every reachable running state the sources of the version merge to the newest-version map of the history, as far as it has not expired |
| `Safety.ReachableOk` | src/memtable/memtable.rs:313-406 | the invariant holds of every reachable state |
| `Invariant.CrashWhileUp` | src/memtable/memtable.rs:70-99 | wherever the worker is between its durable effects, the disk alone still covers the history |
| `Invariant.CrashWhileOpening` | src/memtable/memtable.rs:416-452 | the same in the middle of merging orphan logs |
| `WorkerSteps.FlushWriteOk` | src/memtable/memtable.rs:71-75 | a new file that is not yet tracked loses nothing and is not mistaken for a stale one |
| `WorkerSteps.FlushPublishOk` | src/memtable/memtable.rs:77-95 | replacing a frozen memtable by its file keeps every newest version |
| `WorkerSteps.FlushFinishOk` | src/memtable/memtable.rs:96-97 | once the manifest tracks the file its log may go |
| `WorkerSteps.CompactStartOk` | src/memtable/memtable.rs:101-155 | the merged rows keep every newest version of the group that the cutoff has not passed; without a cutoff they are not empty |
| `WorkerSteps.MergedCovers` | src/memtable/memtable.rs:136-155 | merging the clamped scans of a group keeps the newest unexpired versions, even though expired ones no longer have a say |
| `WorkerSteps.CompactPublishOk` | src/memtable/memtable.rs:157-181 | replacing the group by the merged file keeps every newest unexpired version, whatever happened to the version in between |
| `WorkerSteps.CompactDropOk` | src/memtable/memtable.rs:157-181 | so does dropping the group without a file when the merge leaves no row, and everything the manifest then tracks stays told apart from what is stale |
| `WorkerSteps.CompactFinishOk` | src/memtable/memtable.rs:182-186 | after the manifest is renamed the inputs are stale: reopening ignores those that are still there |
| `WorkerSteps.RemoveSstOk` | src/memtable/memtable.rs:257-273 | removing an owed file, or not, changes nothing that reopening reads |
| `WorkerSteps.RemoveWalOk` | src/memtable/memtable.rs:257-273 | the same for logs |
| `WorkerSteps.FreezeOk` | src/memtable/memtable.rs:657-678 | the next log is new, and the frozen rows stay covered by their own log |
| `OpenSteps.OpenStartOk` | src/memtable/memtable.rs:363-391 | loading tracked files and adoptable untracked ones, and all logs, covers the history |
| `OpenSteps.OrphanLoadOk` | src/memtable/memtable.rs:416-431 | keeping only the newest row per key of an orphan log keeps the history covered |
| `OpenSteps.OrphanSkippedOk` | src/memtable/memtable.rs:438-445 | a row may be skipped when the memtable holds one that is at least as new |
| `OpenSteps.OrphanKeptOk` | src/memtable/memtable.rs:438-445 | a newer row moves to the active memtable and its log |
| `OpenSteps.OrphanRowStep` | src/memtable/memtable.rs:438-445 | a row of an orphan log is appended to the memtable and its log exactly if the memtable holds no row of its key that is at least as new |
| `OpenSteps.OrphanDoneOk` | src/memtable/memtable.rs:432-450 | a merged orphan log may be removed or may stay |
| `OpenSteps.WatermarkAbove` | src/memtable/memtable.rs:393-400 | the watermark found on disk is at least the number of every row that has not expired |
| `WriterSteps.CommitsBelow` | src/memtable/memtable.rs:393-400 | as long as nothing has been dropped the next number is above all that commits have used |
| `OpenSteps.LoadedSsts` | src/memtable/memtable.rs:400-404 | after reopening the manifest tracks exactly the loaded files, and every other file is stale, also where the largest tracked id has fallen |
| `OpenSteps.OpenDoneOk` | src/memtable/memtable.rs:393-406 | the region that comes up satisfies the running invariant |
| `WriterSteps.InsertOk` | src/memtable/memtable.rs:579-587 | a writer that took its number earlier, with freezes and other writers in between, keeps history, snapshots and commits consistent |
| `WriterSteps.WriteBatchOk` | src/memtable/memtable.rs:559-577 | a batch takes consecutive fresh numbers |
| `WriterSteps.SnapshotComplete` | src/memtable/memtable.rs:592-597 | with the commit gate held the materialised sources below the current number show the whole newest-version map, as far as it has not expired |
| `WriterSteps.NoConflictMeans` | src/memtable/memtable.rs:607-613 | if no written key has expired, the conflict check finds something exactly if some row of a written key is at or above the snapshot |
| `WriterSteps.CommitWritesOk` | src/memtable/memtable.rs:599-633 | a commit keeps the invariant: its rows stand together in the history, it had seen every key it wrote that has not expired as it was then, and open snapshots stay as they are |
| `Reopen.Open` | src/memtable/memtable.rs:313-406 | opening always reaches a running region, by steps that write nothing new, whatever a crash left; it then shows the newest version of everything made durable and not expired, and numbers and file ids go on just above the largest found |
| `Reopen.LoadAll` | src/memtable/memtable.rs:454-545 | handles, in id order, for exactly the tracked files that exist and the untracked ones above all of those, each with the file's rows; the counter is one past the largest id, zero without files |
| `Rows.LatestOf` | src/memtable/memtable.rs:419-431 | the replay into the hash map computes the newest version per key |
| `Reopen.Watermark` | src/memtable/memtable.rs:393-399 | the loop computes the highest number over memtable and files |
| `RegionCode.Region.WriteInner` | src/memtable/memtable.rs:579-590 | a lone write is an allocation followed by an insertion; the caller gets back `Some(x)` exactly if the newest row that the active memtable held of the key has value `x` |
| `RegionCode.Region.WriteBatch` | src/memtable/memtable.rs:559-577 | history, memtable and log each grow by one row per entry, in the order of the entries, row `i` with the key and value of entry `i` and the number `i` after the next one; of a key that occurs more than once (and has not expired) the last entry is then the newest version |
| `RegionCode.Region.FreezeActive` | src/memtable/memtable.rs:657-678 | nothing happens to an empty memtable; otherwise it is appended to the immutables, and an empty one with the next, empty log takes over |
| `RegionCode.Region.VisibleSeq` | src/memtable/memtable.rs:635-655 | the early-skip search returns the highest number the sources have of the key, and of a key that has not expired the highest number that any row of it in the history has, nothing exactly if there is no such row |
| `Walk.HighestSeq` | src/memtable/memtable.rs:635-655 | the loop over active, immutables and SSTs computes the early-skip search |
| `Walk.SkipIsRight` | src/memtable/memtable.rs:640-653 | skipping a source is right when its highest number does not exceed what was found |
| `Walk.HighestIsNewest` | src/memtable/memtable.rs:635-655 | so the search ends with the highest number of the key over any sources in any order |
| `RegionCode.Region.Get` | src/memtable/memtable.rs:737-771 | the answer is `Some(x)` exactly if the cutoff has not passed the key and the row that the loop ends with has value `x`; in a region whose sources have disjoint number ranges, exactly if the newest row of the key in the whole history has value `x` |
| `Walk.LastFound` | src/memtable/memtable.rs:745-770 | the loop of `get` over active, immutables and SSTs is that fold |
| `Walk.NewestFirst` | src/memtable/memtable.rs:745-770 | the order of the walk: the active memtable, then the immutables and the SSTs, each from the latest to the first |
| `RegionCode.Region.Begin` | src/memtable/memtable.rs:592-597 | a new transaction is the snapshot step on the materialised sources: it starts at the next number with nothing buffered, and its index has the newest row of the history of every key that has not expired |
| `RegionCode.Region.Commit` | src/memtable/memtable.rs:599-633 | commits exactly if nothing was written or no written key conflicts, that is, unless a key has expired, if no row of a written key is at or above the snapshot; then the history grows by one row per buffered write, with its value and the next numbers, otherwise by nothing |
| `Walk.AnyNewer` | src/memtable/memtable.rs:607-613 | the conflict loop finds a key whose newest version is at or above the snapshot exactly if there is one |
| `RegionCode.Region.FlushOne` | src/memtable/memtable.rs:70-99 | a flush is write, publish and finish in that order; the new table, a file of its own, lists the memtable's newest versions, the memtable leaves the immutables and no other does, the manifest tracks the tables, and the log is gone or owed |
| `RegionCode.Region.Compact` | src/memtable/memtable.rs:101-187 | if in some interval of the window size at least the threshold of tables start (have their smallest timestamp), exactly the tables that start in the earliest such interval go away, their files owed for removal, and at most one table comes, with a newest row of every key they have a row of from the cutoff on; otherwise nothing happens. Tables that start in different intervals are never merged |
| `Compaction.ChooseWindow` | src/memtable/memtable.rs:122-133 | the grouping loop and the search find the earliest interval in which enough tables start, exactly if there is one, and the places of exactly the tables that start in it |
| `Compaction.GroupByWindow` | src/memtable/memtable.rs:122-128 | the map has an entry for exactly the intervals in which a table starts, holding the places of these tables in ascending order |
| `Walk.SnapshotSources` | src/memtable/memtable.rs:846-882 | memtables materialised whole, an empty active one left out, files pruned by the bounds and read in the columns asked for (each value as it is or reduced to them): sorted sources that deliver every newest row inside the bounds, nothing foreign, and outside the bounds only what the memtables hold |
| `Walk.Materialise` | src/memtable/columnar.rs:383-389 | a frozen memtable of the rows lists their newest-version map |
| `Walk.ScanSst` | src/sstable/sstable.rs:737-798 | a file whose extent misses the bounds is skipped and has no row inside them; otherwise exactly its rows inside them are read, in order, each value reduced to the columns asked for |
| `Walk.InsideMeans` | src/sstable/sstable.rs:737-798 | scanning a file from end to end under the bounds gives exactly its rows inside them, in order |
| `Walk.GroupSources` | src/memtable/memtable.rs:134-146 | the sources of a compaction are the unexpired rows of exactly the chosen tables |
| `RegionCode.Region.RemoveSst` | src/memtable/memtable.rs:264-273 | a retried removal is a removal step: one file goes, and is no longer owed |
| `RegionCode.Transaction.constructor` | src/memtable/transaction.rs:46-87 | the index is the newest-version map of the rows below the snapshot number |
| `RegionCode.Transaction.Get` | src/memtable/transaction.rs:97-102 | a read gives `Some(x)` exactly if the buffer has value `x` for the key, or has nothing for it and the index has `x` |
| `RegionCode.Transaction.Write` | src/memtable/transaction.rs:89-91 | the buffered value of the key is replaced and nothing else; on a region this is the transaction's write step, from the state with the old buffer to the state with the new one |
| `RegionCode.Transaction.Delete` | src/memtable/transaction.rs:93-95 | the same with a tombstone |
| `Transactions.BeginSeesEverything` | src/memtable/memtable.rs:592-597 | at `begin` the index is the whole visible map and the history, as far as they have not expired: no number below the snapshot is still on its way |
| `Transactions.ReadsAreStable` | src/memtable/transaction.rs:97-102 | in every later state a read of a key that has not expired gives what the buffer has, or else the value of the highest numbered row of the key below the snapshot; writers in flight are all at or above it |
| `Transactions.WriteIsRead` | src/memtable/transaction.rs:89-95 | after a write the transaction reads the value written, whatever was buffered before; every other key, the snapshot, the index, other transactions and the rest of the state are as they were |
| `Transactions.OwnLastWrite` | src/memtable/transaction.rs:89-102 | over any run in which the transaction stays open, a read of a key gives the last value it wrote to it in the run, and without one what it gave before |
| `Transactions.CommitAdds` | src/memtable/memtable.rs:615-633 | a commit makes exactly the buffered writes durable: one row for each, with the value written last, under consecutive new numbers |
| `Transactions.EndedIsGone` | src/memtable/memtable.rs:599-613 | an end removes the transaction and no other; unless it commits writes it changes nothing else |
| `Transactions.ViewsArePrivate` | src/memtable/transaction.rs:89-102 | no step of anyone else changes an open transaction |
| `Transactions.OverwrittenIff` | src/memtable/memtable.rs:607-613 | a key that has not expired counts as a conflict exactly if its current newest version is no longer the one in the snapshot |
| `Transactions.ConflictIffOverwritten` | src/memtable/memtable.rs:607-613 | if no written key has expired, a commit conflicts exactly if one of them is no longer at its snapshot version |
| `Transactions.ConflictIsFound` | src/memtable/memtable.rs:607-613 | whatever has been dropped, a written key that has not expired is found if its newest version is at or above the snapshot |
| `Transactions.ConflictIsReal` | src/memtable/memtable.rs:607-613 | and a conflict is only reported for a row of a written key at or above the snapshot |
| `Witnesses.ExpiryHidesConflict` | src/memtable/memtable.rs:607-613 | a run in which a compaction drops an expired row that a transaction then overwrites without a conflict |
| `Transactions.FirstCommitterWins` | src/memtable/memtable.rs:599-633 | of two committed transactions writing a common key that has not expired the later one began after the earlier one's row was there, and saw it; as long as nothing has been dropped its snapshot is above all of the earlier one's numbers |
| `Transactions.NoLostUpdate` | src/memtable/memtable.rs:599-633 | if a key that has not expired is only written by transactions storing f of what they read, its value is f applied once per successful commit, through crashes and reopenings |
| `Reads.GetIsNewestIff` | src/memtable/memtable.rs:737-771 | the loop of `get` ends with the newest version exactly if no later source holds an older version and also a number above the newest |
| `Reads.VisitAllHeld` | src/memtable/memtable.rs:737-771 | the loop finds some version exactly if there is one |
| `Separation.SeparatedNotMisled` | src/memtable/memtable.rs:737-771 | sources with disjoint number ranges never mislead the loop |
| `Separation.CalmRunGet` | src/memtable/memtable.rs:737-771 | from the first open on, after any run of atomic writes, batches, commits, freezes, flushes, compactions of neighbouring ranges, crashes of a region at rest and reopenings, `get` returns, of every key that no cutoff has passed, the newest version ever written, and its value |
| `Separation.CrashStacked` | src/memtable/memtable.rs:416-545 | a region at rest leaves files of disjoint ranges, and logs above them |
| `Separation.RestWhenIdle` | src/memtable/memtable.rs:70-99 | without expiry a region with an idle worker, nothing frozen and no other log is at rest |
| `Separation.ReopenedLayered` | src/memtable/memtable.rs:393-406 | a region opened on such a disk has disjoint ranges again |
| `Separation.OpenedIsLayered` | src/memtable/memtable.rs:313-406 | a region opened for the first time satisfies the invariant and has nothing to overlap |
| `Separation.FlushLayered` | src/memtable/memtable.rs:77-95 | flushing keeps ranges disjoint |
| `Separation.CompactLayered` | src/memtable/memtable.rs:157-181 | compacting neighbouring ranges keeps ranges disjoint |
| `Separation.FreezeLayered` | src/memtable/memtable.rs:657-678 | freezing keeps ranges disjoint |
| `Separation.WriteLayered` | src/memtable/memtable.rs:579-589 | an atomic write keeps ranges disjoint |
| `Witnesses.GetMayResurrect` | src/memtable/memtable.rs:748-767 | a run of the machine from its initial state (three flushes, a compaction, a flush, a compaction) after which the loop of `get` answers with a deleted value, though the region still has the deletion |
| `Compaction.OutputMinTs` | src/memtable/memtable.rs:122-128 | merging keeps the group's smallest timestamp |
| `Compaction.OutputWindow` | src/memtable/memtable.rs:122-128 | the output falls in the group's own window; with a cutoff it can only be a later one |
| `Compaction.OutputStarts` | src/memtable/memtable.rs:122-128 | in terms of time: no row of the output is before the interval in which the merged tables start, and without a cutoff the output starts in it, for negative timestamps too |
| `Compaction.WindowMeans` | src/memtable/memtable.rs:122-128 | the quotient is `w` exactly if the smallest timestamp lies between `w` and `w + 1` times the window size, which is at least one |
| `Compaction.ChosenMeans` | src/memtable/memtable.rs:122-133 | a window is chosen exactly if enough tables start in its interval and in no earlier one |
| `Compaction.CompactedMerges` | src/memtable/memtable.rs:134-174 | what one compaction does to the list of tables, in terms of timestamps, keys and numbers alone |
| `Compaction.CompactedWindows` | src/memtable/memtable.rs:157-174 | an effective compaction empties its window, puts its output, if there is one, into that or a later window, removes group size tables for it and leaves every other table alone |
| `Compaction.BusyUnlessQuiet` | src/memtable/memtable.rs:122-133 | compaction has something to do exactly while some window is full |
| `Compaction.CompactionTerminates` | src/memtable/memtable.rs:101-187 | with a threshold of at least two, repeated compaction under any cutoffs ends, after fewer rounds than tables, with every window below the threshold |
| `Compaction.NoProgressBelowTwo` | src/memtable/memtable.rs:103-134 | with a smaller threshold a window compacted without a cutoff is full again |
| `Ttl.ExpiryIsInvisible` | src/memtable/memtable.rs:721-743 | with a fixed TTL and a clock that never goes back, after any run from the first open, with crashes, reopenings, transactions and writers in flight, a clamped read sees `x` exactly if the key is not too old by the clock and the newest row ever made durable of it has value `x`, though much may have been dropped |
| `Ttl.ExpiredIff` | src/memtable/memtable.rs:721-731 | the saturating cutoff has passed a key exactly if there is a TTL, the key plus the TTL is before now in unbounded arithmetic, and its time is not the largest one |
| `Witnesses.NumbersMayRepeat` | src/memtable/memtable.rs:393-400 | expiry and a reopening can make two different rows carry the same number |
| `Ttl.CompactionKeepsUnexpired` | src/memtable/memtable.rs:108-155 | no run of the worker, of readers, of crashes and of reopenings changes a clamped read |
| `Ttl.ExpiredStays` | src/memtable/memtable.rs:721-731 | what is expired stays expired, with saturating subtraction |
| `Merge.MergeAll` | src/query/merge.rs:267-292 | draining the merge fails exactly if a source is not strictly increasing; otherwise the batches, of 1 to 10000 rows, list the newest version of every key of every source |
| `Merge.MergeBatchIter.NextBatch` | src/query/merge.rs:267-292 | one call: nothing lost or repeated at a batch border, a measure that decreases, and the end exactly when every source is used up |
| `Merge.MergeBatchIter.MergeOne` | src/query/merge.rs:271-288 | one round emits the top row and skips every other row of its key |
| `Merge.Round` | src/query/merge.rs:271-288 | a round keeps the merge invariant |
| `Merge.TopWins` | src/query/merge.rs:47-56 | the heap's minimum has the highest number of its key, from the lowest source on a tie |
| `Merge.MergedAll` | src/query/merge.rs:267-292 | when every source is used up the output lists the newest-version map of the union |
| `Merge.MergeBatchIter.TopOfHeap` | src/query/merge.rs:47-56 | with one entry per unfinished source the minimum of the heap is the minimum over all sources |
| `Merge.MergeBatchIter.LoadNextBatch` | src/query/merge.rs:190-217 | loading skips empty batches and fails only on an unsorted source; when it does not fail, what has been loaded of the source is strictly increasing and its next row is in the heap |
| `Merge.MergeBatchIter.Advance` | src/query/merge.rs:223-236 | the source moves to its next row, in the batch or in the next one |
| `Merge.ExtractKeys` | src/query/merge.rs:91-132 | keys come out exactly if the batch is strictly increasing and follows the previous one |
| `Wal.RecoverTruncated` | src/memtable/wal.rs:99-128 | wherever the file is cut, recovery yields exactly the operations of the frames wholly before the cut |
| `Wal.WholeMeaning` | src/memtable/wal.rs:99-128 | how many frames that is |
| `Wal.RecoverLog` | src/memtable/wal.rs:99-128 | recovery reads back every batch that fits and goes on with what follows |
| `Wal.RecoverBeforeDamage` | src/memtable/wal.rs:105-124 | what does not begin with a whole frame and the right checksum ends recovery and takes nothing before it along |
| `Wal.ReadFrameIff` | src/memtable/wal.rs:103-123 | a frame is read exactly if the file begins with the frame of a payload that is not empty and within the limit |
| `Wal.DamagedFrame` | src/memtable/wal.rs:121-123 | a payload that is not the one its checksum was written for, whatever follows it, is not recovered |
| `Wal.FrameLayout` | src/memtable/wal.rs:71-76 | a frame byte by byte: length, checksum, payload |
| `Wal.PayloadLayout` | src/memtable/wal.rs:141-143 | a payload: the number of operations, then their encodings in order |
| `Wal.OpLayout` | src/memtable/wal.rs:143-173 | an operation byte by byte: kind, length of the tags, tags, timestamp, number, and unless it deletes length and value, each integer reduced to its width |
| `Wal.LeastFirst` | src/memtable/wal.rs:181-207 | integers are read least significant byte first |
| `Wal.DecodeOpIff` | src/memtable/wal.rs:224-273 | for the kinds that are written, reading one operation off a cursor is exactly the inverse of encoding one that fits |
| `Wal.UnknownKind` | src/memtable/wal.rs:259-271 | any other kind reads as an insert |
| `Wal.DecodesWhole` | src/memtable/wal.rs:218-276 | a payload that announces more operations than it has whole ones decodes to the whole ones |
| `Wal.SurvivesIff` | src/memtable/wal.rs:67-78 | a batch of under 4 GiB survives exactly if its fields fit their length prefixes and its frame the limit |
| `Wal.OversizedFrame` | src/memtable/wal.rs:111-113 | a frame over the limit is written but ends recovery |
| `Wal.DecodeEncode` | src/memtable/wal.rs:141-276 | decoding undoes encoding exactly for operation lists whose fields fit |
| `Wal.LongTagsAreLost` | src/memtable/wal.rs:161-163 | of tags of 65536 bytes or more exactly the first `len % 65536` bytes come back |
| `Wal.AppendsSurviveIff` | src/memtable/wal.rs:67-128 | whatever the checksum: all that is appended to an old log survives exactly if the log ends with a whole frame; behind every other log some batch is lost that the format can hold |
| `Wal.HiddenBatch` | src/memtable/wal.rs:99-128 | behind every log that does not end with a whole frame a batch of one row that fits the format and the frame limit is lost |
| `Wal.DeadTail` | src/memtable/wal.rs:105-124 | behind a damaged frame, or a length that is none, everything is lost |
| `Wal.CutIsIntactIff` | src/memtable/wal.rs:99-128 | a cut log of whole frames ends with a whole frame exactly if the cut falls between two frames |
| `Wal.TornTailHides` | src/memtable/wal.rs:67-78 | for instance: one zero byte hides every batch with a payload under 256 bytes |
| `Wal.RecoveredGrows` | src/memtable/wal.rs:99-128 | what was recovered once is recovered again whatever has been appended since |
| `Wal.IntactThen` | src/memtable/wal.rs:99-128 | recovery of a file without a torn tail goes on with what follows |
| `Wal.TruncatedPayload` | src/memtable/wal.rs:218-276 | decoding a cut payload yields a prefix of the operations |
| `Wal.DecodeOps` | src/memtable/wal.rs:218-276 | the cursor loop computes the decoder's specification |
| `Wal.EncodeOps` | src/memtable/wal.rs:141-159 | the buffer loop computes the encoder's specification |
| `Wal.Wal.AppendBatch` | src/memtable/wal.rs:67-78 | an empty batch writes nothing, another appends one frame; then everything is synced exactly if the policy asks for it |
| `Wal.Wal.MaybeSync` | src/memtable/wal.rs:80-97 | everything is synced exactly under `Always` and under `Interval(n)` once `n` operations have come together; what is flushed stays what was there at the open and a whole number of frames |
| `Wal.Wal.constructor` | src/memtable/wal.rs:49-65 | a log opens on any bytes, which count as flushed, and leaves them as they are |
| `Wal.Wal.Close` | src/memtable/wal.rs:134-138 | closing flushes and syncs every batch |
| `Wal.Wal.WholeFile` | src/memtable/wal.rs:99-128 | behind an old part that ends with a whole frame the file recovers to that part and all batches since |
| `Wal.Wal.Recover` | src/memtable/wal.rs:99-128 | the reading loop computes the recovery specification |
| `Wal.Wal.CrashLoss` | src/memtable/wal.rs:80-97 | behind an old part without a torn tail a crash loses only whole batches, none under `Always`, fewer operations than the interval under `Interval(n)` |
| `Wal.Wal.CrashKeepsBase` | src/memtable/wal.rs:80-97 | whatever a crash leaves, what was recovered at the open is recovered again |
| `Columnar.ScanIsNewest` | src/memtable/columnar.rs:222-233 | scanning a series finds exactly the newest version of the key, the first on a tie |
| `Columnar.ScanSeries` | src/memtable/columnar.rs:222-233 | the loop computes the scan |
| `Columnar.MaterializeSeries` | src/memtable/columnar.rs:55-80 | sort and filter keep, for exactly the timestamps that occur and in order, the rows the scan finds |
| `Columnar.SortOrders` | src/memtable/columnar.rs:60-64 | the stable sort orders by timestamp ascending and number descending |
| `Columnar.KeepFirsts` | src/memtable/columnar.rs:65-76 | the filter keeps the first of each timestamp |
| `Memtable.ColumnarMemtable.constructor` | src/memtable/columnar.rs:157-190 | opened on any bytes, the memtable holds exactly the rows recovered from them |
| `Memtable.ColumnarMemtable.InsertRow` | src/memtable/columnar.rs:200-220 | a row is appended; `Some(x)` is returned exactly if the newest row of the key before has value `x` |
| `Memtable.ColumnarMemtable.Get` | src/memtable/columnar.rs:292-298 | a lookup returns the key's entry in the newest-version map |
| `Memtable.ColumnarMemtable.Write` | src/memtable/columnar.rs:237-251 | log first, then memory; both grow by the same row, and `Some(x)` is returned exactly if the newest row of the key before has value `x` |
| `Memtable.ColumnarMemtable.WriteBatch` | src/memtable/columnar.rs:253-273 | one frame and all its rows |
| `Memtable.LoggedOp` | src/memtable/columnar.rs:253-268 | a batch logs one operation per row, in order: a delete for a tombstone, an insert otherwise |
| `Memtable.ReplayedRow` | src/memtable/columnar.rs:180-187 | replay makes one row of each operation, in order: a tombstone of a delete, otherwise its value |
| `Memtable.ColumnarMemtable.ToBatches` | src/memtable/columnar.rs:304-317 | the batches, concatenated, are strictly increasing and list the newest-version map |
| `Memtable.BatchesList` | src/memtable/columnar.rs:304-317 | one materialised batch per series, sorted by first key, lists the newest-version map |
| `Memtable.ColumnarMemtable.Freeze` | src/memtable/columnar.rs:327-345 | the log is closed, every batch of it synced, and recovers to the frozen rows; the frozen form holds the same rows |
| `Memtable.ColumnarMemtable.OpenAfterCrash` | src/memtable/columnar.rs:180-187 | a memtable opened on the log cut by a crash holds again everything the old one was opened with, and, if that part had no torn tail and the batches fit the format, exactly the rows of the first k batches, none synced missing |
| `Memtable.FrozenColumnar.Get` | src/memtable/columnar.rs:393-398 | the frozen lookup agrees with the newest-version map |
| `Memtable.FrozenColumnar.MaterializeAll` | src/memtable/columnar.rs:383-389 | the ordered map yields the same listing |
| `Memtable.FrozenColumnar.ToBatches` | src/memtable/columnar.rs:412-418 | the cached batches are the same listing |
| `Durability.MergeOrphans` | src/memtable/memtable.rs:416-452 | the loops over orphan logs and their newest rows leave the memtable with every newest row of both, the last row written being newer than every other of its key |
| `Durability.LosslessIff` | src/memtable/memtable.rs:438-450 | after the merge the orphan logs may go, wherever a crash then cuts the active log, exactly if that log is synced to its end; under `Always` it is |
| `Durability.LosingRun` | src/memtable/memtable.rs:432-450 | under the default `Interval(100)` a merged row is in no durable byte of the active log, and a memtable opened on what a crash leaves is empty |
| `Bloom.BloomFilter.Insert` | src/sstable/bloom.rs:45-54 | sets exactly the key's bits |
| `Bloom.BloomFilter.Contains` | src/sstable/bloom.rs:56-59 | answers yes exactly if each of the key's bits is one of some inserted key, so never no for an inserted key |
| `Bloom.BloomFilter.constructor` | src/sstable/bloom.rs:38-42 | an empty filter of the size asked for, whose bits of a key are the first hash plus multiples of the second, made odd, in 64 bits and reduced to the size |
| `SstFile.CreateFromBatches` | src/sstable/sstable.rs:417-540 | refused exactly if the batches ordered by first key are not strictly increasing; otherwise the file holds exactly the rows of the batches, each once and in key order, with an exact index |
| `SstFile.OrderedInput` | src/sstable/sstable.rs:423-432 | batches already in order are taken as they come |
| `SstFile.BuildOrderMeans` | src/sstable/sstable.rs:423-432 | the builder takes every batch with rows, as often as it is given, whole, and by its first key |
| `SstFile.FinishOk` | src/sstable/sstable.rs:446-493 | the row groups tile the rows and each statistic is exact |
| `SstFile.SSTable.constructor` | src/sstable/sstable.rs:391-415 | bounds, count and highest number describe the rows |
| `SstFile.SSTable.Get` | src/sstable/sstable.rs:677-691 | equals a linear lookup after any history of earlier lookups |
| `SstFile.SSTable.FindInRowGroup` | src/sstable/sstable.rs:584-604 | equals a linear lookup in the group, cached or not |
| `SstFile.CacheStep` | src/sstable/sstable.rs:592-602 | first in, first out, at most eight groups, the order and the map on the same groups |
| `SstFile.SSTable.TsExtent` | src/sstable/sstable.rs:156-160 | the exact smallest and largest timestamp, none exactly if there are no rows |
| `SstFile.BoundsExact` | src/sstable/sstable.rs:141-154 | the bounds of the index are those of the rows |
| `SsTable.PartitionPoint` | src/sstable/sstable.rs:577-582 | the binary search returns the length of the prefix that satisfies the predicate |
| `SsTable.CandidateRowGroup` | src/sstable/sstable.rs:577-582 | a key is in the chosen group or nowhere |
| `SsTable.SearchBatches` | src/sstable/sstable.rs:639-675 | searching batch by batch equals a linear lookup |
| `SsTable.SelectRowGroups` | src/sstable/sstable.rs:693-725 | exactly the groups that end at or after the start, begin at or before the end (the first group wherever it begins) and meet the time bounds; no row of a group left out could pass |
| `SstScan.ScanBatches` | src/sstable/sstable.rs:737-798 | the iterator stands for exactly the rows between both keys and, if given, both times, in key order |
| `SstScan.SSTableBatchIter.Next` | src/sstable/sstable.rs:862-902 | each call hands out the next passing rows; the end comes exactly when none is left |
| `SstScan.SSTableBatchIter.Filtered` | src/sstable/sstable.rs:882-900 | the mask and its shortcuts compute the filter |
| `SstScan.WholeBatch` | src/sstable/sstable.rs:872-877 | a batch whose ends are in the bounds passes as a whole |
| `SstScan.NoneOfBatch` | src/sstable/sstable.rs:878-880 | a batch beside the bounds passes nothing |
| `SstScan.PickPasses` | src/sstable/sstable.rs:753-760 | reading only the selected groups loses no passing row |
| `SstScan.Drain` | src/sstable/sstable.rs:862-902 | draining gives exactly the filtered rows |
| `Query.ExtractTimeRange` | src/query/predicate.rs:33-39 | the range contains exactly the timestamps that every filter admits: each comparison of the time column with a literal, on either side, bounds it, strict ends taken in |
| `Query.ApplyPredicate` | src/query/predicate.rs:41-57 | one filter narrows the range by exactly what it admits, column on either side |
| `Query.ApplyBound` | src/query/predicate.rs:78-92 | one comparison narrows the range by exactly its bound |
| `Query.SwapOp` | src/query/predicate.rs:59-67 | swapping the operands keeps the meaning |
| `Query.TimeRange.ToInclusiveBounds` | src/query/predicate.rs:24-30 | the bounds contain the same timestamps; none exactly when there are none |
| `Query.PushdownPreservesAnswer` | src/memtable/memtable.rs:846-882 | merging pruned and partly projected sources and applying the filters gives the same rows in the same order, with the projection of their own values, as filtering the merge of everything, as far as that has not expired |
| `Query.PrunedNewest` | src/memtable/memtable.rs:846-882 | inside the bounds pruning keeps the newest version of every key |
| `Query.ProjectionCommutes` | src/sstable/sstable.rs:737-798 | merging projected rows gives the merged rows with the projection of their values |
| `Query.ProjectionIsInvisible` | src/query/stream.rs:69-96 | reading any of the rows whole and the others in fewer columns gives, of every key, the same number and values that the final projection does not tell apart |
| `Query.LSMStream.PollNext` | src/query/stream.rs:52-66 | batch by batch exactly the first `limit` live rows, their values projected; only a limit of zero makes an empty batch |
| `Query.LSMStream.Refill` | src/query/stream.rs:119-153 | no row is skipped or repeated, and the remaining limit never goes below zero |
| `Query.StripMembers` | src/query/stream.rs:98-117 | stripping leaves exactly the rows with a value, key and number as they are, the value projected |
| `Query.Deliver` | src/query/stream.rs:52-153 | the drained stream is in key order and holds the first live rows of the merge, as many as the limit says, all of them without one |
| `Query.ClampRange` | src/query/provider.rs:59-63 | the TTL narrows the range by exactly its cutoff |
| `Schema.PrefixedBack` | src/schema.rs:77-88 | length-prefixed cells come back exactly if each is shorter than 2^32 bytes |
| `Schema.PrefixedInjective` | src/schema.rs:90-100 | distinct tuples share an encoding only if one has a cell of 2^32 bytes or more |
| `Schema.LongCellsCollide` | src/schema.rs:77-88 | and with such cells they may: two different tuples with the same encoding |
| `Schema.TableSchema.EncodeTags` | src/schema.rs:90-100 | the tag cells in key order, a single one raw, several each behind its length in four bytes |
| `Schema.TableSchema.DecodeTags` | src/schema.rs:102-113 | their inverse, or a failed slice |
| `Schema.TableSchema.EncodeFields` | src/schema.rs:115-136 | the cells at the places of the field columns, in column order, packed in the same way |
| `Schema.TableSchema.DecodeFields` | src/schema.rs:138-154 | their inverse, or a failed slice |
| `Schema.UnpackPack` | src/schema.rs:90-113 | packing is undone, for any number of columns |
| `Schema.UnpackIff` | src/schema.rs:102-113 | cells are unpacked from exactly those bytes that begin with their encoding |
| `Schema.TableSchema.FieldsBack` | src/schema.rs:115-154 | the cells of the field columns come back exactly if there is one such column or all fit |
| `Schema.TableSchema.KeyToCells` | src/schema.rs:156-164 | tags and timestamp land in their columns, the others stay empty |
| `Schema.TableSchema.CellsToKey` | src/schema.rs:166-170 | the key of a row of cells |
| `Schema.TableSchema.CellsAndBack` | src/schema.rs:156-170 | rebuilding the cells of a key recovers every tag and the timestamp |
| `Schema.TableSchema.SameKeySameTags` | src/schema.rs:90-100 | rows with the same tag bytes have the same tags |
| `EndToEnd.FlushFrozen` | src/memtable/memtable.rs:70-75 | flushing a memtable is never refused; the file answers every lookup as the memtable does and has its highest number |
| `EndToEnd.QueryAnswersFromHistory` | src/memtable/memtable.rs:846-882 | in every state that satisfies the invariant, hence in every reachable one, a query over a pruned and projected snapshot shows a wanted row exactly if the newest row of its key ever made durable has a value, with its number and the projection of that value |
| `EndToEnd.SnapshotShowsHistory` | src/memtable/memtable.rs:846-882 | the materialised sources show the history, from any cutoff on that compaction has not passed |
| `EndToEnd.RunQuery` | src/query/provider.rs:43-74 | range extraction, TTL clamp, bounded snapshot of a region, merge and result stream in sequence: in key order, a wanted row with value `y` is delivered exactly if the newest row of its key in the history has a value `x` and `y` is the projection of `x`; without filters and TTL a limit leaves exactly the first such rows, and with all columns they are the live rows themselves; of expired rows the scan shows exactly what lingers in the memtables |
| `EndToEnd.ListingMaxSeq` | src/sstable/sstable.rs:463 | dropping old versions keeps the highest number |
| `Rows.NewestMapMeaning` | src/memtable/transaction.rs:66-79 | the fold used throughout holds exactly the keys that occur, each with its first newest row |
| `Rows.KeyOrderMeans` | src/types.rs:1 | keys are ordered by their tags, byte by byte with a proper prefix first, and then by time |

## Left out

- Safety.CrashConsistency: takes an append to be durable when it returns, and a log to end with a whole frame when the region comes up. A crash that loses an unsynced suffix is `Losses.LossyCrash`; what an append behind a torn tail is worth is `Wal.AppendsSurviveIff`; merged orphan rows that are not synced are `Durability.LosslessIff`.
- Transactions.NoLostUpdate: of keys that no cutoff used has passed, since a row that a compaction has dropped is one that a conflict check may need (`Witnesses.ExpiryHidesConflict`).
- Separation.CalmRunGet: a single-key write takes its number and inserts its row in one step, and a crash finds the region at rest; after another crash the same row may sit in two sources, and then `Reads.GetIsNewestIff` decides.
- Losses.LossyCrash: what is lost was appended while the region was up; rows merged from orphan logs during the open have to be synced, see `Durability.LosslessIff`.
- Wal.Wal.constructor: what is read at the open counts as durable, though a process crash without a power failure may have left it in the operating system's cache.
- Durability.LosslessIff: speaks of the logs alone, behind an old part without a torn tail and with batches that the format can hold; rows that also sit in an SST do not need the log.
- Ttl.ExpiryIsInvisible: a fixed TTL and a clock that does not go back; a TTL that is raised later cannot bring back what was dropped.
- Reopen.Open: I/O errors and files that fail to parse; a removal that fails is covered.
- RegionCode.Region.Commit: errors of the log other than a conflict.
- RegionCode.Region: memtables and SSTs are values with a number and their rows; that the objects in `Memtable` and `SstFile` deliver these rows is proved there.
- EndToEnd.RunQuery: one scan while no other operation runs; a limit together with filters is only bounded through `Query.LSMStream.PollNext`.
- Bloom.BloomFilter.Insert: the FNV hash is an arbitrary function, and the sizing of the filter in floating point is reduced to the ranges `m >= 1024` and `1 <= k <= 64`.
- Memtable.ColumnarMemtable.constructor: the shard hash is an arbitrary function; the byte estimate is not kept.
- Wal.SurvivesIff: the checksum is an arbitrary function, so nothing is said about damage that keeps it.
- SstFile.SSTable.FindInRowGroup: a row group is read in batches of a fixed, arbitrary size.
- Query.Holds: filters other than comparisons of the time column with a literal are arbitrary predicates.
- Schema.TableSchema.DecodeTags: slicing out of range, where the program panics, is a missing result.
- Logs are numbered; their names are compared as text by the program, which agrees below 1000 logs.
- Threads, locks and channels appear as guards on steps; the worker's error state, panics, shutdown and the automatic triggers of flush and compaction are not modelled.
- Parquet, Arrow, JSON, base64, hex and DataFusion plumbing; the files are their rows and row groups, the index is its fields.
- `iter_all_data`, `len`, `estimated_total_memory`, `close`, `flush_barrier` and the benches would only add easy members.

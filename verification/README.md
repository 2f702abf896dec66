# MlsDisk verification model

A Dafny model of MlsDisk, a log-structured secure disk, with proofs over whole runs. It follows the
repository's layers:

* **LSM index** (`Records`, `MemTable`, `Compaction`, `Levels`, `MajorCompaction`, `Columns`, `LsmTree`,
  `LsmInvariant`, `LsmSizes`, `TxLsmTree`, `RangeQuery`): two memtables and six levels of tables as a step machine of
  put, sync, switch, minor and major compaction, and the class that performs these steps. The main results hold for
  every run from `format` whose tables can be built: only a second sync in a row can panic and no compaction reaches
  the `unreachable!()` arm, a read returns the last value put, the synced part is the last value put before the last
  sync, and each value put is held once or was dropped once. Between
  operations level 0 holds at most four tables, and levels 1 to 4 less than 10, 100, 1000 and 10000 if a memtable
  holds no more values than a table, as in the source.
* **Table and WAL bytes** (`Encoding`, `SsTable`, `SstFooter`, `LsmBytes`, `Wal`): record blocks, index, footer and
  write-ahead log round trip, and which tables of a run the builder can write.
* **Disk** (`AllocTable`, `ReadCache`, `Backing`, `SwornDisk`): write buffer, read cache, index, block bitmap and
  host disk together are one map from block address to block, and the allocated host blocks are exactly those
  held in the index, each once.
* **Edit journal** (`JournalSpec`, `CryptoChain`, `Journal`, `JournalRecovery`): every disk image a crash can leave
  behind is remembered. Recovery from it yields exactly the groups that had reached a chain block, except after a torn
  write to snapshot blob 0 and, in an area of one block, before the snapshot that follows an append. After a flush it
  always yields all committed groups.
* **Merkle tree log** (`MhtShape`, `MhtBuild`, `MhtSearch`, `CryptoLog`): incremental building equals building from
  scratch if and only if a stated condition on the old size holds, and the level search returns the appended blocks.
* **Raw logs and chunks** (`ChunkAlloc`, `RawLogAddress`, `RawLog`, `RawLogStore`): interleaved transactions on the
  chunk allocator, and serial transactions on logs built from chunks.

`Common` holds the ideal AEAD: decryption succeeds only on what was sealed under the same key and carries the same
MAC. `Arithmetic` holds division facts.

## Modelling decisions

* Each compaction is one step. A put waits while the mutable table is full; sync and switch wait for the compaction
  in flight. The step machine allows a major compaction from any level while one is pending, more than the table
  counts of the source would trigger; the class follows the counts.
* Capacities, branching and chunk size are arbitrary: `MHT_NBRANCHES` at least 2, `CHUNK_NBLOCKS` at least 1,
  memtable and table capacities at least 1.
* The first sync of a memtable merges an uninitialised key range into `unsynced_range`. It is a parameter (`junk`) that
  may be anything; a sync that meets an inverted range of a memtable with records panics.
* Steps that build tables succeed. The results on runs (`RunViews`, `RunConserves`) and on the disk therefore speak of
  runs whose tables the builder can write (`LsmBytes.Buildable`). Runs without a sync are such runs
  (`LsmBytes.NoSyncBuilds`); not all others are (`LsmBytes.OverrunRun`).
* Random keys are arbitrary values. Waiting on a condition variable becomes a result (`Waiting`, or `ok == false`).
* A snapshot's MAC is an injective function of blob key, version and plaintext. Chain blocks have fresh MACs.
* Edits and states of the journal are arbitrary types with an arbitrary `apply`; encoded lengths are arbitrary.
* Keys and values of a table are encoded by arbitrary lossless codecs of fixed size, keys by at most 8 bytes more than
  values.

## Where the code falls short of its promise

Each of these is stated with the exact condition under which the code does what it promises.

* A read of several blocks, one of which was never written, leaves unread those written blocks that are in the index
  only (`SwornDisks.SwornDisk.ReadBlocks`, `SwornDisks.UnreadBlock`).
* A torn snapshot write to blob 0 makes recovery re-encrypt blob 1 under blob 0's key. The new MAC is not the one in the
  chain, so the groups since the previous snapshot are lost, flushed ones included (`Journals.KeptAll`,
  `Journals.TornBlobZero`).
* In a journal area of one block, edits overwrite the version record, so a crash before the following snapshot loses
  them (`Journals.EditJournal.ImagesKeep`, `Journals.OneBlockLoss`).
* After a crash between a snapshot and its version record, or one that leaves the ring full, a recovered journal loses
  what it appends next in a second crash (`JournalRecovery.SecondCrash`, `JournalRecovery.LostBehindSnapshot`,
  `JournalRecovery.LostBehindFullRing`).
* `num_complete_children` miscounts for trees higher than 2 whose size is a multiple of the branching but not of a full
  child of the root (`MhtBuild.BuildOnTop`, `MhtBuild.Unextendable`).
* A read inside the append buffer that does not start at its front goes wrong when both queues hold blocks, unless it
  starts in the first queue and goes to the buffer's end (`CryptoLogs.BufferReadRight`, `CryptoLogs.BufferReadWrong`).
* The table builder counts the key of a synced-and-unsynced record twice and can run past the end of a block
  (`SsTables.NoOverrunIff`, `LsmBytes.OverrunRun`).
* A scan that discards unsynced records ends at a block, other than the first, that yields nothing
  (`SsTables.DiscardingScan`, `SsTables.LosingScan`).
* The number of record blocks of a table is stored in 16 bits (`SstFooters.FromLog`, `SstFooters.LongTable`). The disk's
  own tables never get that long (`LsmBytes.RunCountsFit`).
* Two syncs in a row may panic on the uninitialised key range (`LsmInvariant.RunPanicsIff`,
  `LsmInvariant.SecondSyncPanics`).
* Slot 0 of the read cache doubles as the head of the recency ring and is never evicted, so the block cached first keeps
  its slot however long it is not read (`ReadCaches.ReadCache.VictimOldest`, `ReadCaches.ReadCache.Put`).
* `alloc_batch` of the chunk allocator panics when chunks run out instead of returning `None`
  (`ChunkAllocs.ChunkAlloc.AllocBatch`), and a log created in a transaction cannot be opened again before it commits
  (`RawLogStores.RawLogStore.OpenLog`).

## Model

| member | source | states |
|---|---|---|
| `Records.PutValue` | core/src/layers/4-lsm/mem_table.rs:292-310 | the new value is the newest, the synced part is untouched |
| `Records.PutValueConserves` | core/src/layers/4-lsm/mem_table.rs:292-310 | values kept plus value dropped equal values before plus the new one |
| `Records.SyncValue` | core/src/layers/4-lsm/mem_table.rs:313-329 | the newest value becomes the only, synced one |
| `Records.Promote` | core/src/layers/4-lsm/sstable.rs:653-693 | scanning a table older than the last sync yields synced entries; otherwise entries unchanged |
| `Records.PromoteConserves` | core/src/layers/4-lsm/sstable.rs:653-693 | promotion loses exactly the value it reports as dropped |
| `Records.CompactValue` | core/src/layers/4-lsm/compaction.rs:107-128 | the newest value is the newer side's; the synced part is the newer side's if it has one, else the older side's |
| `Records.CompactValueConserves` | core/src/layers/4-lsm/compaction.rs:107-128 | values of both sides equal values kept plus value dropped, per value |
| `MemTables.PutKeepsInv` | core/src/layers/4-lsm/mem_table.rs:177-204 | size counts one per key plus one per synced-and-unsynced pair, and the unsynced range covers every unsynced entry |
| `MemTables.WidensLeast` | core/src/layers/4-lsm/mem_table.rs:195-203 | a put widens the unsynced range to the smallest one that covers the key too |
| `MemTables.SyncKeepsInv` | core/src/layers/4-lsm/mem_table.rs:207-241 | the same after a sync, which never grows the table |
| `MemTables.SyncConserves` | core/src/layers/4-lsm/mem_table.rs:207-241 | no key is lost and the drop callbacks report exactly the values that leave |
| `MemTables.MemTable.Put` | core/src/layers/4-lsm/mem_table.rs:177-204 | new table and dropped value are those of the specification; invariant kept |
| `MemTables.MemTable.SyncEntries` | core/src/layers/4-lsm/mem_table.rs:215-236 | the loop over the unsynced range syncs the whole table, with the right size and drops |
| `MemTables.MemTable.Sync` | core/src/layers/4-lsm/mem_table.rs:207-241 | every entry is synced, whatever range the uninitialised `unsynced_range` starts with, unless `range_mut` panics, and exactly then it fails |
| `MemTables.SecondSync` | core/src/layers/4-lsm/mem_table.rs:207-241 | two syncs without a put in between panic if and only if the uninitialised range is inverted |
| `Compaction.MergePreserves` | core/src/layers/4-lsm/compaction.rs:50-105 | merging two sorted streams gives a sorted stream whose entry for each key is the compaction of the two entries |
| `Compaction.MergeConserves` | core/src/layers/4-lsm/compaction.rs:50-128 | values in equal values out plus values dropped, per key and value |
| `Compaction.ChunksShape` | core/src/layers/4-lsm/compaction.rs:60-103 | output tables are sorted, all but the last exactly at capacity, and hold all records in order |
| `Compaction.NextTable` | core/src/layers/4-lsm/compaction.rs:62-100 | the inner loop emits the next records of the merge, up to the capacity, and terminates |
| `Compaction.CompactRecords` | core/src/layers/4-lsm/compaction.rs:50-105 | the two nested loops over two iterators compute the merge, cut into tables, and its drops |
| `Levels.FoundWithin` | core/src/layers/4-lsm/sstable.rs:130-147 | a key that is in a table is inside the table's range |
| `Levels.ScanLookup` | core/src/layers/4-lsm/sstable.rs:629-693 | a scan shows each key's promoted entry |
| `Levels.ScanDropsCount` | core/src/layers/4-lsm/sstable.rs:629-693 | a scan drops exactly the synced values that promotion replaces |
| `Levels.ScanTable` | core/src/layers/4-lsm/sstable.rs:264-309 | the scan loop yields those records and drops |
| `MajorCompaction.SortOrdered` | core/src/layers/4-lsm/tx_lsm_tree.rs:556-575 | sorting the overlapped tables of a disjoint level by first key puts their ranges in order |
| `MajorCompaction.StreamSorted` | core/src/layers/4-lsm/tx_lsm_tree.rs:556-590 | their concatenated scan is one sorted stream |
| `MajorCompaction.StreamConserves` | core/src/layers/4-lsm/tx_lsm_tree.rs:556-590 | that stream plus its drops holds what the tables hold |
| `MajorCompaction.HandledColumns` | core/src/layers/4-lsm/compaction.rs:107-128 | if each key's own two entries fall in a handled arm, so does every pair the merge meets |
| `MajorCompaction.CompactedPart` | core/src/layers/4-lsm/tx_lsm_tree.rs:556-627 | after a merging compaction each key's entries of the two levels are combined into one |
| `MajorCompaction.CompactionConserves` | core/src/layers/4-lsm/tx_lsm_tree.rs:556-627 | values of both levels equal values kept plus values dropped |
| `MajorCompaction.CompactedDisjoint` | core/src/layers/4-lsm/tx_lsm_tree.rs:556-627 | key ranges of the lower level stay pairwise disjoint although output may reach beyond the upper table |
| `Columns.NeighboursHandled` | core/src/layers/4-lsm/compaction.rs:107-128 | in a sync-ordered column, neighbours always fall in one of the five handled arms |
| `Columns.CombineColumn` | core/src/layers/4-lsm/compaction.rs:107-128 | combining neighbours keeps sync order, the latest view and the synced view |
| `Columns.PutNew` | core/src/layers/4-lsm/tx_lsm_tree.rs:186-211 | a put in front keeps sync order and the synced view |
| `Columns.PutOld` | core/src/layers/4-lsm/mem_table.rs:177-204 | so does a put over an entry of the mutable table |
| `Columns.SyncColumn` | core/src/layers/4-lsm/tx_lsm_tree.rs:398-415 | under a new master sync ID all older entries count as synced |
| `LsmInvariant.PutColumn` | core/src/layers/4-lsm/tx_lsm_tree.rs:186-211 | a put sets the latest view of its key and leaves its durable view |
| `LsmInvariant.SyncColumns` | core/src/layers/4-lsm/tx_lsm_tree.rs:398-415 | after a sync the durable view of every key is its latest view |
| `LsmInvariant.SwitchColumn` | core/src/layers/4-lsm/mem_table.rs:113-133 | switching the memtables changes no key's entries |
| `LsmInvariant.MinorColumn` | core/src/layers/4-lsm/tx_lsm_tree.rs:484-532 | writing the immutable memtable to level 0 changes no key's entries |
| `LsmInvariant.MajorColumn` | core/src/layers/4-lsm/tx_lsm_tree.rs:535-637 | a major compaction, by move or by merge, keeps both views of every key |
| `LsmInvariant.MajorLive` | core/src/layers/4-lsm/tx_lsm_tree.rs:535-637 | and drops exactly the values it no longer holds |
| `LsmInvariant.MajorInv` | core/src/layers/4-lsm/tx_lsm_tree.rs:535-637 | and keeps the whole invariant, disjoint levels included |
| `LsmInvariant.MajorNeverPanics` | core/src/layers/4-lsm/compaction.rs:107-128 | from an invariant state the unreachable arm is not taken |
| `LsmInvariant.StepKeeps` | core/src/layers/4-lsm/tx_lsm_tree.rs:186-637 | each step keeps the invariant; only a sync on an inverted range panics, neither compaction does |
| `LsmInvariant.StepViews` | core/src/layers/4-lsm/tx_lsm_tree.rs:186-637 | the exact effect of each step on the latest and the durable view |
| `LsmInvariant.StepLive` | core/src/layers/4-lsm/tx_lsm_tree.rs:186-637 | per step: values held after plus dropped equal values held before plus put |
| `LsmInvariant.RunKeeps` | core/src/layers/4-lsm/tx_lsm_tree.rs:186-637 | every run from format keeps the invariant |
| `LsmInvariant.RunMaster` | core/src/layers/4-lsm/tx_lsm_tree.rs:398-413 | in every run the master sync ID is the number of syncs, and the mutable memtable carries it |
| `LsmInvariant.RunPanicsIff` | core/src/layers/4-lsm/tx_lsm_tree.rs:398-637 | a run panics exactly at the second of two successive syncs, if the first gave a memtable with records an inverted range; in particular no compaction meets the unreachable arm |
| `LsmInvariant.NoRunPanics` | core/src/layers/4-lsm/tx_lsm_tree.rs:186-637 | no run whose uninitialised ranges are not inverted panics |
| `LsmInvariant.SecondSyncPanics` | core/src/layers/4-lsm/mem_table.rs:207-241 | with room for two values, a put and two syncs panic if and only if the first range is inverted |
| `LsmInvariant.RunViews` | core/src/layers/4-lsm/tx_lsm_tree.rs:375-447 | in every run, reads give the last value put, and the synced part is the last value put before the last sync |
| `LsmInvariant.RunConserves` | core/src/layers/4-lsm/mem_table.rs:177-241 | in every run each value put is held exactly once or was dropped exactly once |
| `TxLsmTrees.SearchLevel` | core/src/layers/4-lsm/tx_lsm_tree.rs:430-446 | newest table first, the level's latest value of the key |
| `TxLsmTrees.SearchLevels` | core/src/layers/4-lsm/tx_lsm_tree.rs:427-447 | the first hit, top level down, is the latest value |
| `TxLsmTrees.UpdateLevel` | core/src/layers/4-lsm/tx_lsm_tree.rs:702-714 | inserting created and removing deleted tables by ID gives the new level |
| `TxLsmTrees.MergeLevels` | core/src/layers/4-lsm/tx_lsm_tree.rs:577-627 | the body of a merging compaction computes the specified level, drops and IDs |
| `TxLsmTrees.TxLsmTree.constructor` | core/src/layers/4-lsm/tx_lsm_tree.rs:245-264 | a formatted tree is empty and in the invariant |
| `TxLsmTrees.TxLsmTree.Get` | core/src/layers/4-lsm/tx_lsm_tree.rs:418-447 | returns the latest view, also while an already compacted immutable table is still searched |
| `TxLsmTrees.TxLsmTree.Put` | core/src/layers/4-lsm/tx_lsm_tree.rs:186-211 | the key reads as the new value, no other key changes, drops are exact; the tables are switched exactly when the mutable one is full |
| `TxLsmTrees.TxLsmTree.SwitchTables` | core/src/layers/4-lsm/mem_table.rs:113-133 | no key's entries change and the mutable table has room |
| `TxLsmTrees.TxLsmTree.SyncAll` | core/src/layers/4-lsm/tx_lsm_tree.rs:398-415 | every key becomes durable at its latest value under the next sync ID, drops are exact; fails exactly when the memtable's sync panics, and then the ID stays |
| `TxLsmTrees.TxLsmTree.Compact` | core/src/layers/4-lsm/tx_lsm_tree.rs:220-241 | changes no view, drops are exact; a major compaction comes first exactly when level 0 holds four tables, and the levels keep their limits |
| `TxLsmTrees.TxLsmTree.MinorCompaction` | core/src/layers/4-lsm/tx_lsm_tree.rs:484-532 | performs the minor step of the step machine, without panic |
| `TxLsmTrees.TxLsmTree.MajorInto` | core/src/layers/4-lsm/tx_lsm_tree.rs:535-637 | changes no view; goes on downwards exactly while the level reached is at its limit, and only the last level reached grows, by at most one table |
| `TxLsmTrees.TxLsmTree.MajorOnce` | core/src/layers/4-lsm/tx_lsm_tree.rs:535-637 | the oldest table leaves its level, tables it does not meet stay, it is moved when it meets none; never panics |
| `LsmSizes.CompactedLength` | core/src/layers/4-lsm/compaction.rs:50-105 | a merging compaction adds at most one table to the lower level |
| `LsmSizes.LevelLimits` | core/src/layers/4-lsm/tx_lsm_tree.rs:870-880 | the limits of levels 1 to 4 |
| `RangeQueries.RangeQueryCtx.MarkCompleted` | core/src/layers/4-lsm/range_query_ctx.rs:72-94 | `min_uncompleted` is always the first open slot |
| `RangeQueries.RangeQueryCtx.Complete` | core/src/layers/4-lsm/range_query_ctx.rs:60-69 | an open slot gets one result, a completed one none |
| `RangeQueries.RangeQueryCtx.OpenRange` | core/src/layers/4-lsm/range_query_ctx.rs:35-44 | the smallest range that covers all open slots |
| `RangeQueries.ServeTable` | core/src/layers/4-lsm/sstable.rs:194-234 | one table completes the open slots it has records for, with the right values |
| `RangeQueries.ServeMem` | core/src/layers/4-lsm/mem_table.rs:165-174 | so does a memtable |
| `RangeQueries.GetRange` | core/src/layers/4-lsm/tx_lsm_tree.rs:387-396 | succeeds exactly when every open key exists, with one result per open slot, equal to a point read |
| `SsTables.ScanBlock` | core/src/layers/4-lsm/sstable.rs:629-700 | reading back a record block yields each record promoted or stripped as the scan asks, and the values dropped meanwhile |
| `SsTables.DiscardKeeps` | core/src/layers/4-lsm/sstable.rs:653-693 | a discarding scan yields the synced value of each key that has one, and nothing else |
| `SsTables.YieldsConserve` | core/src/layers/4-lsm/sstable.rs:653-693 | a scan of either kind drops exactly the values it does not yield |
| `SsTables.RecordLayout` | core/src/layers/4-lsm/sstable.rs:375-405 | the bytes of a record: key, flag, synced value, unsynced value |
| `SsTables.BuildBlocks` | core/src/layers/4-lsm/sstable.rs:346-454 | fails exactly when the builder's count overruns a block, otherwise blocks and index hold all records in order, cut where the count says |
| `SsTables.NoOverrunIff` | core/src/layers/4-lsm/sstable.rs:375-420 | building succeeds if and only if every record with two values starts with room for the largest record and one more key |
| `SsTables.SinglesFit` | core/src/layers/4-lsm/sstable.rs:375-420 | a list without such records can always be built |
| `SsTables.OverrunReachable` | core/src/layers/4-lsm/sstable.rs:375-405 | with 40-byte values an overrun is reachable, since pairs count their key twice |
| `SsTables.ScanAll` | core/src/layers/4-lsm/sstable.rs:705-735 | the table iterator yields what its blocks yield up to a later block that yields nothing; without discarding that is the promoted record list; drops are exact, those of the block where it ends included |
| `SsTables.YieldsScan` | core/src/layers/4-lsm/sstable.rs:653-693 | without discarding, the bytes yield and drop what the scan of the record list does |
| `SsTables.DiscardingScan` | core/src/layers/4-lsm/sstable.rs:705-735 | a discarding scan is complete if and only if, behind the first block, a block of unsynced records is followed by such blocks only |
| `SsTables.ScanConserves` | core/src/layers/4-lsm/sstable.rs:705-735 | what a table iterator reads it yields or drops, values of the block where it ends included |
| `SsTables.LosingScan` | core/src/layers/4-lsm/sstable.rs:705-735 | a table of 40-byte values, built and scanned, that loses every synced value behind its second block |
| `SsTables.GroupsBound` | core/src/layers/4-lsm/sstable.rs:346-454 | how many blocks a list of records takes at most |
| `SsTables.QueryBlock` | core/src/layers/4-lsm/sstable.rs:578-622 | the newest value of the first record with the key, or nothing, decoded from the block's bytes |
| `SsTables.AccessPoint` | core/src/layers/4-lsm/sstable.rs:156-187 | a point query gives the newest value of the key's record, or not-found, for every key |
| `SstFooters.FromLog` | core/src/layers/4-lsm/sstable.rs:457-533 | index and blocks are rebuilt from the log's bytes up to the stored count, so completely if and only if there are less than 2^16 of them |
| `SstFooters.BuiltStorable` | core/src/layers/4-lsm/sstable.rs:457-500 | what the builder makes meets the conditions for reading it back |
| `SstFooters.EntryLayout` | core/src/layers/4-lsm/sstable.rs:470-476 | the bytes of an index entry: position, first key, last key |
| `SstFooters.DiskCountsFit` | core/src/layers/4-lsm/sstable.rs:346-495 | with 40-byte values and the source's table capacity a table has at most 1554 record blocks and 10 index blocks |
| `SstFooters.LongTable` | core/src/layers/4-lsm/sstable.rs:346-454 | lists long enough to reach 2^16 record blocks |
| `SstFooters.Reopen` | core/src/layers/4-lsm/sstable.rs:346-533 | built, written and opened again, a table whose counts fit scans to its records, answers every lookup and keeps its sync ID; only the build can fail |
| `LsmSizes.RunSized` | core/src/layers/4-lsm/compaction.rs:60-103 | in every run no table has more records than the capacities allow |
| `LsmBytes.RunCountsFit` | core/src/layers/4-lsm/sstable.rs:346-533 | so with the disk's constants every table of every run can be opened again |
| `LsmBytes.TwoValuesSynced` | core/src/layers/4-lsm/sstable.rs:375-420 | in every run a record with two values has a key that was put before a sync |
| `LsmBytes.NoSyncBuilds` | core/src/layers/4-lsm/sstable.rs:375-420 | every table of a run without syncs can be built |
| `LsmBytes.OverrunRun` | core/src/layers/4-lsm/sstable.rs:375-420 | for every memtable capacity of at least 2675 a run whose minor compaction overruns a block |
| `Wals.Collect` | core/src/layers/4-lsm/wal.rs:151-211 | parsing any stream of records, sync IDs and other bytes gives exactly the records before the last sync ID, and that ID |
| `Wals.TokenLayout` | core/src/layers/4-lsm/wal.rs:57-81 | the bytes of records and sync IDs |
| `Wals.WalAppendTx.Append` | core/src/layers/4-lsm/wal.rs:57-81 | the record joins the WAL, and the buffer is flushed exactly when it is nearly full; committed bytes do not change |
| `Wals.WalAppendTx.Prepare` | core/src/layers/4-lsm/wal.rs:216-244 | a new transaction starts with the sync ID, without changing what is synced |
| `Wals.WalAppendTx.FlushBuf` | core/src/layers/4-lsm/wal.rs:133-147 | the buffer goes to the log padded with zeros to the next block boundary, which changes nothing |
| `Wals.WalAppendTx.SyncWal` | core/src/layers/4-lsm/wal.rs:113-130 | the committed log is extended by the open transaction, the new sync ID and padding, and holds every appended record under that ID |
| `Wals.WalAppendTx.Seal` | core/src/layers/4-lsm/wal.rs:89-109 | a finished WAL holds the records before its last sync |
| `Wals.WalAppendTx.ReadBack` | core/src/layers/4-lsm/wal.rs:151-211 | at any time, whatever the open transaction did, reading the committed log gives the synced records and the last committed sync ID |
| `Encoding.LeRoundTrip` | core/src/layers/4-lsm/wal.rs:185-192 | little-endian integers decode to what was encoded |
| `Encoding.LeDigit` | core/src/layers/4-lsm/wal.rs:113-118 | lowest byte first |
| `AllocTables.FirstOne` | core/src/util/bitmap.rs:125-133 | first set bit, and none only if the count is zero |
| `AllocTables.FirstOnes` | core/src/util/bitmap.rs:142-157 | the first `count` set bits, and none only if there are fewer |
| `AllocTables.AllocTable.AllocBatch` | core/src/layers/5-disk/block_alloc.rs:83-123 | an admitted batch always succeeds with distinct blocks that were free, chosen next-fit; the free count is exact |
| `AllocTables.AllocTable.FindBatch` | core/src/layers/5-disk/block_alloc.rs:102-123 | the first free blocks from the hint on, or the first of all if there are too few; never fails and never indexes outside the bitmap |
| `AllocTables.AllocTable.Free` | core/src/layers/5-disk/block_alloc.rs:267-276 | frees one allocated block |
| `AllocTables.AllocTable.FreeAll` | core/src/layers/5-disk/block_alloc.rs:356-382 | frees a list of distinct allocated blocks |
| `ReadCaches.MoveToHead` | core/src/layers/5-disk/read_cache.rs:37-65 | unlinking and relinking moves the slot right behind slot 0 and leaves the order of the others |
| `ReadCaches.RecentFirst` | core/src/layers/5-disk/read_cache.rs:37-65 | after any history of visits the slots behind slot 0 are ordered by their last visit |
| `ReadCaches.ReadCache.VictimOldest` | core/src/layers/5-disk/read_cache.rs:45-48 | the victim is the slot not visited for the longest time, slot 0 aside, which is never the victim |
| `ReadCaches.ReadCache.Get` | core/src/layers/5-disk/read_cache.rs:95-115 | the cached block of the key, if any, and its slot is visited |
| `ReadCaches.ReadCache.Put` | core/src/layers/5-disk/read_cache.rs:133-188 | the key is cached and its slot visited; another key loses its block only from a full cache, and only the victim's; slot 0 keeps its key |
| `Backing.DropsFreeable` | core/src/layers/5-disk/sworndisk.rs:716-751 | dropped values own distinct allocated blocks, so each is freed once |
| `Backing.StepBacked` | core/src/layers/5-disk/sworndisk.rs:702-751 | after every tree step and its frees, each held value owns one allocated block, no two share one, and no allocated block is unowned |
| `SwornDisks.TakeBlocks` | core/src/layers/5-disk/sworndisk.rs:479-523 | sealing new blocks disturbs no stored block |
| `SwornDisks.OverlayAt` | core/src/layers/5-disk/sworndisk.rs:436-457 | writing a range replaces exactly the range |
| `SwornDisks.SwornDisk.constructor` | core/src/layers/5-disk/sworndisk.rs:111-172 | a created disk is an empty map |
| `SwornDisks.SwornDisk.RecordBlock` | core/src/layers/5-disk/sworndisk.rs:467-476 | one record put, its drops freed, blocks stay owned exactly once |
| `SwornDisks.SwornDisk.FreeDropped` | core/src/layers/5-disk/sworndisk.rs:716-751 | freeing what one tree operation dropped restores exact ownership of host blocks |
| `SwornDisks.SwornDisk.Compact` | core/src/layers/5-disk/sworndisk.rs:692-751 | background compaction and its frees leave the disk's contents as they are; one table joins level 0 unless one leaves it |
| `SwornDisks.SwornDisk.WriteBlocks` | core/src/layers/5-disk/sworndisk.rs:479-523 | allocates distinct free blocks and seals the data so that it decrypts to what was written |
| `SwornDisks.SwornDisk.RecordAll` | core/src/layers/5-disk/sworndisk.rs:467-476 | after recording, the index names the new block of every flushed address and no other address changes |
| `SwornDisks.SwornDisk.Flush` | core/src/layers/5-disk/sworndisk.rs:467-523 | empties the buffer exactly when enough blocks are free; contents unchanged |
| `SwornDisks.SwornDisk.Write` | core/src/layers/5-disk/sworndisk.rs:436-457 | out-of-range writes change nothing; others overlay the contents with the written blocks; nothing but the buffer and the cache changes while the buffer has room |
| `SwornDisks.SwornDisk.Sync` | core/src/layers/5-disk/sworndisk.rs:526-544 | waits exactly when blocks are missing, panics exactly when the buffer was empty and the last sync left an inverted range; otherwise the tree's durable view becomes everything the disk shows |
| `SwornDisks.SwornDisk.ReadBlock` | core/src/layers/5-disk/sworndisk.rs:311-346 | the last block written at the address, whichever layer has it, or nothing if none was; it is cached afterwards |
| `SwornDisks.SwornDisk.ReadBlocks` | core/src/layers/5-disk/sworndisk.rs:349-432 | succeeds exactly when all blocks were written, with the last block written at each; otherwise fills exactly the cached and buffered ones |
| `SwornDisks.UnreadBlock` | core/src/layers/5-disk/sworndisk.rs:349-432 | a run of two writes and a sync after which a read of three blocks leaves out a written one |
| `SwornDisks.SwornDisk.ReadFromCache` | core/src/layers/5-disk/sworndisk.rs:360-378 | exactly the cached blocks are filled in, with the disk's contents |
| `SwornDisks.SwornDisk.ReadFromBuffer` | core/src/layers/5-disk/sworndisk.rs:380-397 | exactly the buffered blocks among the open ones are filled in, with the disk's contents |
| `SwornDisks.SwornDisk.ReadFromTree` | core/src/layers/5-disk/sworndisk.rs:399-430 | every result of the range query decrypts to the last block written at its address |
| `JournalSpec.ReadsBack` | core/src/layers/1-crypto/crypto_chain.rs:283-325 | recovery from the start of the live chain accepts exactly the live blocks, although the ring behind them holds older valid blocks |
| `JournalSpec.ScanEdits` | core/src/layers/2-edit/journal.rs:150-172 | once the version was seen, replay applies exactly the groups |
| `JournalSpec.ScanStale` | core/src/layers/2-edit/journal.rs:150-172 | before that, no record has any effect |
| `JournalSpec.LatestNamed` | core/src/layers/2-edit/journal.rs:438-452 | the two versions always name the latest snapshot |
| `JournalSpec.LatestFails` | core/src/layers/2-edit/journal.rs:421-453 | no snapshot is chosen exactly when both are unreadable or the versions do not follow each other |
| `JournalSpec.LatestTorn` | core/src/layers/2-edit/journal.rs:415-452 | after a torn write the surviving snapshot is found, but always under blob 0's MAC |
| `JournalSpec.RecoversLive` | core/src/layers/2-edit/journal.rs:134-185 | a chain led by the snapshot's version is replayed on top of the snapshot |
| `JournalSpec.RecoversStale` | core/src/layers/2-edit/journal.rs:134-185 | a ring that does not mention the snapshot adds nothing to it |
| `CryptoChains.CryptoChain.Append` | core/src/layers/1-crypto/crypto_chain.rs:140-171 | the block is linked to the last one and overwrites the slot one lap back |
| `CryptoChains.CryptoChain.Trim` | core/src/layers/1-crypto/crypto_chain.rs:183-195 | gives up blocks at the front only |
| `CryptoChains.CryptoChain.Read` | core/src/layers/1-crypto/crypto_chain.rs:99-133 | a position is readable exactly until a later lap overwrites it |
| `CryptoChains.DifferentSlots` | core/src/layers/0-bio/block_ring.rs:61-77 | positions less than a lap apart use different slots |
| `JournalSpec.LiveIsSeen` | core/src/layers/2-edit/journal.rs:134-185 | a live chain is accepted as a whole and shows its version |
| `JournalSpec.StaleIsUnseen` | core/src/layers/2-edit/journal.rs:134-185 | a snapshot that no block in the ring names stays unseen |
| `Journals.KeptAll` | core/src/layers/2-edit/journal.rs:245-302 | for every image: all groups in chain blocks survive if and only if the area has two blocks or the snapshot covers the chain, and no write to blob 0 was torn |
| `Journals.EditsCrash` | core/src/layers/2-edit/journal.rs:245-256 | behind a block of edits recovery yields all groups, or the snapshot's in an area of one block |
| `Journals.TornCrash` | core/src/layers/2-edit/journal.rs:391-473 | a torn write to blob 1 loses nothing given two blocks; a torn write to blob 0 returns to the previous snapshot |
| `Journals.VersionCrash` | core/src/layers/2-edit/journal.rs:287-291 | behind a version record recovery yields all groups |
| `Journals.TornBlobZero` | core/src/layers/2-edit/journal.rs:276-302 | a run that meets the losing image: two flushed groups, of which one survives |
| `Journals.FreshCrash` | core/src/layers/2-edit/journal.rs:276-302 | after the snapshot write and before its version record, recovery yields the snapshot |
| `Journals.SnapshotManager.Persist` | core/src/layers/2-edit/journal.rs:462-473 | the older blob is overwritten and named latest |
| `Journals.ApplyGroup` | core/src/layers/2-edit/edit.rs:53-59 | applies the edits of a group from the first to the last |
| `JournalSpec.ApplyConcat` | core/src/layers/2-edit/edit.rs:53-59 | applying two groups is applying their concatenation |
| `JournalSpec.AppliesInOrder` | core/src/layers/2-edit/edit.rs:53-59 | the edits are applied front to back |
| `JournalSpec.ReplaysInOrder` | core/src/layers/2-edit/journal.rs:150-172 | replaying groups applies all their edits in order of commitment |
| `Journals.CommitEdits` | core/src/layers/2-edit/journal.rs:203-243 | edits added one by one and committed reach the state in that order |
| `Journals.EditJournal.constructor` | core/src/layers/2-edit/journal.rs:92-128 | for any number of journal blocks, a formatted journal whose disk image recovers to the initial state |
| `Journals.EditJournal.Commit` | core/src/layers/2-edit/journal.rs:209-243 | the group is committed as a whole, or panics if it cannot fit a block; each disk image written meanwhile recovers to all groups in chain blocks, or to those of the snapshot in the cases `KeptAll` excludes |
| `Journals.EditJournal.Flush` | core/src/layers/2-edit/journal.rs:266-269 | for any number of journal blocks, recovery from the disk returns exactly the replay of all committed groups |
| `Journals.EditJournal.AppendBuf` | core/src/layers/2-edit/journal.rs:245-263 | which images one append and the compaction it may trigger leave, in order; used blocks equal the chain length |
| `Journals.EditJournal.AppendEdits` | core/src/layers/2-edit/journal.rs:245-256 | with two blocks or more no live slot is overwritten; the image recovers as `EditsCrash` says |
| `Journals.EditJournal.PersistSnapshot` | core/src/layers/2-edit/journal.rs:276-285 | both the torn and the finished image recover as stated by `TornCrash` and `FreshCrash` |
| `Journals.EditJournal.AppendVersion` | core/src/layers/2-edit/journal.rs:287-291 | the image recovers to all committed groups |
| `Journals.EditJournal.Compact` | core/src/layers/2-edit/journal.rs:276-302 | leaves a chain of one block, at the latest snapshot's `recover_from` |
| `Journals.EditJournal.SettledRecovers` | core/src/layers/2-edit/journal.rs:134-185 | with an empty buffer the disk alone determines the state |
| `Journals.OneBlockLoss` | core/src/layers/2-edit/journal.rs:245-302 | a run in an area of one block that loses a flushed group |
| `Journals.EditJournal.ImagesKeep` | core/src/layers/2-edit/journal.rs:245-302 | in every run with two blocks or more each image but a torn blob 0 keeps every group in a chain block; with one block no image behind edits does |
| `JournalRecovery.Recover` | core/src/layers/2-edit/journal.rs:134-185 | the recovery loop terminates and computes the specified state, range and MACs; it fails exactly when no snapshot can be chosen |
| `JournalRecovery.AtMostOneLap` | core/src/layers/1-crypto/crypto_chain.rs:283-325 | recovery never goes round the ring twice |
| `JournalRecovery.NextAppends` | core/src/layers/2-edit/journal.rs:134-185 | any number of blocks a recovered journal appends survive the next crash if and only if recovery saw the version record and the ring has room for them |
| `JournalRecovery.SecondCrash` | core/src/layers/2-edit/journal.rs:134-302 | the same for every image of a run: exactly which groups a second crash leaves |
| `JournalRecovery.LostBehindSnapshot` | core/src/layers/2-edit/journal.rs:276-302 | after a crash between a snapshot and its version record, everything appended next is lost |
| `JournalRecovery.LostBehindFullRing` | core/src/layers/2-edit/journal.rs:774-779 | after a crash with a full ring, one append loses every group since the snapshot |
| `JournalRecovery.RepairKeepsLatest` | core/src/layers/1-crypto/crypto_blob.rs:224-263 | repairing a torn blob does not change which snapshot is chosen next time |
| `MhtShape.BuildNodes` | core/src/layers/1-crypto/crypto_log.rs:703-771 | the chunking loop builds complete nodes and a last node with the remaining count |
| `MhtShape.GroupedLevel` | core/src/layers/1-crypto/crypto_log.rs:703-771 | chunking one level of the tree from a node boundary gives the next level from that node on |
| `MhtShape.NodeEntries` | core/src/layers/1-crypto/crypto_log.rs:703-771 | a node's entries are its stretch of the level below |
| `MhtShape.LastBelow` | core/src/layers/1-crypto/crypto_log.rs:743-756 | the last node of a level covers what is left over |
| `MhtShape.InnerBelow` | core/src/layers/1-crypto/crypto_log.rs:721-735 | every other node is complete |
| `MhtBuild.TargetHeightLeast` | core/src/layers/1-crypto/crypto_log.rs:675-682 | the root height is the least h >= 1 with room for all data |
| `MhtBuild.CollectIncomplete` | core/src/layers/1-crypto/crypto_log.rs:797-827 | the walk collects exactly the incomplete nodes on the last spine |
| `MhtBuild.BuildTree` | core/src/layers/1-crypto/crypto_log.rs:621-673 | collecting, taking over and building level by level computes `Build` |
| `MhtBuild.NodeLeaves` | core/src/layers/1-crypto/crypto_log.rs:703-771 | headers count the data nodes below |
| `MhtBuild.BuildAnew` | core/src/layers/1-crypto/crypto_log.rs:621-673 | a first build gives the tree over the data |
| `MhtBuild.BuildOnTop` | core/src/layers/1-crypto/crypto_log.rs:593-673 | building on a previous root gives the tree over all data if and only if the previous tree is extendable |
| `MhtBuild.SmallExtendable` | core/src/layers/1-crypto/crypto_log.rs:593-599 | trees of height 1 and 2 are extendable |
| `MhtBuild.Unextendable` | core/src/layers/1-crypto/crypto_log.rs:593-599 | a full tree of height 2 plus one leaf node is not |
| `MhtBuild.BuildNothing` | core/src/layers/1-crypto/crypto_log.rs:425-430 | a flush without new data rebuilds the same tree or fails, and when |
| `MhtSearch.SearchFinds` | core/src/layers/1-crypto/crypto_log.rs:355-414 | the level search finds exactly the wanted data and never reads padding |
| `MhtSearch.SearchRoot` | core/src/layers/1-crypto/crypto_log.rs:336-414 | from the root, any stretch of the data |
| `CryptoLogs.SearchBuffer` | core/src/layers/1-crypto/crypto_log.rs:904-951 | copies what `BufferRead` describes: after the disk queue it restarts at the front of the memory queue with an end counted down by the blocks read |
| `CryptoLogs.BufferReadRight` | core/src/layers/1-crypto/crypto_log.rs:904-951 | a buffer read is right under the stated condition |
| `CryptoLogs.BufferReadWrong` | core/src/layers/1-crypto/crypto_log.rs:922-946 | and wrong for distinct blocks whenever the condition fails |
| `CryptoLogs.BufferReadExact` | core/src/layers/1-crypto/crypto_log.rs:904-951 | which blocks come back in every case |
| `CryptoLogs.CryptoLog.Append` | core/src/layers/1-crypto/crypto_log.rs:416-423 | blocks are appended; the memory queue moves to the disk queue exactly when full, and the buffer is built into the tree exactly when that one is; an accepted append leaves room |
| `CryptoLogs.CryptoLog.Flush` | core/src/layers/1-crypto/crypto_log.rs:425-444 | the root covers everything if and only if there was nothing to build on, nothing new, or an extendable tree |
| `CryptoLogs.CryptoLog.Read` | core/src/layers/1-crypto/crypto_log.rs:336-352 | tree reads and reads crossing into the buffer return the appended blocks; a buffer read returns what `BufferRead` says |
| `ChunkAllocs.FirstZero` | core/src/util/bitmap.rs:177-185 | the first clear bit from a position on |
| `ChunkAllocs.ChunkAlloc.TakeBit` | core/src/layers/3-log/chunk.rs:270-291 | takes the next free chunk from the cursor on, else the first; fails exactly when none is free |
| `ChunkAllocs.ChunkAlloc.ClearBit` | core/src/layers/3-log/chunk.rs:298-302 | frees an allocated chunk and counts it |
| `ChunkAllocs.ChunkAlloc.AllocChunk` | core/src/layers/3-log/chunk.rs:122-134 | a free chunk becomes the transaction's; the double-edit assertion holds |
| `ChunkAllocs.ChunkAlloc.AllocBatch` | core/src/layers/3-log/chunk.rs:138-163 | distinct free chunks in ascending order, exactly when enough are free |
| `ChunkAllocs.ChunkAlloc.DeallocChunk` | core/src/layers/3-log/chunk.rs:170-181 | own allocations are free at once, committed chunks stay taken until commit |
| `ChunkAllocs.ChunkAlloc.Commit` | core/src/layers/3-log/chunk.rs:86-99 | pending frees take effect, allocations become permanent, nothing else changes |
| `ChunkAllocs.ChunkAlloc.AbortTx` | core/src/layers/3-log/chunk.rs:102-111 | exactly the transaction's live allocations are released |
| `RawLogAddress.FittingSpace` | core/src/layers/3-log/raw_log.rs:1078-1086 | less than one chunk of free space is left |
| `RawLogAddress.AddressesAgree` | core/src/layers/3-log/raw_log.rs:740-774 | the tail's address of a block is the head's address after commit |
| `RawLogAddress.HeadAddrStable` | core/src/layers/3-log/raw_log.rs:892-897 | committing more chunks moves no block |
| `RawLogAddress.AddrInjective` | core/src/layers/3-log/raw_log.rs:630-642 | different blocks of a log are in different places |
| `RawLogAddress.AddrOf` | core/src/layers/3-log/raw_log.rs:630-642 | where block o of the c-th chunk is |
| `RawLogAddress.AddrDisjoint` | core/src/layers/3-log/raw_log.rs:630-642 | logs without a common chunk share no address |
| `RawLogAddress.NeededFits` | core/src/layers/3-log/raw_log.rs:726-737 | exactly as many chunks are requested as the longer log needs |
| `RawLogs.PrepareHead` | core/src/layers/3-log/raw_log.rs:630-642 | the k-th address is that of the k-th wanted block, chunk by chunk |
| `RawLogs.PrepareTail` | core/src/layers/3-log/raw_log.rs:740-774 | the same for the tail, first in the head's last chunk, then in its own chunks |
| `RawLogs.WriteBatch` | core/src/layers/3-log/raw_log.rs:705-722 | grouped writes equal block-by-block writes |
| `RawLogs.ReadBatch` | core/src/layers/3-log/raw_log.rs:607-626 | grouped reads equal block-by-block reads |
| `RawLogStores.RawLogStore.CreateLog` | core/src/layers/3-log/raw_log.rs:236-257 | a new, empty log |
| `RawLogStores.RawLogStore.OpenLog` | core/src/layers/3-log/raw_log.rs:267-311 | refuses logs not yet committed and second writers, and nothing else; contents unchanged |
| `RawLogStores.RawLogStore.CloseLog` | core/src/layers/3-log/raw_log.rs:469-478 | the log takes a writer again |
| `RawLogStores.RawLogStore.Append` | core/src/layers/3-log/raw_log.rs:547-582 | the log is extended by the blocks and no other log changes; no chunk is in two logs; it fails exactly when it needs more chunks than are free |
| `RawLogStores.RawLogStore.Read` | core/src/layers/3-log/raw_log.rs:498-540 | block i is the i-th block ever appended, across transactions; short reads are refused |
| `RawLogStores.RawLogStore.CommitTx` | core/src/layers/3-log/raw_log.rs:135-152 | tails become heads in place, contents unchanged; the transaction's chunks become permanent |
| `RawLogStores.RawLogStore.AbortTx` | core/src/layers/3-log/raw_log.rs:52-66 | every log is as at the last commit, and the transaction's chunks are free |

## Left out

- SwornDisks.SwornDisk.Write: one buffer at a time; `writev` is the same loop over several buffers, and grouping of host
  requests is not modelled on this layer.
- SwornDisks.SwornDisk.Sync: durability is stated for the index; host-disk flushes and the persisted block bitmap with
  its diff log are not modelled.
- TxLsmTrees.TxLsmTree.MajorInto: the check that follows a compaction into the last level asserts that the level is not
  the last one and is not modelled; log IDs taken by WALs are not counted, since IDs matter by their order only.
- SsTables.BuildBlocks: an overrun is a failure, as in a build with overflow checks; without them the count wraps, the
  block goes on filling and is cut to its size. The cache of record blocks is not modelled; keys more than 8 bytes
  longer than values, which the reader could not parse, are excluded.
- SstFooters.FromLog: requires that the index takes less than 2^16 blocks; the disk's tables take at most 10.
- Journals.EditJournal.Flush: every block write is durable at once and in order; reordering of writes between flushes is
  not modelled. A torn write is modelled for snapshots, which take several blocks.
- JournalRecovery.SecondCrash: follows a recovered journal until its next compaction, which comes after as many appends
  as the ring has slots, since the recovered policy counts from zero.
- CryptoLogs.CryptoLog.Read: the node cache and re-opening from a root are not modelled; both hand back the same nodes.
- RawLogStores.RawLogStore.Append: transactions are serial, since a log's write set is released when its handle is
  dropped; log deletion and its lazy freeing are not modelled, because the freed chunk list is taken at creation.
- LSM recovery and migration: recovered records re-enter as unsynced, so no clean theorem holds.
- The in-journal replay of the chunk allocator: it ignores the recorded chunk ID.
- The transactional log store above raw logs: it forwards to the raw logs and the journal modelled here.
- I/O request plumbing, locks and threads: each operation is one atomic step.
- Encodings by external crates and the AES-GCM implementation: idealised.

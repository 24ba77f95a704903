# Verification of the storage engine, plugin loader, configuration and identify limiter

This project models four parts of the repository in Dafny and proves what they are for.

**The storage engine (NovaDB).** A collection keeps multi-version documents in a sorted memtable, a queue of
immutable memtables, and leveled SSTables on disk. The model follows a document the whole way: the binary
search and version trimming of the memtable, the snapshot registry, the bytes of records, blocks, sparse index,
Bloom filter and footer, the heap and the k-way merges of compaction and scan, the choice of inputs and the
cascade of the leveled compaction, and the newest-first lookup with its search for old versions. The main theorems
say when the collection is a map: through any run of writes, rotations, flushes and compactions that are sound the
newest records are those of a plain map, and `CollectionIsAMap` gives the exact condition under which `get` returns
them; `GuardedCollectionIsAMap` and `PlainCollectionIsAMap` give runs in which it always does.
Beside it stand snapshot stability over all runs, the agreement of `scan` with `get`, the refinement of the
linked-list block cache to a recency sequence, the table-driven checksum against its bit-by-bit definition, and
three stream protocols that may be cut at any byte: the write-ahead log, the replica frames, and the MANIFEST; and
what a changed byte does to a log (`RecoverDamagedLog`) and to a table (`DamageIsReported`).

**The plugin loader.** The dependency sort goes on after failures and leaves stale entries behind; it is proved to
list exactly the plugins that can load. Boot and shutdown are followed over a whole life of the system.

**Configuration.** The merge that preserves what a user wrote, its report, the diff into single-key additions,
their textual insertion into a JSON5 file, and the in-place update of live objects in the heap. The insertion is
followed in the text: an object that is written there is written there afterwards with one more property
(`InsertedIsWritten`), and a run of insertions makes of the text of one tree the text of another (`PatchIsWritten`).

**The identify limiter.** A queue of turns with a spacing per bucket, and the rate bound over all its runs.

## How it is laid out

One file for each component, with the lemmas beside the methods they serve:

- `keys`, `memtable`, `snapshots`: keys, versions, the memtable, the registry, runs of one collection in memory
- `bytes`, `sstable_format`, `bloom`, `sstable`, `sstable_reader`, `version_reader`, `sstable_iterator`: files and
  their readers
- `merge_heap`, `merge`, `compaction`: the heap, the merge and the writing of its outputs
- `levels`, `leveled`: what a compaction does to the newest plain records; `answers`, `get_meaning`: what it does to
  `get`, old versions included; `leveled_store`, `scan`, `engine`: the levels as an object, range scans, the whole store
- `lru_cache`, `crc32c`, `framing`, `tcp_replication`, `wal`, `replica`, `manifest`: cache, checksum, streams and logs
- `plugin_sort`, `plugin_boot`: the loader
- `json`, `merge_preserve`, `merge_report`, `additions`, `deep_mutate`: configuration as trees and as live objects
- `key_lookup`, `surgical_write`: its text; `printed_text`, `inserted_text`, `grafted_text`, `read_text`,
  `patched_text`: what an insertion writes, what lookup then finds, and what the text then stands for
- `identify_queue`: the limiter

Code that changes things step by step is modelled by classes and methods, each proved equal to a function of
the old state; what the source promises is then proved about those functions over all inputs and runs. Library
calls are parameters: UTF-8, deflate, the packer, hashing, JSON5, clocks, and what individual plugins do. What is
asked of them is asked only of the data at hand, and only where the code relies on it: that a record's key and
document survive their encoding (`Invertible`, `Storable`, `Loggable`), that the keys a primary writes do
(`Inverse`), and that the configuration to be written means the same when printed and read back (`Faithful`). In
the modules on tables, the log and the frames the checksum is a parameter too; `crc32c` treats the function itself,
and `CrcDetectsOneByte` shows that it tells one-byte changes apart, which is all that the laws on damage ask. Of the
JSON5 library the laws on inserted text ask that the texts it prints are values as a lookup reads them (`Prints`),
and `PatchSucceeds` that it reads texts made of quoted keys, values and commas for what they say (`ReadsNeatTexts`).

## Where the code falls short of its promise

The model follows the code. Where a promise fails, there is a member with a concrete case, and one with the exact
condition under which the promise holds.

- A commit publishes its transaction id before its writes reach the memtable. A snapshot opened in between
  changes under its reader (`TornSnapshot`). `SnapshotStableIff` and `OpenSettlesIff` say exactly when one does not.
- Open snapshots are a set of ids. Two readers at one id share an entry, and closing either ends the protection of
  both (`SharedHandle`). Stability is therefore said of ids that stay registered, and `CloseIsHarmlessIff` says
  exactly when closing one changes nothing for another reader.
- With snapshots open a flush writes the newest version of a document and those not older than the oldest snapshot,
  so the one that snapshot reads in memory may be lost (`DroppedVersion`, `VersionFlushedIff`).
- The search for an old version in a table reads one block, the one before the block the version would be in, and
  can return an older one than the newest the reader may see (`NewerVersionMissed`); `NewestFoundIff` says exactly when
  it does not.
- `byteSize` loses trimmed bytes twice (`TrimmedTwice`). It equals the live bytes minus everything ever trimmed
  (the memtable's `Valid`); `Set` says, of the state before a write, exactly when the two stay equal.
- A compaction can change what `get` returns. Below level 0 its outputs get ids above those of newer tables on
  upper levels, and `get` goes by id (`MovedRecordHidesNewer`); the bottommost check covers the range of the
  chosen tables, not of those they overlap below, whose tombstones can be dropped too early
  (`DroppedTombstoneRevives`); and the check can be misled by untrue bounds (`UntrueBoundRevives`).
  In all three the newest plain record changes; `CompactionPreservesPlainIff` is the exact condition for that.
- `get` asks a table that lacks a document's plain record for an old version before it tries the next table. A
  compaction can cut versions and records into different tables, and a table of versions that moves down later gets
  an id above that of a newer record. `get` at the latest point then returns the old document (`VersionMovesAbove`).
  `GotIff` says exactly when `get` reads the newest record, `GetMeaning.CompactionPreservesGetIff` exactly when a
  compaction leaves `get` alone, and `ScanAgrees` exactly when `get` and `scan` agree.
- A flush takes its table id when it begins; a compaction that takes a greater one meanwhile puts an old document in
  front of the flushed one (`OvertakenFlush`). `FlushReadsIff` says exactly when a flush is sound.
- After a reload or a compaction a table's recorded maximum is the last key of its sparse index, which can be too
  small (`OutputBoundedIff` says exactly when). A scan then skips the table (`SkippedTable`, `ScanAgreesIff`).
- A replicated record whose position has been forgotten is applied again (`ForgottenRepeat`); `RepeatIsHarmlessIff`
  says exactly when that changes nothing.
- The fold of the MANIFEST takes the log position from flush entries only, so the checkpoint a boot writes no longer
  carries it (`LostPosition`, `FoldLsnIff`). A boot over a torn manifest without a readable entry leaves a file the
  next append runs into, and gives the next table the id of one that is there (`TornManifest`); `Boot` states exactly
  when file and levels agree, and when the next id is free.
- The checksum of a log record covers its key and document but not its position, so a changed position is taken over
  (`PositionChangeUnseen`).
- The insertion of a property looks at the last character before the brace to see whether a comma stands there, and
  takes the end of a note for it: behind a note it can put a second comma (`NoteMisleads`). `ListStaysIff` says exactly
  when the commas come out right.
- The live configuration keeps a stale key when its name is one every object inherits (`LeftoverStays`,
  `MutatedIff`).

## Model

| member | source | states |
|---|---|---|
| `Keys.TotalOrder` | src/database/index.ts:296-298 | the key comparison the binary search, the sorts and the merges rely on is a strict total order |
| `Versions.TrimInvisible` | src/database/index.ts:319-332 | trimming for the oldest open snapshot is invisible to every reader at that snapshot or any later one |
| `Versions.TrimmedCut` | src/database/index.ts:319-332 | and it drops everything that it may: what stays ends with the first version the oldest snapshot sees |
| `Memtable.SortedMemtable.Bisect` | src/database/index.ts:292-301 | binary search finds the key exactly when the table has it, and otherwise the one place where it keeps the entries sorted |
| `Memtable.SortedMemtable.Set` | src/database/index.ts:303-317 | a write changes the version list of its key and of no other; `byteSize` grows by value and new key minus twice the bytes trimmed; so it stays the number of live bytes exactly when it was that and the write trims no byte off the versions the key has |
| `Memtable.SortedMemtable.TrimVersions` | src/database/index.ts:319-332 | drops exactly the versions behind the first one the oldest snapshot sees, keeps `totalBytes` the sum over the versions, and already subtracts what it dropped from `byteSize` |
| `Memtable.SortedMemtable.Get` | src/database/index.ts:334-342 | answers the newest version not newer than the snapshot, or nothing |
| `Memtable.SetThenRead` | src/database/index.ts:303-342 | what a later read sees of a write: other keys never, its own key the new value from its transaction on, and before it whatever was there, if that snapshot is still protected |
| `Memtable.TrimmedTwice` | src/database/index.ts:303-332 | a memtable whose `byteSize` is below its live bytes by exactly the value trimmed: a key written twice, where the condition of `Set` fails |
| `Registry.SnapshotRegistry.OldestOpen` | src/database/index.ts:271-286 | the least open snapshot, or the largest 64-bit number when none is open |
| `SnapshotRuns.StepKeepsReads` | src/database/index.ts:1025-1059 | any single step of a collection leaves every read at a settled open snapshot as it was |
| `SnapshotRuns.SnapshotStable` | src/database/index.ts:303-340 | snapshot stability: over every run of writes, commits, trims, rotations and other snapshots coming and going, no read at a settled id that stays in the registry ever changes |
| `SnapshotRuns.SnapshotStableIff` | src/database/index.ts:303-340 | exactly when an open snapshot is stable over all runs that keep its id registered, settled or not: no batch it would see is pending, or the batch already reads the same there |
| `SnapshotRuns.OpenSettlesIff` | src/database/index.ts:1025-1059 | a snapshot just opened is stable over all such runs exactly when no commit is between publishing its id and writing the memtable, or that commit writes what is read already |
| `SnapshotRuns.ApplyKeepsReadsIff` | src/database/index.ts:1025-1034 | the exact condition under which the second half of a commit leaves an open snapshot alone |
| `SnapshotRuns.TornSnapshot` | src/database/index.ts:1025-1034 | a run in which a snapshot does change: it is opened between the two halves of a commit |
| `SnapshotRuns.SharedHandle` | src/database/index.ts:271-286 | two readers who open at one id share one entry of the set: a run in which one closes it and the other loses its reads |
| `SnapshotRuns.CloseIsHarmlessIff` | src/database/index.ts:271-286 | exactly when closing a shared entry is harmless: no run that follows changes any read of another reader at that id if and only if the immutable queue already shows whatever the memtable shows at it |
| `SnapshotRuns.RunsKeepInv` | src/database/index.ts:781-806 | ids, open snapshots and the pending commit stay consistent in every reachable state |
| `Collection.NovaCollection.Upsert` | src/database/index.ts:1331-1364 | the object takes exactly the step of the run model that a write is |
| `Collection.NovaCollection.Publish` | src/database/index.ts:993-1025 | the first half of a commit only claims the transaction id |
| `Collection.NovaCollection.Apply` | src/database/index.ts:1029-1044 | the second half puts all writes of the transaction in the memtable under its id |
| `Collection.NovaCollection.Rotate` | src/database/index.ts:1376-1379 | the memtable moves to the end of the immutable queue, with nothing read differently |
| `Collection.NovaCollection.Get` | src/database/index.ts:1741-1755 | reads the memtable and then the queue from its newest end |
| `Heap.MergeHeap.Push` | src/database/index.ts:508-530 | adds one cursor to the multiset and restores the heap order |
| `Heap.MergeHeap.Pop` | src/database/index.ts:513-541 | removes one cursor that is least by key and then by priority, and nothing else |
| `Merge.PopIsNewest` | src/database/index.ts:1658-1672 | a key not seen before comes off the heap with the value of its newest source |
| `Merge.NothingBetween` | src/database/index.ts:1658-1672 | no key is skipped between two pops |
| `Merge.MergeStep` | src/database/index.ts:1658-1675 | one turn of the merge loop extends the merge so far by exactly one new key, if its consumer keeps it |
| `Merge.MergeComplete` | src/database/index.ts:1658-1735 | when the heap is empty the output is the whole merge: ascending, and for every key its newest version if kept |
| `MergeLoop.NextWinner` | src/database/index.ts:1658-1666 | popping the winner and pushing it back advanced keeps the merge invariant and consumes one item |
| `Bytes.ReadWritten` | src/database/index.ts:1482-1508 | a number that fits its field reads back from its big-endian bytes |
| `VersionedKeys.VersionedKeyRoundTrip` | src/database/index.ts:389-405 | a versioned key is recognised as one and decodes to the document id and transaction id it was made from |
| `Layout.MarksMatch` | src/database/index.ts:1477-1480 | every sparse-index entry names a record that starts there, in order, and the first record is always indexed |
| `RecordFormat.RecordFields` | src/database/index.ts:1471-1491 | a reader finds key, document and checksum of a record field by field where it was written |
| `Bloom.BloomFilter.Add` | src/database/index.ts:130-132 | sets the probe bits of the item and no other bit |
| `Bloom.BloomFilter.Check` | src/database/index.ts:134-138 | passes exactly the items all of whose probe bits are set |
| `SSTables.OutputCtx.Append` | src/database/index.ts:1676-1711 | appends one record, enters its document in the filter, and fails exactly when a length does not fit its field |
| `SSTables.OutputCtx.Finalize` | src/database/index.ts:1622-1652 | the finished file and its metadata, whose bounds come from the sparse index |
| `SSTables.WriteSSTableFile` | src/database/index.ts:1440-1522 | the file written from a map holds the map as one ascending run, its filter covers every document, and its recorded bounds are the true first and last key; it fails exactly when a field overflows |
| `SSTables.FileHasImage` | src/database/index.ts:1494-1509 | data, index, filter and footer fields can be taken apart again |
| `SSTableReader.ReadSSTableMetadata` | src/database/index.ts:1292-1329 | reload rebuilds the index and the filter the writer had; the bounds become the ones of the sparse index |
| `SSTableReader.SparseIndexLookup` | src/database/index.ts:261-269 | binary search for the last index entry at or before the key |
| `Blocks.BlockHoldsKey` | src/database/index.ts:261-269 | only the block the index search leads to can hold the key |
| `SSTableReader.ScanBlock` | src/database/index.ts:1878-1900 | the scan of one block that stops at the first larger key answers as the block's records do, and reports a record that fails its checksum |
| `SSTableReader.ReadRecordFromDisk` | src/database/index.ts:1854-1902 | index search, block read and block scan together answer as the run of the file, but that a damaged record is reported, whatever stands in the file in place of its document |
| `SSTableReader.Lookup` | src/database/index.ts:1757-1766 | write and read round trip: filter and record search return the stored value of every key of the map, and absent for every other key |
| `RecordFormat.ChangedDocIsTold` | src/database/index.ts:1874-1893 | with a checksum that tells one-byte changes apart, a changed byte of a stored document is noticed, while key and lengths still read |
| `DamagedFiles.DamageIsReported` | src/database/index.ts:1854-1902 | change one byte of an uncompressed document in a file: it still reads as a file of its records, a read of that key reports the damage, and every other key reads as it did |
| `VersionReader.ReadVersionedFromDisk` | src/database/index.ts:1778-1847 | the search for an old version reads one block and gives the newest version of the document in it that the snapshot may see |
| `StoredVersions.FoundIsStored` | src/database/index.ts:1820-1844 | what is found is a version of the document that the table holds and the snapshot may see |
| `VersionReader.BestIsIntact` | src/database/index.ts:1820-1844 | and what a damaged record holds is never the answer |
| `VersionSearch.NewestFoundIff` | src/database/index.ts:1778-1847 | the newest such version of the table is found exactly when it lies in the block searched and no plain key at or behind the document's comes before it there |
| `VersionSearch.NewestFoundInBlock` | src/database/index.ts:1778-1847 | for document keys that sort behind all versions, exactly when it lies in that block |
| `VersionSearch.NewerVersionMissed` | src/database/index.ts:1783-1794 | a table of two blocks where a reader gets an older version than the newest it may see: the block before the right one is searched |
| `VersionReader.AnswerOfTable` | src/database/index.ts:1757-1771 | one table's whole answer to `get`: its plain record if the snapshot sees it, or else the old version found; the filter turns away only documents it has neither of |
| `Ranges.InRangeMeaning` | src/database/index.ts:461-501 | what a range reader yields is the run restricted to the range, in order |
| `SSTableIterators.SSTableIterator.Open` | src/database/index.ts:450-459 | opening at the indexed block misses nothing of the range on a whole file; on a damaged one, what is yielded is a first part of it |
| `SSTableIterators.SSTableIterator.Advance` | src/database/index.ts:461-501 | yields the next item of the range, or ends; it ends at a record that fails its checksum |
| `Compaction.CompactionOutput.Write` | src/database/index.ts:1676-1729 | one more record is written, and the table is closed once it has reached the target size |
| `Compaction.CompactSSTablesStreaming` | src/database/index.ts:1611-1739 | for any inputs and any target size, the outputs end to end are one strictly ascending run holding of each key's newest version what the policy keeps; each table but the last is just full; each has a file of its records behind a filter that passes them all; it fails only where some records of the inputs would overflow a field |
| `Compaction.OutputIsStored` | src/database/index.ts:1636-1652 | the file of an output is an SSTable of its run, so that the readers above read it back |
| `DiskReads.LookupIsRecord` | src/database/index.ts:1757-1764 | the first plain record in tables of descending id is that of the newest table that holds the key; this is the part of `get` without old versions |
| `CompactionMeaning.RecordAfter` | src/database/index.ts:1611-1739 | exactly what the newest plain record of a key is after tables are replaced by their merge |
| `CompactionMeaning.CompactionPreservesPlain` | src/database/index.ts:1611-1739 | replacing tables by their merge leaves what the newest plain record of a key reads as, given that no newer outside table holds an input key and the bottommost flag is honest |
| `CompactionMeaning.CompactionPreservesPlainIff` | src/database/index.ts:1611-1739 | the exact condition for the newest plain record, under any policy and for any tables, in terms of the records inside and outside the inputs |
| `CompactionMeaning.CompactionPreservesRecordsIff` | src/database/index.ts:1611-1739 | above the bottom level, where each version is written once, the raw records stay as they were if and only if no input key has a newer holder outside the inputs |
| `GetReads.LoopIsGot` | src/database/index.ts:1757-1771 | the table loop of `get`, which asks a table that lacks the plain record for an old version before it goes on, answers with the newest table that answers at all |
| `GetReads.GotIff` | src/database/index.ts:1757-1771 | `get` reads on disk as the newest plain record exactly when no table answers before its holder with a version that reads otherwise |
| `GetReads.NoneAboveAgrees` | src/database/index.ts:1757-1771 | in particular when no table above the newest plain holder has a version |
| `GetMeaning.CompactionPreservesGetIff` | src/database/index.ts:1611-1776 | the exact condition for `get`, versions included, whatever the tables, policy, bounds and cut: the plain record kept by the merge, or else the version its outputs answer with, or else what lies outside, reads as what is read before |
| `GetMeaning.CompactionWithoutSnapshotsIff` | src/database/index.ts:1611-1776 | while no snapshot is open, the same condition in terms of the tables before the compaction alone |
| `GetMeaning.CompactionPreservesGet` | src/database/index.ts:1611-1776 | compaction preserves meaning: where no version stands above the newest plain record, no newer outside table holds an input key, tombstones go only when nothing outside answers, and versions are kept only along with their record, `get` is unchanged and still no version stands above |
| `GetMeaning.VersionsComeFromInputs` | src/database/index.ts:1668-1671 | a version in an output was in an input, and is kept only while a snapshot old enough is open |
| `KeptRecords.PlainIsKeptIff` | src/database/index.ts:1668-1691 | which documents stay: a plain record is in the outputs exactly when the newest input that has it holds no tombstone, or something may lie deeper; and with the value of that input |
| `KeptRecords.VersionIsKeptIff` | src/database/index.ts:1692-1693 | which versions stay: exactly those of the inputs that are not older than the oldest open snapshot, each with the value of the newest input that has it |
| `KeptRecords.NewestIsKeptIff` | src/database/index.ts:1692-1693 | so for a reader at any snapshot the newest version in the inputs is the newest in the outputs, unless it is older than the oldest open snapshot |
| `Leveled.FirstLevelIsClear` | src/database/index.ts:1551-1553 | compacting level 0 always satisfies the condition above, because it takes the whole level |
| `Leveled.OutsideIsOlder` | src/database/index.ts:1562-1576 | with true bounds, any table left outside that shares a key with an input lies deeper and is older |
| `Leveled.StepPreservesPlain` | src/database/index.ts:1546-1597 | one leveled compaction on true bounds with clear inputs leaves the newest plain record of every key reading what it read |
| `Leveled.StepPreservesPlainIff` | src/database/index.ts:1546-1597 | one leveled compaction, on any bounds and layers, leaves the newest plain record's reading alone exactly under the condition above |
| `Leveled.ChosenAreClear` | src/database/index.ts:1604-1609 | for the chosen tables themselves the bottommost check is enough |
| `Leveled.StepPreservesLayers` | src/database/index.ts:1576-1585 | and keeps the layering: upper tables newer, deeper levels disjoint |
| `LeveledGets.StepPreservesGetIff` | src/database/index.ts:1546-1597 | one leveled compaction, on any bounds and layers, leaves what `get` returns alone exactly when it keeps the answer, versions included |
| `LeveledGets.StepPreservesGet` | src/database/index.ts:1546-1597 | on true bounds with clear inputs, and versions that stay below the records of their documents, `get` reads what it read |
| `VersionExample.VersionMovesAbove` | src/database/index.ts:1757-1771 | a store in order, with true bounds and clear inputs, on which moving down a table with an old version makes `get` return the old document, while `scan` reads the new one; the exact condition fails there |
| `LeveledExamples.MovedRecordHidesNewer` | src/database/index.ts:1629-1632 | a store on which compacting level 2 makes `get` return an older document: the output's fresh id outranks a newer table above it; the exact condition fails there |
| `LeveledExamples.DroppedTombstoneRevives` | src/database/index.ts:1604-1609 | a store with true bounds on which a deleted key comes back: the bottommost check looks only at the range of the chosen tables; the exact condition fails there |
| `LeveledExamples.UntrueBoundRevives` | src/database/index.ts:1319-1320 | a store on which a deleted key comes back because a table's recorded maximum is not its true one; the exact condition fails there |
| `OutputBounds.OutputBoundedIff` | src/database/index.ts:1647-1649 | the bounds recorded for an output are true exactly when its last record opens a block |
| `OutputBounds.SmallBlocksBound` | src/database/index.ts:1647-1649 | with blocks no larger than any record all recorded bounds are true |
| `LeveledStores.LeveledStore.ChooseInputs` | src/database/index.ts:1550-1560 | takes something exactly when the level is due: all of level 0, or the largest table of a level over its target |
| `LeveledStores.LeveledStore.IsBottommostLevel` | src/database/index.ts:1604-1609 | true exactly when no deeper table overlaps the range |
| `LeveledStores.LeveledStore.CompactLevel` | src/database/index.ts:1546-1585 | runs exactly when the level is due and nothing overflows, and is then a step of the placement model, with the given cutoff and target size |
| `LeveledStores.LeveledStore.RunLeveledCompaction` | src/database/index.ts:1546-1602 | the cascade goes down level by level, each with the oldest snapshot open at the time as its cutoff, and stops only at a level that is not due |
| `LeveledStores.LeveledStore.TargetsGrow` | src/database/index.ts:1539-1544 | level 1 may hold its configured size, and each level below a fixed multiple of the one above it |
| `LeveledStores.HistoryPreservesPlain` | src/database/index.ts:1546-1602 | a whole cascade, or any sequence of cascades, on true bounds leaves the newest plain record of every key reading what it read |
| `LeveledStores.HistoryPreservesGet` | src/database/index.ts:1546-1602 | and what `get` returns, where versions stay below throughout |
| `LeveledStores.LeveledStore.AddFlushed` | src/database/index.ts:1411-1414 | a flushed table joins the front of level 0, and nothing else changes |
| `MemtableScans.IterSnapshot` | src/database/index.ts:349-358 | yields in key order, for each key in range, the version a reader at the snapshot sees |
| `Scans.ScanMerge` | src/database/index.ts:1936-1990 | the merge loop yields in strictly ascending order the newest document of each plain key, leaving out tombstones |
| `Scans.Scan` | src/database/index.ts:1904-1990 | yields in order exactly the plain keys in range that are live in memory and in the tables whose recorded bounds meet the range, each with its newest document, on any bounds |
| `Scans.ScanIsComplete` | src/database/index.ts:1904-1990 | on tables with true bounds the scan yields the newest record of every live plain key in range, each once and in order |
| `Scans.ScanAgrees` | src/database/index.ts:1741-1990 | there `scan` and `get` agree on a key exactly when memory answers it or no old version that reads otherwise answers first |
| `Scans.ScanAgreesBelow` | src/database/index.ts:1741-1990 | so they always agree while no version stands above the newest record of its document |
| `Scans.ScanAgreesIff` | src/database/index.ts:1741-1990 | on any tables they agree on a key exactly when memory answers it, or no table does, or the first table that answers has the plain record and is not skipped, or what it answers reads as the first record in the tables the scan reads |
| `Scans.SkippedTable` | src/database/index.ts:1319-1320 | a table whose recorded maximum is too small is skipped, and a key that `get` finds is missed |
| `Flushes.ToFlushEntries` | src/database/index.ts:360-386 | a flush writes the newest version of every key, with snapshots open also each version not older than the oldest under its versioned key, and nothing else |
| `Flushes.VersionFlushedIff` | src/database/index.ts:366-375 | with snapshots open a version is written under its versioned key exactly when it is not older than the oldest snapshot |
| `Flushes.DroppedVersion` | src/database/index.ts:366-375 | a snapshot between two writes of a document: the version it reads in memory is not in the flush |
| `FlushTables.FlushMemtable` | src/database/index.ts:1401-1415 | a flush writes a readable file of just that, whose table has true bounds and a filter that passes every document |
| `FlushTables.FlushToLevels` | src/database/index.ts:1386-1415 | an id is taken, and the table of the file joins level 0 under it, above all the others; where a field overflows only the id is used up |
| `Engine.FlushReadsIff` | src/database/index.ts:1386-1417 | whenever a flush ends and whatever id it took, it leaves the newest plain record of a key reading as it did exactly when a newer memtable holds the key, or neither an older memtable nor a table of greater id does, or those read the same |
| `Engine.OrderlyIsSound` | src/database/index.ts:1386-1417 | a flush of the oldest memtable under the greatest id always does |
| `FlushExample.OvertakenFlush` | src/database/index.ts:1386-1417 | a flush that a compaction overtook, with a greater id for the old document: `get` goes back from the new document to the old one |
| `Engine.CompactReadsIff` | src/database/index.ts:1546-1597 | a compaction leaves the newest plain record of a key reading as it did exactly when memory answers it or its meaning on disk is kept |
| `Engine.CompactKeepsIff` | src/database/index.ts:1546-1597 | a store whose newest plain records are those of the map goes on being one after a compaction exactly when the compaction is sound in that sense |
| `Engine.GuardedIsSound` | src/database/index.ts:1546-1609 | true bounds and inputs that nothing outside overrides or depends on are enough for that, and keep the layers |
| `Engine.MoveKeeps` | src/database/index.ts:765-806 | each step of the whole store keeps its invariant: ids, commits, and that the newest plain records are those of the map |
| `Engine.CollectionIsAMap` | src/database/index.ts:1741-1776 | when the collection is a map: after any run of writes, rotations, sound flushes and sound compactions the newest plain record of each key is the document last written, and `get`, versions included, returns just that exactly when memory answers or no old version that reads otherwise is found first |
| `VersionSafety.FlushKeepsGet` | src/database/index.ts:1386-1417 | an orderly flush changes nothing that `get` returns, versions included |
| `VersionSafety.CompactGetIff` | src/database/index.ts:1546-1597 | a compaction leaves what `get` returns for a key exactly when memory answers it or the answer from disk is kept |
| `VersionSafety.RunKeepsBelow` | src/database/index.ts:1401-1597 | in a run of orderly flushes and guarded compactions that move no version without its record, no version ever stands above the newest record of its document |
| `VersionSafety.GuardedCollectionIsAMap` | src/database/index.ts:1741-1776 | the collection is a map: after any such run `get` returns the document last written under each plain key, or nothing if that was a deletion |
| `VersionSafety.PlainCollectionIsAMap` | src/database/index.ts:1741-1776 | in particular when memtables are flushed only while no snapshot is open |
| `Recency.HoldsMostRecent` | src/database/index.ts:143-204 | least recently used, said outright: after any calls of `get` and `set` the cache holds the `capacity` keys used last, in that order |
| `Recency.MixedRun` | src/database/index.ts:143-204 | after any calls of `get`, `set` and `invalidate`: no more keys than allowed, in the order of their last use, each with the block last set and not invalidated since |
| `Recency.WhoLeaves` | src/database/index.ts:158-194 | a key leaves only when invalidated, or as the least recently used one when a full cache is given a new key |
| `Recency.InsertedTidy` | src/database/index.ts:158-171 | the size bound and the agreement of keys and list survive an insertion |
| `BlockCache.LRUBlockCache.UnlinkNode` | src/database/index.ts:181-187 | takes a key out of the linked list and leaves the map and the rest of the list alone |
| `BlockCache.LRUBlockCache.MoveToHead` | src/database/index.ts:196-203 | moves a key to the front |
| `BlockCache.LRUBlockCache.EvictTail` | src/database/index.ts:189-194 | removes the last key of the list, and its block |
| `BlockCache.LRUBlockCache.Get` | src/database/index.ts:151-156 | returns the block and moves its key to the front, or changes nothing |
| `BlockCache.LRUBlockCache.Set` | src/database/index.ts:158-171 | moves or inserts the key at the front and drops the last one when there is one too many |
| `BlockCache.LRUBlockCache.Invalidate` | src/database/index.ts:173-179 | exactly the keys with the prefix leave; the rest keep their order |
| `BlockCache.LRUBlockCache.ReadThrough` | src/database/index.ts:1866-1876 | reading blocks through the cache is reading them from disk |
| `Crc32c.TableStep` | src/database/index.ts:96-100 | one table step is eight steps of the bit-at-a-time register |
| `Crc32c.BuildTable` | src/database/index.ts:86-94 | every table entry is the register after eight shifts of its index |
| `Crc32c.Crc32c` | src/database/index.ts:96-100 | the table-driven loop computes the CRC32C of section 12.1 of RFC 3720 for every buffer and initial value |
| `Crc32c.ChecksumContinues` | src/database/index.ts:96-100 | a checksum can be continued across any split of the buffer |
| `Crc32c.OneByteChangeDetected` | src/database/index.ts:1124-1128 | changing any one byte of a message changes its checksum |
| `Frames.EncodeFrame` | src/database/index.ts:648-664 | the frame is length, fields, key, document and four pad bytes; it throws where one does not fit its field |
| `Frames.FrameRoundTrip` | src/database/index.ts:696-707 | a frame decodes to its record with the defaults filled in; the pad bytes are ignored |
| `Framing.StreamDrains` | src/database/index.ts:709-728 | any stream of frames cut at any byte yields exactly its whole frames and leaves the cut one |
| `ReplicaStreams.DrainedSplit` | src/database/index.ts:709-728 | draining what has arrived and then the rest is draining it all at once |
| `ReplicaStreams.FramesDeliver` | src/database/index.ts:696-728 | encoded records are frames in the sense above |
| `ReplicaStreams.TCPReplicaClient.DrainFrames` | src/database/index.ts:709-728 | the loop over the buffer delivers what the buffer drains to, acknowledging the last record handled |
| `ReplicaStreams.Reassemble` | src/database/index.ts:682-728 | stream reassembly: however the bytes are chunked and wherever they stop, the handler gets the records of the whole frames in order, and only an incomplete frame stays buffered |
| `WalRecovery.EncodeRecord` | src/database/index.ts:1075-1084 | a log record is header, key and document; it throws where one does not fit its field |
| `WalFormat.TornLogParses` | src/database/index.ts:1110-1128 | a log torn at any byte parses to exactly the records wholly before the cut |
| `WalRecovery.ReadEntry` | src/database/index.ts:1110-1130 | reads one entry, or stops at one that is torn or fails its checksum |
| `WalFormat.DamagedLogParses` | src/database/index.ts:1110-1128 | with a checksum that tells one-byte changes apart: a log in which one byte of the key or document of a record is changed, whatever comes behind it, parses to exactly the records before that one |
| `LogChecksums.CrcDetectsOneByte` | src/database/index.ts:1124-1128 | CRC32C is such a checksum |
| `WalFormat.PositionChangeUnseen` | src/database/index.ts:1075-1084 | the checksum does not cover the header: a log in which the position of a record is changed is that of another record, which parses |
| `WalRecovery.Recovery.RecoverFromWal` | src/database/index.ts:1096-1146 | replays the parsed entries in order |
| `WalRecovery.ReplayRebuilds` | src/database/index.ts:1130-1144 | after replay each key has in front its last logged document that no deletion on disk is ahead of, and log position and transaction id are just above the greatest replayed |
| `WalRecovery.RewrittenIsRecovered` | src/database/index.ts:1096-1136 | an entry is left out exactly when a deletion of its document at its position or later is on disk; so a document written again after its deletion is recovered |
| `WalRecovery.HistoryKeeps` | src/database/index.ts:993-1034 | what every run of the sequential writer keeps about its memtable and its log |
| `WalRecovery.WriterReadsLog` | src/database/index.ts:993-1034 | the writer reads at its latest point the document it last logged |
| `WalRecovery.LogWriter.Commit` | src/database/index.ts:993-1034 | the file grows by the images of the entries, the memtable by the writes, under one new transaction id; where a record does not fit its header nothing is written, and the id and some positions are used up |
| `WalRecovery.RecoverTornLog` | src/database/index.ts:1096-1146 | torn-log recovery: for any run, any cut and whatever deletions are on disk, exactly the whole records are replayed, every key reads what had been logged last by then unless a later deletion is on disk, and new positions and ids start above |
| `WalRecovery.RecoverDamagedLog` | src/database/index.ts:1096-1146 | damaged-log recovery: for any run and one changed byte in the key or document of any record, exactly the records before it are replayed, and every key reads as in a log that ends there |
| `Replication.ReplicaCollection.ApplyReplicaRecord` | src/database/index.ts:885-912 | the object takes the step of the replica model: ignore, apply at once, buffer, or apply the whole batch |
| `Replication.ReplicaCollection.Remember` | src/database/index.ts:889-895 | the position is remembered, and past ten thousand only the recent ones are kept |
| `Replication.LastRecord` | src/database/index.ts:885-927 | with the last record of a transaction all its writes become readable at once |
| `Replication.MiddleRecord` | src/database/index.ts:885-912 | with an earlier record nothing changes that can be read |
| `Replication.ReplicaIsAtomic` | src/database/index.ts:885-927 | replica atomicity: after any in-order prefix with any repeats of remembered positions, and whatever snapshots open and close on the replica, every key reads as on the primary after the last transaction wholly received |
| `Replication.ReplicaSnapshotStable` | src/database/index.ts:885-927 | a snapshot opened on the replica after any deliveries reads every key as on the primary after the transactions received by then, whatever is delivered while it stays open |
| `Replication.RepeatIsHarmlessIff` | src/database/index.ts:886-912 | a repeat of any record of a finished transaction changes no read exactly when its position is remembered, it is not the last of its transaction, or all it brings with it is still current; and the replica stays caught up |
| `Replication.RepeatInStepIff` | src/database/index.ts:886-912 | with nothing held back, that is when it is remembered, not the last, or its document is still current |
| `Replication.HeldBack` | src/database/index.ts:904-911 | a forgotten record that is not the last is held back, and comes with the next repeat of the last one |
| `Replication.ForgottenRepeat` | src/database/index.ts:889-895 | a run of ten thousand and one transactions after which a repeat of the first brings back its document |
| `ManifestLog.CheckpointRoundTrip` | src/database/index.ts:1256-1266 | a checkpoint folds back to the levels it was written from, whatever came before |
| `ManifestLog.FoldLsnIff` | src/database/index.ts:1209-1225 | the recovered log position reflects the flush entries in the file, all of them, and nothing else; a checkpoint's own position is not among them |
| `ManifestLog.AppendsEntry` | src/database/index.ts:1268-1270 | appending a line to a clean file appends one entry |
| `ManifestLog.TornAppend` | src/database/index.ts:1268-1270 | appending behind a line that lacks its end adds no entry, and costs the one on that line |
| `ManifestStores.CutFoldsToHistory` | src/database/index.ts:1180-1225 | a log cut after any line, or within the next, folds to the levels after that many entries |
| `ManifestStores.ManifestStore.FoldEntries` | src/database/index.ts:1205-1225 | the fold loop computes the id-to-level map and the log position |
| `ManifestStores.ManifestStore.Boot` | src/database/index.ts:1175-1254 | after a boot the rewritten manifest folds to the levels exactly when there was an entry to fold, or the file was clean and no readable table lay there without a manifest; the next id is just above the tables loaded, and free of files that are there exactly when none of them is above all those tables |
| `ManifestStores.LostPosition` | src/database/index.ts:1209-1266 | a store that flushes once: the first boot recovers its log position, the second has none |
| `ManifestStores.TornManifest` | src/database/index.ts:1180-1203 | a manifest with one torn line beside a table: after a boot file and levels do not agree, what is appended is lost, and the next table takes the id of the one that is there |
| `ManifestStores.ManifestStore.Flush` | src/database/index.ts:1386-1422 | manifest and levels agree after a flush; the new id is on level 0 and below the next one, no file is written over, and the entry carries the log position |
| `ManifestStores.ManifestStore.Compact` | src/database/index.ts:1576-1591 | manifest and levels agree after a compaction; the outputs have consecutive new ids on the lower level, no file is written over and the inputs are gone, and one more id is used up where a last output was begun and dropped |
| `PluginGraph.PathDescends` | src/core/loader/index.ts:91-137 | in a dependencies-first list no dependency path leaves the list or meets a cycle |
| `PluginGraph.TransitiveBefore` | src/core/loader/index.ts:91-137 | whatever a listed plugin depends on, however indirectly, is listed before it |
| `PluginSort.DependencySorter.Visit` | src/core/loader/index.ts:96-119 | a visit succeeds with the plugin sorted, or fails only for one that cannot load; entries left in `visiting` by failures belong to plugins that cannot load either |
| `PluginSort.RootOrder` | src/core/loader/index.ts:121-125 | roots come by ascending priority, those of equal priority as discovered |
| `PluginSort.SortDependencies` | src/core/loader/index.ts:91-137 | exactly the plugins with no missing or circular dependency below them, each once, after its dependencies, and otherwise in priority order; it terminates |
| `PluginBoot.PluginManager.PreloadAll` | src/core/loader/index.ts:278-320 | exactly the sorted plugins whose preload succeeds wait to boot, in the order of the sort; the others are marked as failed, or as pending where they cannot load |
| `PluginBoot.PluginManager.ExcludePreloadedPlugin` | src/core/loader/index.ts:329-336 | one plugin leaves the waiting list, the order of the others stays |
| `PluginBoot.PluginManager.BootAll` | src/core/loader/index.ts:338-409 | a plugin ends with success exactly when it is not gated, its dependencies succeeded before it, and it boots; the registry is in dependency order |
| `PluginBoot.PluginManager.DependenciesUp` | src/core/loader/index.ts:360-372 | the check that accepts a merely preloaded dependency never meets one |
| `PluginBoot.PluginManager.ShutdownAll` | src/core/loader/index.ts:500-522 | plugins are disabled in the reverse of boot order and the registry is cleared |
| `PluginBoot.DependentsFirst` | src/core/loader/index.ts:503-505 | in the reverse of boot order a plugin comes before everything it depends on |
| `PluginBoot.BootsIffAllReached` | src/core/loader/index.ts:338-409 | the step-by-step boot is the transitive condition: everything reachable must be present, ungated and boot |
| `PluginBoot.WhoBoots` | src/core/loader/index.ts:278-409 | who ends with success, said of the dependency graph alone |
| `PluginBoot.RunLifecycle` | src/core/loader/index.ts:278-522 | a whole life: whatever the plugins do, exactly the loadable ones with only willing dependencies boot, each after its dependencies and otherwise in priority order, and are disabled in the opposite order |
| `JsonTrees.DeepEqualIff` | src/core/loader/mergePreserve.ts:21-46 | `deepEqual` decides whether two trees mean the same, whatever the order of keys |
| `MergePreserving.MergePreserve` | src/core/loader/mergePreserve.ts:48-95 | the recursive loops compute the merge and its report |
| `MergeReports.ReportIsExact` | src/core/loader/mergePreserve.ts:48-95 | the report is exactly the paths at which the merge adds something the user lacks, under an object the user has, and those at which both sides have values of different kinds, each once |
| `MergeReports.MissingKeysReported` | src/core/loader/mergePreserve.ts:17-19 | a key is reported missing exactly when it is the dotted name of such a path, the parent `root` left out |
| `MergeReports.MismatchesReported` | src/core/loader/mergePreserve.ts:88-92 | a mismatch is reported exactly for the name of a path both sides have with different kinds, and names the kind of the user first |
| `MergeReports.TagsTellKinds` | src/core/loader/mergePreserve.ts:7-11 | the kinds are told apart by their tags: null, array, object, string, number, boolean |
| `MergePreserving.FindMergedObject` | src/core/loader/mergePreserve.ts:60-92 | what each key of a merged object holds |
| `MergeLaws.MergeIdempotent` | src/core/loader/mergePreserve.ts:48-95 | a second merge with the same defaults changes nothing |
| `MergeLaws.SecondMergeAddsNothing` | src/core/loader/mergePreserve.ts:79-88 | and reports no missing key |
| `MergeLaws.ReportedIffChanged` | src/core/loader/mergePreserve.ts:48-95 | a missing key is reported exactly when the merge changed the tree |
| `MergeLaws.ReportedIffNotDeepEqual` | src/core/loader/mergePreserve.ts:21-95 | and exactly when `deepEqual` tells the result from the user's tree |
| `MergeLaws.UserSurvives` | src/core/loader/mergePreserve.ts:60-78 | every value the user wrote is still there |
| `MergeLaws.DefaultsPresent` | src/core/loader/mergePreserve.ts:79-92 | every default key under a shared object is present |
| `MergeLaws.NothingInvented` | src/core/loader/mergePreserve.ts:48-95 | and nothing is there that neither side had |
| `MergeLaws.MergeWellFormed` | src/core/loader/mergePreserve.ts:48-95 | no object of the result has a key twice |
| `Additions.CollectAdditions` | src/core/loader/json5SurgicalWrite.ts:203-223 | the recursive pushes collect the additions of the whole tree |
| `Additions.GrownIsIntended` | src/core/loader/json5SurgicalWrite.ts:203-223 | carrying out what was collected, all at once, gives the intended tree |
| `Patching.OneByOne` | src/core/loader/json5SurgicalWrite.ts:241-250 | carrying additions out one by one, in any order that fits, is carrying them out at once |
| `Patching.SortedHere` | src/core/loader/json5SurgicalWrite.ts:242 | sorting by depth keeps the additions and their order at each path |
| `Patching.SortedByDepth` | src/core/loader/json5SurgicalWrite.ts:242 | the additions are carried out shallow first |
| `Patching.NoneUnderAnother` | src/core/loader/json5SurgicalWrite.ts:203-223 | no addition lies under another |
| `Patching.PatchGivesIntended` | src/core/loader/json5SurgicalWrite.ts:229-253 | where the intended tree extends the existing one, the sorted additions carried out in turn give exactly it |
| `Patching.DiffPatchAgree` | src/core/loader/json5SurgicalWrite.ts:203-253 | diff and patch agree: for any defaults and user tree, patching the user's tree with the collected additions is the merge, and there are none exactly when the merge changes nothing |
| `TextScanning.SkipWsAndComments` | src/core/loader/json5SurgicalWrite.ts:27-49 | skips to the first character that is neither white space nor in a comment |
| `TextScanning.MatchString` | src/core/loader/json5SurgicalWrite.ts:51-64 | gets behind the first unescaped closing quote |
| `TextScanning.FindMatching` | src/core/loader/json5SurgicalWrite.ts:66-94 | finds the closing bracket of the same depth, not counting brackets in strings and comments |
| `TextScanning.SkippingKeepsMatch` | src/core/loader/json5SurgicalWrite.ts:76-83 | jumping over a comment together with the white space behind it never passes a bracket |
| `ScanningLaws.EscapedIsMatched` | src/core/loader/json5SurgicalWrite.ts:51-64 | the end of a string is its own closing quote, however many quotes and backslashes it holds |
| `ScanningLaws.RawIsMatched` | src/core/loader/json5SurgicalWrite.ts:51-64 | and whatever other escapes are written between its quotes |
| `ScanningLaws.GroupIsMatched` | src/core/loader/json5SurgicalWrite.ts:66-94 | whatever is nested between two brackets, the right one is found |
| `KeyLookup.FindKeyValueStart` | src/core/loader/json5SurgicalWrite.ts:96-133 | the scan over the properties of an object stops where its step-by-step definition says |
| `KeyLookup.FindObjectRangeForPath` | src/core/loader/json5SurgicalWrite.ts:135-152 | follows the keys of a path from object to object |
| `KeyLookupLaws.PropertyIsFound` | src/core/loader/json5SurgicalWrite.ts:96-133 | in the text of any object, the value found is that of the first property the library reads as the name, unless a key that is not quoted or cannot be read comes before it; and none is found when there is none |
| `KeyLookupLaws.PathIsFound` | src/core/loader/json5SurgicalWrite.ts:135-152 | path lookup is exact: it gives the braces of the object written at the path, and nothing when there is none, whatever comments, strings and nested values lie in between |
| `SurgicalWrite.InsertKeyIntoObject` | src/core/loader/json5SurgicalWrite.ts:171-201 | the edit is a pure insertion before the closing brace |
| `InsertedText.InsertedIsWritten` | src/core/loader/json5SurgicalWrite.ts:171-201 | where an object is written in a text, after the insertion there is that object with the new property behind all the others, as the library prints it, and nothing else of the text has changed |
| `InsertedText.ListStaysIff` | src/core/loader/json5SurgicalWrite.ts:190-199 | the properties are still separated by commas exactly when a comma was put in just where the last property had none behind it |
| `InsertedText.ClearEnd` | src/core/loader/json5SurgicalWrite.ts:190-199 | which is so for every object whose text does not end in a note |
| `InsertedText.NoteMisleads` | src/core/loader/json5SurgicalWrite.ts:190-199 | an object with a note behind its last comma, whose properties have two commas in a row after the insertion |
| `InsertedText.InsertedIsFound` | src/core/loader/json5SurgicalWrite.ts:96-201 | after the insertion each old property is found where it was, and the new one exactly under its key, unless a key that cannot be read comes first |
| `GraftedText.ObjectsKept` | src/core/loader/json5SurgicalWrite.ts:135-201 | every other object of the text is still at its path with what it held, and where it was or moved by what was put in |
| `PatchedTexts.PathsAfterPatch` | src/core/loader/json5SurgicalWrite.ts:135-201 | so path lookup finds each of them in the patched text |
| `ReadText.GraftReads` | src/core/loader/json5SurgicalWrite.ts:171-201 | a reader of the text reads the tree with the property added at the path |
| `SurgicalWrite.TrySurgicalPatch` | src/core/loader/json5SurgicalWrite.ts:229-253 | the patched text is that of the sorted additions inserted in turn, and all of the old text survives in it in order |
| `PatchedTexts.PatchIsWritten` | src/core/loader/json5SurgicalWrite.ts:229-253 | a text that stands for a tree, patched with additions whose paths lead to objects in it, stands for the tree with the additions made |
| `PatchedTexts.PatchSucceeds` | src/core/loader/json5SurgicalWrite.ts:255-303 | a surgical write succeeds: for a neat text with quoted keys and any data that only adds to what it holds, the patched text reads back to the data |
| `SurgicalWrite.WriteJson5Preserving` | src/core/loader/json5SurgicalWrite.ts:255-303 | whatever the file held, it then reads back to the intended data; it is left alone exactly when it did already, and the old text survives exactly when the patch reads back right |
| `ConfigTrees.MutatedIff` | src/core/manager/config.ts:267-289 | the update makes the live tree equal to the source exactly when no inherited name is left over in it |
| `ConfigTrees.LeftoverStays` | src/core/manager/config.ts:267-272 | a live object that a reload does not make equal to its source: the key `toString` stays |
| `ConfigTrees.PlainNamesAreExact` | src/core/manager/config.ts:267-289 | which cannot happen while no key is an inherited name |
| `ConfigTrees.LastReloadWins` | src/core/manager/config.ts:259-265 | over any sequence of reloads the live object equals the newest source |
| `ConfigTrees.MutatedTwice` | src/core/manager/config.ts:267-289 | the update is idempotent, leftovers or not |
| `LiveConfig.DeepMutate` | src/core/manager/config.ts:267-289 | the heap becomes the updated tree, every object both sides have keeps its identity, and no object of the source enters the target |
| `LiveConfig.ConfigManager.UpdateLiveReference` | src/core/manager/config.ts:259-265 | one configuration is updated in place, the others and the source stay untouched and apart |
| `LiveConfig.ReferencesLive` | src/core/manager/config.ts:259-265 | a reference a reader holds survives every update and shows its own configuration as updated |
| `IdentifyQueues.IdentifyQueue.WaitTurn` | packages/gateway-multiplex/src/identifyQueue.ts:18-34 | the bucket is settled at the call, and the call joins the end of the queue |
| `IdentifyQueues.IdentifyQueue.RunTurn` | packages/gateway-multiplex/src/identifyQueue.ts:20-27 | a turn is over no earlier than the spacing allows; where the sleep is exact it ends at once for a bucket that was never granted or last five seconds ago, and otherwise five seconds after the last grant |
| `IdentifyQueues.MayEndIff` | packages/gateway-multiplex/src/identifyQueue.ts:16-36 | in every reachable state a turn may end at a time exactly when all grants of its bucket lie five seconds back by then |
| `IdentifyQueues.RunKeeps` | packages/gateway-multiplex/src/identifyQueue.ts:3-36 | spacing and bucket bounds hold in every reachable state, under any changes of the concurrency |
| `IdentifyQueues.RateBound` | packages/gateway-multiplex/src/identifyQueue.ts:16-36 | in every run, grants of one bucket are five seconds apart and any half-open five-second window holds at most as many grants as the greatest concurrency |
| `IdentifyQueues.BoundIsReached` | packages/gateway-multiplex/src/identifyQueue.ts:16-36 | the bound is tight |
| `IdentifyQueues.GrantsFollowCalls` | packages/gateway-multiplex/src/identifyQueue.ts:18-34 | every call gets exactly one grant, in the order of the calls |

## Left out

- WalRecovery.HistoryKeeps: the runs are of transactions that succeed; one that throws for want of room leaves the file and the memtable alone, as `Commit` says, but the positions it used up are not in these runs.
- BlockCache.LRUBlockCache.Set: requires a non-empty key, because the source takes the empty string for a missing link.
- Scans.Scan: claims latest reads only; its own search for old versions is the parameter `older` of the loop and is not reached at the latest point.
- Engine.CollectionIsAMap: `get` at the latest point; a compaction is one step, so that a flush which ends while it runs comes after it, and takes no id between those of the outputs.
- VersionSafety.GuardedCollectionIsAMap: committed ids stay below the largest 64-bit number, which stands for no snapshot.
- GetMeaning.CompactionPreservesGet: document keys that begin with a NUL character and a second one not above `V` sort before or among versions; for them versions must not be kept at all.
- SnapshotRuns.SnapshotStable: holds until a flush to disk, because the flush drops the version just below the oldest snapshot, as `VersionFlushedIff` says.
- WalRecovery.RecoverTornLog: the deletions on disk are a parameter, not followed from the tables; records carry no batch information, so a transaction of several writes may be recovered in part.
- Replication.ReplicaIsAtomic: the replica's own flushes and its catch-up by `addReplica` are not part of it.
- ManifestStores.ManifestStore.Boot: the order of the tables within a level is not modelled, only which tables lie on it.
- KeyLookupLaws.PathIsFound: a bare value is followed by its comma or the closing brace with no comment between; other hand-written text makes the code give up or fall back, which `WriteJson5Preserving` covers.
- PatchedTexts.PatchSucceeds: for texts with quoted keys, whose objects do not end in notes; a path through a key without quotes is not found, and then the file is written anew.
- DamagedFiles.DamageIsReported: a document that is compressed may inflate to anything when a byte of it changes, and the checksum is of what it inflates to.
- SSTableReader.ReadSSTableMetadata: files as the writer makes them; its branches for a wrong magic number, an empty metadata region and footers before version 4 are followed, but nothing is claimed of them.
- VersionReader.AnswerOfTable, Scans.Scan and the compactions read files as they were written.
- SurgicalWrite.WriteJson5Preserving: numbers are reals, so that NaN, which is not equal to itself, and the infinities are not among them.
- Replication.LastRecord: keys that do not survive UTF-8, such as lone surrogates, are not among those a primary writes.
- LiveConfig.DeepMutate: arrays are values with an identity and are passed on as they are; their contents are not followed.
- PluginBoot.RunLifecycle: one preload, boot and shutdown; `disable` and reload of single plugins are not modelled, and priorities are integers.
- SortByMinKey, SortById, SortedKeys, RootOrder, SortByDepth stand for calls of the library's sort.
- Interleaved writers: each write or commit finishes before the next begins, as the clearing of the log buffer after a wait requires.
- File handles, sockets, reconnects, timers, rate limiting, and deletion of files: files and streams are sequences of bytes or lines.
- The queue that hands replica records over asynchronously: records are handled in order as they arrive.
- The sizing of Bloom filters by logarithms: size and number of probes are parameters.
- The file and metadata caches in front of tables, and secondary indexes.
- Document ids that begin with the prefix of versioned keys.
- Objects with integer-like keys, which a JavaScript engine lists in another order, and keys named `__proto__`.
- Discord clients, gateway shards, HTTP routes, registries, audit and error stores, placeholders, emoji, cooldowns and other caches.

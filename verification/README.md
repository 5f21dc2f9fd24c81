# Verification of ESSM

ESSM indexes a filesystem concurrently. Workers scan directories with bulk attribute calls and publish packed column
blocks into a native store; a coordinator hands out directories by rank and settles results, deaths and shutdown; a
bridge serves the index to a desktop window over framed Erlang terms, and the window keeps sizes, histograms and
leaderboards while it drains the completion journal. This project models these parts in Dafny and proves what they
promise one another. `dafny verify dfyconfig.toml` checks it all.

| file | models |
|---|---|
| `Terms`, `TermOrder`, `OrderedQueue`, `Scheduler` | the dependency-tracked priority queue of `scheduler.ex`, on values |
| `StoreModel`, `IndexStore` | the native store: its abstract steps, and the class of segments, table and journal arrays that refines them |
| `Options`, `Words`, `Bytes`, `Sequences` | optional values, machine integers, bits and buffers, and sequences read backwards |
| `Blocks`, `Format`, `BlockBuilder`, `ScanBuilder`, `BitCounts` | the packed block: layout, bytes and meaning, the two in-place builders and the validation, and the readers of `batch.ex` |
| `Entries`, `RecordLayout`, `RecordWalk`, `FusedScan`, `KernelBuffer` | the two decoders of bulk attribute records, the kernel's layout of these, the walk that fills columns in place, and the scan of one directory |
| `Counts`, `Scan`, `DirectoryScan` | classification and counting of scanned rows, as a fold and as the structure updated in place |
| `Coordinator`, `CoordinatorSteps`, `CoordinatorRuns`, `Dispatch`, `Termination`, `CleanRuns`, `ReportMaps`, `Reports`, `StoreLink` | the coordinator as a step relation over a fixed filesystem: its invariant, its runs, why they end and with what, what they report, and that the native store stands for its store |
| `Wire`, `WireForms`, `WireMachines`, `FrameForms`, `Json`, `JsonMeaning` | the term codec, every form that may arrive, its vector and position machines, frames and JSON conversions |
| `Bridge`, `Client`, `JointRun`, `Replies`, `Pages` | the bridge's event loop, the client's event queue, both in one run, and row pages |
| `SizeTree`, `TreeFeed`, `Leaderboards`, `Summaries`, `WindowTop`, `Drain`, `Pipeline` | the desktop model and what it holds of a store, the drain loop, and how the layers fit together |

How the parts are modelled:

- The coordinator, its workers and the store form one state with nondeterministic steps: a worker runs its native call
  (an uninterrupted scan and one atomic store step), sends, dies or stops; the coordinator receives one message; rank
  data changes. The filesystem is a finite tree, the same for a whole run. A worker's death between publishing and
  reporting is remembered in a history variable, so that the report can be compared with the store exactly.
- Ranking functions are arbitrary functions of the task and the data that depend only on the keys they recorded;
  `Schedulers.ReaderTracks` shows that the tracked reader makes every terminating ranking function one of these.
- The store class grows its segment table, segments and journal by doubling; a failing allocation is an argument that
  says how many allocations succeed. Its methods are proved equal to the steps of `StoreModel`.
- Buffers are sequences or arrays of bytes with little-endian 32-bit numbers; bit operations are on numbers.
- The bridge is seen through its input events and output frames. Each call of a client reads from any such output; in a
  joint run the client's writes are the bridge's requests, and client, bridge and waiters move in any interleaving.
- The platform's bit for each attribute is a parameter of the record decoders, whose tables follow the code; `RecordLayout`
  has the kernel's own numbering and C types, and holds the decoders against it.

Four promises do not hold for every input, and the project says exactly when they do, with an input on which they fail:

- The packed decoder keeps an entry's error number unsigned where the direct decoder turns it into a signed one. They
  agree exactly below 2^31 (`Entries.PackedRefinesDirect`, `Entries.LargeErrorTurnsNegative`).
- Sizes propagate over at most 512 nodes. A node holds the sum over everything below it exactly if no directory with
  bytes is 512 or more levels below it, or the number has saturated (`TreeFeeds.SumIsRecursive`,
  `TreeFeeds.DeepBytesAreMissed`).
- A frame can be written and not read: if its payload is over 64 MiB, or its value is nested deeper than 128
  (`Json.FrameRoundTrip`, `Json.DeepFrameIsNotRead`, `Json.LongFrameIsNotRead`).
- The window's list is the largest files of the index exactly if every file that its directory's summary left out is
  outranked by 100 that were sent (`WindowTops.WindowTopIsExact`, `WindowTops.NineFilesAreTooMany`).

## Model

| member | source | states |
|---|---|---|
| Terms.CompareTransitive | findex/lib/findex/scheduler.ex:27-28 | Over ranks of every kind, maps with their exact key order included, the term order is transitive, so with its symmetry any two ranks compare and ties are an equivalence |
| TermOrders.KindsAscend | findex/lib/findex/scheduler.ex:27-28 | number < atom < reference < function < port < process < tuple < map < list < binary, whatever they hold |
| TermOrders.NumbersAscend | findex/lib/findex/scheduler.ex:27-28 | Integers and floats ascend by value, across the two types; among map keys every integer comes before every float |
| TermOrders.PlacesAscend | findex/lib/findex/scheduler.ex:27-28 | References, functions, ports and processes ascend by the place that the runtime gives each |
| TermOrders.TextsAscend | findex/lib/findex/scheduler.ex:27-28 | Atoms and binaries ascend at their first difference, a proper prefix first |
| TermOrders.ListsAscend | findex/lib/findex/scheduler.ex:27-28 | So do lists, element by element |
| TermOrders.TuplesAscend | findex/lib/findex/scheduler.ex:27-28 | Tuples ascend by size, and those of one size at their first difference, so they rank lexicographically |
| TermOrders.MapsAscend | findex/lib/findex/scheduler.ex:27-28 | Maps ascend by size, then at the first different key, then at the first different value |
| OrderedQueues.SortedIsUnique | findex/lib/findex/scheduler.ex:443-443 | A queue sorted by a strict order is determined by its members, so the tree of queue keys has one listing |
| OrderedQueues.InsertIsSorted | findex/lib/findex/scheduler.ex:400-407 | Inserting a key keeps the queue strictly sorted and adds just that key |
| OrderedQueues.DeleteIsSorted | findex/lib/findex/scheduler.ex:409-422 | Deleting a key keeps the queue strictly sorted and removes just that key |
| Schedulers.EvaluateAgrees | findex/lib/findex/scheduler.ex:336-363 | An evaluation that has returned or raised is the same on any data that agrees on the keys it recorded, missing keys included |
| Schedulers.EvaluateKeepsReads | findex/lib/findex/scheduler.ex:336-363 | Every key read so far stays recorded, also when the read of a missing key fails and the ranker goes on |
| Schedulers.ReaderTracks | findex/lib/findex/scheduler.ex:336-363 | Whatever a terminating ranking function does with its answers, and however many it asks for, the reader makes it depend on its recorded keys only |
| Schedulers.Scheduler.AddTaskIsCoherent | findex/lib/findex/scheduler.ex:400-429 | Adding a task keeps queue, task map and dependents describing the same set, with no empty dependents set |
| Schedulers.Scheduler.RemoveTaskIsCoherent | findex/lib/findex/scheduler.ex:409-441 | Removing a task does too, and drops dependents sets that become empty |
| Schedulers.Scheduler.CoherentIsUnique | findex/lib/findex/scheduler.ex:61-80 | Queue and dependents are functions of the task map: two coherent schedulers with the same tasks are equal there |
| Schedulers.Scheduler.PutEvaluatedTaskInv | findex/lib/findex/scheduler.ex:378-398 | Putting a task changes only its own item; a replaced task keeps its place among ties, a new one goes behind all |
| Schedulers.Scheduler.PutEvaluatedTasksInv | findex/lib/findex/scheduler.ex:119-130 | Putting a list keeps the invariant and adds exactly the listed IDs, repeated ones included |
| Schedulers.Scheduler.PutEvaluatedTasksData | findex/lib/findex/scheduler.ex:119-130 | A pending task's payload is the one it had or one it was listed with, so payloads never cross between IDs |
| Schedulers.Scheduler.DeleteTaskInv | findex/lib/findex/scheduler.ex:131-131 | Deleting removes just that task and keeps every cached rank fresh |
| Schedulers.Scheduler.ReplaceEvaluationIsCoherent | findex/lib/findex/scheduler.ex:365-376 | A reevaluation moves one task in queue and dependents and changes nothing else of it but rank, dependencies and revision |
| Schedulers.Scheduler.RerankIsOrderIndependent | findex/lib/findex/scheduler.ex:273-294 | Applying a batch of reevaluations gives one result, in whatever order the affected set is enumerated |
| Schedulers.Scheduler.ApplyDataChangeRecomputes | findex/lib/findex/scheduler.ex:273-334 | The incremental rerank fails exactly when some pending task cannot be ranked on the new data, and otherwise equals reevaluating every task; only tasks that read a changed key carry the new revision |
| Schedulers.Scheduler.PutDataRecomputes | findex/lib/findex/scheduler.ex:135-163 | put_data, with one key or many, equals full recomputation on the updated data |
| Schedulers.Scheduler.DeleteDataRecomputes | findex/lib/findex/scheduler.ex:165-173 | delete_data equals full recomputation without the key |
| Schedulers.Scheduler.PopInv | findex/lib/findex/scheduler.ex:175-203 | pop takes the last queue entry, which is a pending task, removes just it, and is empty exactly when no task is pending |
| Schedulers.Scheduler.PopManyInv | findex/lib/findex/scheduler.ex:205-271 | pop_many keeps the invariant, data and ranker; the tasks that remain, with all they hold, are exactly those not in its result |
| Schedulers.Scheduler.PopManyIsFirstOfTheSort | findex/lib/findex/scheduler.ex:205-271 | pop_many(n) yields the first n of the sort by rank descending, ties by first insertion, and nothing else |
| Schedulers.Scheduler.PopManyDescends | findex/lib/findex/scheduler.ex:205-271 | From one popped task to the next the rank does not grow: of two integers the larger is popped first, and equal ranks come in the order in which the tasks were first inserted |
| Schedulers.Scheduler.PopManyLeavesTheLowest | findex/lib/findex/scheduler.ex:205-271 | No task that is left outranks, or with an equal rank was inserted before, one that was popped |
| Schedulers.Scheduler.EveryRunIsFresh | findex/lib/findex/scheduler.ex:84-271 | After any sequence of calls on a new scheduler every cached rank and dependency set is that of a fresh evaluation, and queue, tasks and dependents agree |
| StoreModel.Store.PublishShape | findex/native/findex_store.c:1165-1226 | Publishing keeps the tree shape: the reserved range is new, contiguous, below the sentinel, and belongs to its parent alone |
| StoreModel.Store.AppendKeepsJournal | findex/native/findex_store.c:1216-1223 | Journalling a directory that was pending keeps the journal free of repeats and parents before children |
| StoreModel.Store.PublishCounts | findex/native/findex_store.c:1216-1223 | Publishing keeps the counters those of the records: published, entries, and the directory count by child ranges |
| StoreModel.Store.FailJournal | findex/native/findex_store.c:1466-1490 | Failing a pending directory keeps the journal order |
| StoreModel.Store.EveryRunKeepsInv | findex/native/findex_store.c:1165-1490 | Over every interleaving of publications and failures, refused ones included: parents below children, child ranges that partition the IDs from 1 on, no sentinel ID, one journal place a terminal directory behind its parent, counters that agree; the journal only grows at its end |
| StoreModel.Store.TerminalIsFinal | findex/native/findex_store.c:1178-1189 | A directory has at most one terminal transition, and its record never changes after it |
| StoreModel.Store.PathIsInjective | findex/native/findex_store.c:1030-1085 | The rows that lead to a directory determine its ID: the tree has no two directories at one path |
| StoreModel.Store.SplitReadIsGenuine | findex/native/findex_store.c:1505-1530 | A journal page copied in a second critical section is the slice that the first one counted, whatever was appended between |
| StoreModel.Store.CursorsReplayTheJournal | findex/native/findex_store.c:1493-1544 | Chained cursors replay the journal without gap or repeat, with appends between and within reads |
| IndexStores.IndexStore.constructor | findex/native/findex_store.c:961-1011 | A new store is the abstract store with a pending root |
| IndexStores.IndexStore.EnsureDirectories | findex/native/findex_store.c:207-253 | It succeeds exactly if the IDs stay in 32 bits and one allocation for each missing segment, and one if the table must double, succeed; then table and segments cover the required records; contents stay |
| IndexStores.IndexStore.EnsureCompletions | findex/native/findex_store.c:255-284 | It succeeds exactly if the journal has room or one allocation succeeds; the doubled array keeps its contents |
| IndexStores.IndexStore.ReserveChildren | findex/native/findex_store.c:1195-1214 | The records of the reserved range are written across segment borders as the children of the abstract store |
| IndexStores.IndexStore.Publish | findex/native/findex_store.c:1165-1226 | The locked publication on segments and arrays is the abstract publication, and returns the first new ID; out of memory is reported exactly if the IDs run out or fewer allocations succeed than the missing segments, table and journal need |
| IndexStores.IndexStore.Fail | findex/native/findex_store.c:1454-1491 | The locked failure is the abstract one; out of memory is reported exactly if the journal is full and its allocation fails |
| IndexStores.IndexStore.CountCompleted | findex/native/findex_store.c:1505-1516 | The first section of a journal read counts what the cursor has left, or rejects a cursor past the end |
| IndexStores.IndexStore.CopyCompleted | findex/native/findex_store.c:1518-1534 | The second section copies that many journal entries from the grown array; it fails exactly if there are some and no memory |
| IndexStores.IndexStore.NameIsComponent | findex/native/findex_store.c:614-638 | Every directory but the root has a name in the bounds of its parent's storage that is one valid path component |
| IndexStores.IndexStore.NamesAreAlongThePath | findex/native/findex_store.c:1064-1085 | The component at each depth is the name, in the block of the directory at that depth, of the row that the path takes there, and a valid path component |
| IndexStores.IndexStore.CountComponents | findex/native/findex_store.c:1030-1042 | The walk to the root ends and counts the components; it never finds the tree invalid |
| IndexStores.IndexStore.ComponentsOf | findex/native/findex_store.c:1013-1085 | Opening a directory is refused exactly if the ID is unknown, the root is not open, or there is no memory for the names, in this order; otherwise it gets the names of the rows along its path, deepest first, and never an invalid tree |
| IndexStores.IndexStore.Fetch | findex/native/findex_store.c:1547-1634 | A fetch returns the directory of the abstract store, and never an invalid tree; without memory it is refused exactly if the directory has a batch |
| IndexStores.IndexStore.FetchTells | findex/native/findex_store.c:1547-1634 | A fetch tells a directory's own state, parent, error, batch and children, and as its name that of its own row in its parent's block |
| IndexStores.IndexStore.FetchedChildrenLinkBack | findex/native/findex_store.c:1592-1606 | The children a fetch lists are exactly the directories that name this one as parent, each at its row |
| IndexStores.IndexStore.PendingCount | findex/native/findex_store.c:1636-1699 | The pending count of the statistics is the number of pending directories: its unsigned subtraction never wraps |
| Bytes.PackKeepsBits | findex/native/findex_store.c:419-425 | A bitmap packed from bits reads back bit by bit, with clear bits past the end |
| Bytes.PackOneMore | findex/native/findex_store.c:570-586 | Setting the next bit in place is appending it to the packed list, on whatever byte border |
| Bytes.U32RoundTrip | findex/native/findex_store.c:548-562 | A 32-bit number written anywhere in a buffer reads back |
| Blocks.SpanIsProduct | findex/native/findex_store.c:378-388 | The cell-by-cell size of a column is width times count |
| Blocks.ReferenceMoves | findex/native/findex_store.c:544-565 | A rebased reference names the same bytes in the joined storage as the original in its batch |
| Blocks.ConsolidatedChildren | findex/native/findex_store.c:427-434 | The child row numbers of a block read back as given |
| Blocks.ConsolidationPreservesMeaning | findex/native/findex_store.c:390-434 | Decoding any field of any row from the block gives what its source batch gives at the shifted row, across unaligned bitmaps and rebased references |
| Blocks.EveryRowIsFromABatch | findex/native/findex_store.c:512-595 | Every row of a block is the row of some batch |
| Blocks.ValidBlockIsPublishable | findex/native/findex_store.c:640-705 | A validated block has distinct child rows inside it, each with an in-bounds valid name |
| BlockBuilder.AppendReference | findex/native/findex_store.c:544-565 | One reference is checked against its batch and copied with its offset moved, and no other byte changes |
| BlockBuilder.WriteReferences | findex/native/findex_store.c:540-566 | A reference column is copied as the rebased column, or stops at the first reference that does not fit |
| BlockBuilder.OrBits | findex/native/findex_store.c:570-588 | Merging a bitmap at any row offset adds exactly its valid rows |
| BlockBuilder.FillFields | findex/native/findex_store.c:520-592 | Column by column the buffer becomes storage, columns and bitmaps in layout order |
| BlockBuilder.Measure | findex/native/findex_store.c:455-505 | The sizes are checked without overflow: success means packed batches and totals below 32 bits |
| BlockBuilder.ValidateChildren | findex/native/findex_store.c:648-676 | The seen-bitmap check accepts exactly distinct rows in range |
| BlockBuilder.ValidateBlock | findex/native/findex_store.c:640-705 | Validation accepts exactly the blocks whose children are distinct rows with valid names |
| BlockBuilder.Build | findex/native/findex_store.c:443-612 | The in-place builder returns the consolidated block exactly when it fits and validates, else the reason it failed |
| ScanBuilder.MeasureScan | findex/native/findex_store.c:715-728 | The fused scan's batches are added up without a look at their columns: success means totals below 32 bits |
| ScanBuilder.FillScannedField | findex/native/findex_store.c:776-829 | One field is filled batch by batch, up to the first batch that lacks its column or bitmap or holds a reference that does not fit |
| ScanBuilder.BuildFromScan | findex/native/findex_store.c:707-843 | The builder of the fused scan checks fields and entry count, allocates, and only then finds missing columns; its block is the consolidated one, validated |
| ScanBuilder.BuildersAgree | findex/native/findex_store.c:443-843 | For structs of any shape the two builders give one answer exactly if there is memory, or every batch is packed, or the totals are too large |
| ScanBuilder.BuiltAlike | findex/native/findex_store.c:707-843 | A block built from a scan is the one the term-list builder makes of the same batches |
| Formats.BitsMakeTheNumber | findex/native/findex_store.c:570-586 | Bit k of a number stands for 2^k: every number is the sum of its bits |
| Formats.WidthsAreThese | findex/native/findex_common.c:208-267 | The packed width of each field |
| Formats.ValueIsInTheBytes | findex/native/findex_store.c:378-425 | Where in a block's bytes the value of each field and row lies, which bit says whether there is one, and how names and access control lists refer to the storage |
| Formats.ChildRowsAreWords | findex/native/findex_store.c:427-434 | The child rows are the 32-bit words at the end of the block |
| Formats.ValidExactly | findex/native/findex_store.c:640-705 | A block is valid exactly if its child rows differ, each has a name, no error and the directory type if types are kept, and every name is one path component |
| FusedScans.ScanFill | findex/native/findex_directory.c:1043-1162 | One fill of the native scan adds the walked batch behind those before it and counts it, or ends the scan for the reason the code gives |
| FusedScans.ScanDirectory | findex/native/findex_directory.c:1043-1162 | A scan ends exactly as its fills say: with the first fill that fails, for that reason, or complete; then its batches are the walks of all fills up to the first without records, and its counters and children those of their rows |
| KernelBuffers.EntriesAreTheRecords | findex/native/findex_directory.c:1125-1147 | In a buffer of records that each say their size, whatever is behind the last, entry i is that of record i |
| KernelBuffers.ScansExactly | findex/native/findex_directory.c:1043-1162 | A scan succeeds exactly if every fill before its end has no more records than fit, memory, and records that are all accepted, and all entries are below 2^32 |
| FusedScans.ScannedErrorsHaveNoType | findex/native/findex_directory.c:1043-1162 | No row of a scan has both an error and a type |
| FusedScans.ScansArePacked | findex/native/findex_directory.c:411-464 | Every batch of a scan is packed: each requested field has its column and bitmap |
| FusedScans.ScansAreBuiltAlike | findex/native/findex_store.c:443-843 | So the two builders give one answer on every scan, whatever the allocations do |
| FusedScans.StoredRowsAreScanned | findex/native/findex_store.c:1363-1400 | The rows of the block that a scan publishes, read back, are the rows its counters and children were taken from |
| FusedScans.RowFromValues | findex/native/findex_directory.c:948-1026 | A row is counted by the values of its type, error and mount status fields |
| StoreLinks.NativeStoreStandsFor | findex/native/findex_store.c:1165-1491 | Over any publications and failures, refused ones included, the store of blocks and the store of listings that the coordinator is proved on stay alike: same parents, rows, states, journal and counters, and the rows of each block are those of its listing |
| StoreLinks.ScanShowsListing | findex/native/findex_store.c:1363-1400 | If a scan met the rows of a listing, its block, entry count and child rows are what the coordinator publishes for the listing |
| StoreLinks.OpenedAsScanned | findex/native/findex_store.c:1064-1085 | The name under which a directory is opened is the name in the record that the scan of its parent met at that row |
| StoreLinks.StoredSizesAreScanned | rust_client/backend/lib/findex_rust/bridge.ex:667-751 | The types and sizes that a summary reads from the stored block are those of the scanned batches, row by row |
| StoreLinks.ReportAndSummaryAgree | rust_client/backend/lib/findex_rust/bridge.ex:667-751 | The regular files that the coordinator counts in a directory are as many as the bins of its summary hold |
| BlockBuilder.BuiltPreservesMeaning | findex/native/findex_store.c:443-843 | Whenever a builder succeeds, every field of every row reads as in its batch |
| BlockBuilder.BuiltIsPublishable | findex/native/findex_store.c:640-705 | A built block meets what publication relies on |
| BitCounts.PopCountIsOnes | findex/lib/findex/batch.ex:342-346 | Folding pairs, nibbles and bytes in place counts the set bits of every byte |
| BitCounts.ValidCountIsReadable | findex/lib/findex/batch.ex:90-93 | valid_count, a byte at a time with a masked last byte, is the number of rows in which the field has a value |
| RecordLayouts.AttributesAreInPlace | findex/native/findex_directory.c:1182-1743 | In every accepted record: the entry has a field exactly if its attribute was asked for and returned, and its value is what lies behind all attributes asked for that have a lower bit of `<sys/attr.h>` in its group or are of an earlier group |
| RecordLayouts.HeaderIsInPlace | findex/native/findex_directory.c:1182-1260 | Where the returned set, the error and the name of a record are, and what they mean |
| RecordLayouts.ValuesAreRead | findex/native/findex_directory.c:116-147 | What the kernel writes for a value, by the C type of the attribute, is read as that value: numbers, seconds and nanoseconds, filesystem IDs, object types |
| RecordLayouts.EntryIsWhatWasWritten | findex/native/findex_directory.c:1182-1743 | So where the kernel wrote a value for an attribute that it returned, the entry has that value |
| RecordLayouts.AskedIsRequested | findex/native/findex_directory.c:149-356 | The attributes asked for are exactly those of the fields requested, in every group that has them, and the type as soon as a field depends on it |
| RecordLayouts.AcceptedExactly | findex/native/findex_directory.c:1182-1743 | A record is accepted exactly if only attributes asked for are returned, it has a name or an error, and, without an error, all attributes asked for and the access control list fit in it and the type is known where it is needed |
| RecordLayouts.PackedTypes | findex/native/findex_directory.c:492-511 | The one-byte code of each object type |
| Entries.ConfiguredIsConsistent | findex/native/findex_directory.c:322-356 | Whatever fields are asked for, every requested attribute belongs to a requested field, but for the implied object type; the fork count is never asked for |
| Entries.CellsDecode | findex/lib/findex/batch.ex:170-238 | Every fixed-size attribute, packed and decoded by field, is the term the direct decoder makes: widened devices, type codes, signs |
| Entries.ReferenceReads | findex/native/findex_directory.c:478-490 | A reference moved from its record to the scan buffer reads the same bytes there |
| Entries.FieldInStep | findex/native/findex_directory.c:585-856 | One attribute: both decoders reject, skip or accept it alike, at the same position, with the same meaning |
| Entries.HeaderInStep | findex/native/findex_directory.c:585-646 | Returned attributes, error and name agree; the error agrees exactly if it is below 2^31 |
| Entries.PackedRefinesDirect | findex/native/findex_directory.c:585-856 | For every record and configuration both decoders accept or reject together, and every cell reads as the entry's field, exactly up to error numbers from 2^31 on |
| Entries.LargeErrorTurnsNegative | findex/native/findex_directory.c:1206-1208 | A concrete record on which they part: the entry's error is -1, the row's 4294967295 |
| RecordWalks.StoredRow | findex/native/findex_directory.c:466-476 | Storing a cell adds it to its row and leaves every other row of every column as it was |
| RecordWalks.Columns.constructor | findex/native/findex_directory.c:411-464 | Fresh columns hold no value in any row |
| RecordWalks.Columns.Store | findex/native/findex_directory.c:466-476 | A cell is written only if the field has a column of its width; nothing but its row changes |
| RecordWalks.Columns.StoreReference | findex/native/findex_directory.c:478-490 | A reference is stored moved to the buffer, or rejected if it does not fit |
| RecordWalks.Columns.ReadField | findex/native/findex_directory.c:567-579 | An attribute asked for takes its place in the record, and is stored if returned |
| RecordWalks.Columns.ReadHeader | findex/native/findex_directory.c:592-646 | The header is accepted exactly as specified, and its cells are in the row |
| RecordWalks.Columns.ReadBody | findex/native/findex_directory.c:648-856 | Attributes in record order; the object type picks the directory or the file attributes |
| RecordWalks.Columns.ParseEntry | findex/native/findex_directory.c:585-856 | One record becomes one row, no other row is disturbed, also when it is rejected half way |
| RecordWalks.WalkRecord | findex/native/findex_directory.c:1125-1147 | A record's size is checked against the buffer before its attributes are read |
| RecordWalks.Walk | findex/native/findex_directory.c:1093-1162 | A buffer becomes a batch exactly when the direct decoder accepts each record, and then every field of every row reads as in its entry |
| RecordWalks.PublishedReadsEntry | findex/native/findex_store.c:707-843 | From kernel record to published block: the stored row reads as the record's entry |
| RecordWalks.ErrorsHaveNoType | findex/native/findex_directory.c:640-642 | A record with an error leaves no type |
| RecordWalks.WalkedErrorsHaveNoType | findex/native/findex_directory.c:948-1031 | So the rows a scan counts never have both an error and a type, which conservation relies on |
| Counts.TotalIncrement | findex/lib/findex/indexer.ex:624-624 | Incrementing one count raises the total by one |
| Counts.TotalMerge | findex/lib/findex/indexer.ex:620-622 | Merging two count maps adds their totals |
| Scan.CountsEveryRow | findex/native/findex_directory.c:948-1031 | Every row is counted as an entry |
| Scan.CountsErrors | findex/native/findex_directory.c:924-946 | The error counts by number sum to the metadata errors |
| Scan.CountsAreConserved | findex/native/findex_directory.c:948-1031 | entries = directories + regular + symlinks + other, and each directory row is a child or a skipped mount |
| Scan.CountersCount | findex/native/findex_directory.c:948-1026 | Each counter is the number of rows it is for: by type code, with an error, or a directory that is not entered for its mount status |
| Scan.ErrorNumbersCount | findex/native/findex_directory.c:924-946 | The count of an error number is the number of rows with that error |
| Scan.ChildrenAreEntered | findex/native/findex_directory.c:994-1026 | The children are exactly the rows of directories without an error that are neither mount points nor automount triggers, where these matter, in row order |
| Scan.ChildrenAreTraversableRows | findex/native/findex_directory.c:994-1026 | The children are exactly the traversable directory rows under the mount policy, each once, in row order |
| Scan.ChildRowsAreValid | findex/native/findex_directory.c:994-1026 | So a scan's child rows are distinct and in range |
| DirectoryScans.DirectoryScan.RecordError | findex/native/findex_directory.c:924-946 | An error is counted in its slot, or in a new one |
| DirectoryScans.DirectoryScan.AnalyzeRow | findex/native/findex_directory.c:960-1026 | One row updates the counters in place as the row count says |
| DirectoryScans.DirectoryScan.Analyze | findex/native/findex_directory.c:948-1031 | A batch is counted behind those before it, row numbers shifted, or refused whole on missing columns or overflow |
| Coordinators.Coordinator.ScanAndPublishOk | findex/lib/findex/indexer/worker.ex:52-81 | The native call publishes what the filesystem lists at the task's path, or leaves the store alone and says why |
| Coordinators.Coordinator.WorkerRunsInv | findex/lib/findex/indexer/worker.ex:34-50 | A worker's native call keeps the invariant, whatever else is in flight |
| Coordinators.Coordinator.WorkerDiesInv | findex/lib/findex/indexer.ex:317-332 | So does a worker's death at any point outside the call |
| CoordinatorSteps.DispatchAndFinishInv | findex/lib/findex/indexer.ex:361-389 | Dispatching keeps the invariant: a run goes on only with a task in flight, and completes only with nothing pending |
| CoordinatorSteps.HandleCore | findex/lib/findex/indexer.ex:391-449 | Handling a result keeps store, tasks in flight and counters in agreement: each directory is counted once, each failure once by category and by reason |
| CoordinatorSteps.DownWhileRunning | findex/lib/findex/indexer.ex:317-332 | A worker's death while running keeps the invariant: what it held is pending, counted, or known to be lost |
| CoordinatorSteps.DownWhileStopping | findex/lib/findex/indexer.ex:508-533 | A death during shutdown keeps it too, down to the last worker, when the run finishes with nothing in flight |
| CoordinatorSteps.DeliverInv | findex/lib/findex/indexer.ex:300-332 | Receiving any message in any mode keeps the invariant |
| CoordinatorSteps.PutRankDataInv | findex/lib/findex/indexer.ex:262-299 | A live change of rank data moves no task |
| CoordinatorSteps.HandleIsSettle | findex/lib/findex/indexer.ex:535-574 | During shutdown a result is stored and counted just as while running; only nothing is scheduled |
| Dispatches.DispatchIsPopMany | findex/lib/findex/indexer.ex:363-389 | Dispatching pops as many tasks as there are idle workers, or all, and the first idle worker gets the first of them, and so on; nothing else changes hands |
| Dispatches.RankDataTakeEffect | findex/lib/findex/indexer.ex:274-283 | New rank data are in place at once and idle workers get the highest of the new ranks, or, exactly if the ranking function raises for a queued task, nothing changes |
| Dispatches.StartsWithAllWorkers | findex/lib/findex/indexer.ex:488-506 | A run starts with the number of workers asked for, the root directory with one of them and the others idle, unless the root cannot be ranked |
| Dispatches.AbortsExactly | findex/lib/findex/indexer.ex:300-429 | A running coordinator aborts exactly on the death of a worker, a fatal error, a failed store call, and children that the ranking function cannot rank |
| CoordinatorRuns.StartInv | findex/lib/findex/indexer.ex:244-255 | A started coordinator satisfies the invariant |
| CoordinatorRuns.EveryReachableStateInv | findex/lib/findex/indexer.ex:300-389 | Whatever ranks, dispatch, publication, delivery, rank changes, deaths and shutdown: the invariant holds in every reachable state |
| CoordinatorRuns.NeverStuck | findex/lib/findex/indexer.ex:300-389 | Until it has finished, some worker or the coordinator can move on its own |
| CoordinatorRuns.PendingIsInOnePlace | findex/lib/findex/indexer.ex:361-398 | While running, a pending directory is in exactly one of the queue, an unpublished task in flight, and a published parent's undelivered result; no two workers hold one directory |
| CoordinatorRuns.TerminalNeverChanges | findex/lib/findex/indexer.ex:391-429 | A directory that left the pending state keeps its record in every later state, so none is scanned into the store twice |
| CoordinatorRuns.FinishedNeverWrites | findex/lib/findex/indexer.ex:451-486 | A finished coordinator stays finished and never writes the store |
| CoordinatorRuns.FinishedIsFinal | findex/lib/findex/indexer.ex:451-486 | The same over any further events |
| Terminations.RecordsFitClosure | findex/lib/findex/indexer/worker.ex:52-81 | A store never has more directories than the reachable closure |
| Terminations.NextSpends | findex/lib/findex/indexer.ex:300-389 | Every step of a worker or of the coordinator spends from the budget of four for each directory still to come and what the workers hold; rank changes never raise it |
| Terminations.EveryRunIsBounded | findex/lib/findex/indexer.ex:300-389 | However long a run and however often ranks change, at most 4 steps for each directory of the closure and 2 for each worker happen: there is no endless run |
| Terminations.EveryStateCanFinish | findex/lib/findex/indexer.ex:361-389 | Every reachable state can be brought to its end by workers and coordinator alone |
| CleanRuns.RoomForChildren | findex/native/findex_store.c:1191-1196 | A pending directory's children always fit beside the stored directories, so a closure within the ID range never runs out of IDs |
| CleanRuns.FineIsHandled | findex/lib/findex/indexer.ex:391-429 | A result that is neither fatal nor a store error keeps the run going, if the ranking function does not raise on the rank data there is |
| CleanRuns.RunStaysOnTrack | findex/lib/findex/indexer.ex:300-389 | A run without fatal errors, failed allocations and deaths never aborts, if ranks do not raise on a set of rank data that the run stays in |
| CleanRuns.CleanRunsEndWithTheClosure | rust_client/README.md:134-136 | Such a run, under every such ranking, rank change, worker count and interleaving, is never stuck, takes a bounded number of steps, and when it finishes has succeeded with exactly the reachable closure |
| CleanRuns.RequiredKeysAreNeverMissing | findex/lib/findex/scheduler.ex:13-22 | A ranking function may read any key of the initial rank data without a default: rank data never loses a key, so such runs end the same way |
| Reports.SuccessVisitsTheClosure | findex/lib/findex/indexer.ex:361-389 | A successful run has visited exactly the paths of the reachable closure under the mount policy |
| Reports.SuccessIsTheClosure | findex/lib/findex/indexer.ex:361-429 | Its paths, states and rows are those of the closure |
| Reports.RunsAgree | findex/lib/findex/indexer.ex:361-429 | Two successful runs over one filesystem hold the same directories, states and rows, up to IDs |
| Reports.ReportIsConserved | findex/lib/findex/indexer.ex:576-618 | In every finished run the report adds up, and is short of the store by exactly the directories whose worker died between publishing and reporting; failure counts by category and by reason each sum to the failed directories |
| Reports.CompleteIsClean | findex/lib/findex/indexer.ex:576-603 | A finished run calls itself complete exactly when every directory of the closure reads without any error |
| ReportMaps.EveryRunKeepsMaps | findex/lib/findex/indexer.ex:391-429 | In every run each count map, error numbers, failure categories and reasons, holds under each key the sum over the directories counted, and no key without a count |
| Reports.MapsAgree | findex/lib/findex/indexer.ex:576-618 | Two successful runs report the same count maps of errors by number and failures by reason; by category too if both classify reasons alike |
| Reports.ReportsAgree | findex/lib/findex/indexer.ex:576-618 | Whatever quantity of the report, totals and entries of its maps, it is the same in two successful runs |
| Reports.SuccessfulRunsAgree | rust_client/README.md:134-136 | Order independence from the start: any rank function, rank data, worker count and event sequence, if it succeeds, ends with the closure and the same report, its count maps included |
| Wire.BigEndianRoundTrip | rust_client/src/wire.rs:267-277 | Big-endian numbers read back |
| Wire.LittleEndianRoundTrip | rust_client/src/wire.rs:279-292 | So do the little-endian digits of a big integer |
| Wire.UnsignedRoundTrip | rust_client/src/wire.rs:267-277 | A non-negative integer decodes to Signed from 256 to 2^31-1 and to Unsigned otherwise |
| Wire.SignedRoundTrip | rust_client/src/wire.rs:219-232 | A signed integer decodes to its canonical form, down to the smallest big integer |
| Wire.AtomRoundTrip | rust_client/src/wire.rs:294-304 | nil, null, true and false decode to Null and Bool, other atoms to themselves, in both length forms |
| Wire.EncodingTakesBytes | rust_client/src/wire.rs:414-420 | A collection is never longer than its encoding |
| Wire.RoundTrip | rust_client/src/wire.rs:211-458 | Wherever the encoding of a value within the length limits and nesting 128 lies in a payload, decoding there consumes exactly it and returns the canonical form |
| Wire.DeepIsRefused | rust_client/src/wire.rs:327-330 | The encoding of a value nested deeper is refused as too deep, wherever it lies |
| WireForms.EveryFormIsRead | rust_client/src/wire.rs:327-458 | Every form of a term, by whomever it was written: old and new atoms, strings of small integers, both sizes of tuples and big integers: decoding it consumes exactly its bytes and gives what it means |
| WireForms.OnlyFormsAreRead | rust_client/src/wire.rs:327-458 | Whatever is decoded was one of these forms, of just that meaning, within the length, 64-bit and nesting limits |
| FrameForms.EveryFrameIsRead | rust_client/src/wire.rs:179-209 | A frame of magic, version, big-endian length and a term within both limits is read as what the term means, whatever follows |
| FrameForms.OnlyFramesAreRead | rust_client/src/wire.rs:179-209 | Whatever is read was such a frame |
| FrameForms.ReadPayload | rust_client/src/wire.rs:306-319 | The decoder accepts a payload exactly if it is the byte 131 and one readable form, and gives what that means |
| FrameForms.EncodingIsAForm | rust_client/src/wire.rs:211-265 | What the encoder writes is one of the forms, and means the canonical form of the value |
| Json.FrameRoundTrip | rust_client/src/wire.rs:157-209 | A written frame is read back, whatever follows, exactly when its payload is at most 64 MiB and its value is nested at most 128 deep, and which error it is otherwise |
| Json.DeepFrameIsNotRead | rust_client/src/wire.rs:157-209 | A frame that is written and not read: a list in 129 levels, in 776 bytes |
| Json.LongFrameIsNotRead | rust_client/src/wire.rs:157-209 | Another one: a binary of 64 MiB |
| Json.FromJsonTyped | rust_client/src/wire.rs:59-86 | Values made from JSON can be encoded |
| Json.JsonSurvives | rust_client/src/wire.rs:59-141 | from_json, canonical form, into_json is the identity on JSON, encoded binaries included |
| Json.JsonFrameRoundTrip | rust_client/src/wire.rs:59-209 | JSON through from_json, write_frame, read_frame and into_json is unchanged exactly if its payload is at most 64 MiB and nested at most 128 deep |
| JsonMeanings.JsonIsMeant | rust_client/src/wire.rs:88-141 | Every value, whoever wrote it, becomes JSON exactly if its floats are finite and the keys of each map are different texts, and then it becomes what it stands for, atoms, tuples and bytes that are no text included |
| JsonMeanings.Base64Decodes | rust_client/src/wire.rs:129-141 | Bytes that are no text are encoded so that decoding gives them back |
| WireMachines.Output.Digits | rust_client/src/wire.rs:279-292 | The loop over the magnitude yields its little-endian digits, and one zero for zero |
| WireMachines.Output.Put | rust_client/src/wire.rs:211-265 | Pushing into the vector appends exactly the encoding |
| WireMachines.Decoder.TakeBytes | rust_client/src/wire.rs:487-498 | The position never passes the end of the payload |
| WireMachines.Decoder.ReadBig | rust_client/src/wire.rs:434-458 | The bytes of a big integer become its value, or one that is out of range is rejected |
| WireMachines.Decoder.ReadValue | rust_client/src/wire.rs:327-394 | On every byte string the moving decoder ends, inside the payload, with what the positional definition says; room is only reserved for as many elements as bytes are left |
| WireMachines.Decoder.ReadAll | rust_client/src/wire.rs:396-412 | A sequence is read element by element, up to the first error |
| WireMachines.Decoder.ReadEntries | rust_client/src/wire.rs:371-385 | So are the pairs of a map |
| Bridges.Bridge.EveryRequestIsAnsweredInOrder | rust_client/backend/lib/findex_rust/bridge.ex:92-359 | For every interleaving of requests and waiters' replies the responses are those of the requests taken, one each and in order |
| RepliesOnTheWire.RepliesFollowTheOutput | rust_client/backend/lib/findex_rust/bridge.ex:153-483 | In every run what the bridge writes next is told by what it has written: each request gets the outcome that is due to it, new indexes are numbered 1, 2, 3, …, and an index that is live and has no completion gets it when its waiter replies or it is awaited |
| Bridges.Bridge.EveryRunIsInStep | rust_client/backend/lib/findex_rust/bridge.ex:361-483 | In every run the bridge knows of each index exactly what its output says |
| Bridges.Bridge.CompletionIsEmittedOnce | rust_client/backend/lib/findex_rust/bridge.ex:326-483 | scan_finished of an index is written at most once, after its start response and never after its release response |
| Bridges.NoSecondEnd | rust_client/backend/lib/findex_rust/bridge.ex:463-483 | In such an output no completion of an index follows its release or its completion |
| Clients.Spawn | rust_client/src/client.rs:51-100 | A client starts exactly if the first frame is the ready event of this protocol version, with no request issued, nothing set aside and nothing delivered |
| Clients.Client.ReadUntil | rust_client/src/client.rs:342-347 | Completion events are set aside in order up to the first other frame or the awaited one |
| Clients.Client.RequestValue | rust_client/src/client.rs:333-371 | A request is answered by the first frame that is no completion event; all before it are queued; mismatched IDs, errors and other frames are told apart |
| Clients.Client.Request | rust_client/src/client.rs:314-371 | Over any calls the IDs issued are 0, 1, 2, …, each once, up to 2^64-2, after which requests fail unsent; while answers come in the order of the requests, each request reads the answer meant for it and never a mismatched ID |
| Clients.Client.TakeIndexEvent | rust_client/src/client.rs:437-443 | The oldest queued completion of an index is removed, and no other |
| Clients.Client.AwaitScan | rust_client/src/client.rs:236-247 | Returns the queued completion, or the next to arrive while those of other indexes are queued |
| Clients.Client.ReleaseIndex | rust_client/src/client.rs:250-268 | Releasing discards the queued completion of that index only, and only when the bridge confirmed it under the release's own ID |
| Clients.NeitherLostNorRepeated | rust_client/src/client.rs:236-443 | Against any run of the bridge and any calls: no completion is delivered twice, one that was read is queued or delivered until its index is released, and nothing is left to deliver after that |
| JointRuns.Joint.EveryJointRunInv | rust_client/src/client.rs:314-371 | In one run of client and bridge, in which the client's writes are the bridge's requests: what is written, answered and read stays in step, in every interleaving |
| JointRuns.Joint.NeitherLostNorRepeatedJointly | rust_client/src/client.rs:236-443 | In every joint run no completion is delivered twice, one that was read is queued or delivered until its index is released, and after that none is left or still to come |
| JointRuns.Joint.EveryReplyIsItsOwn | rust_client/src/client.rs:333-371 | In every joint run each request reads just one reply, its own; anything else needs an input that failed |
| RepliesOnTheWire.EveryReplyIsAsWritten | rust_client/src/client.rs:333-371 | In every joint run the client's replies are the responses it has read, one by one, with the outcomes that were written |
| JointRuns.Joint.RequestsGetOn | rust_client/src/client.rs:333-371 | While the bridge is open a request is never stuck: there is a frame to read or a request to take |
| JointRuns.Joint.CallIsReading | rust_client/src/client.rs:333-371 | The reads of a joint run do to the client what its calls do on the frames read |
| Clients.TheNextResponseIsMine | rust_client/src/client.rs:349-355 | A client answered in order never takes another request's response |
| Clients.BridgeAnswersInOrder | rust_client/backend/lib/findex_rust/bridge.ex:92-359 | A bridge that takes the requests such a client numbers answers them in that order, whatever part of its output has arrived |
| Pages.PagesCoverTheDirectory | rust_client/backend/lib/findex_rust/bridge.ex:550-592 | Page after page every row comes once and in order, with the child directory it names |
| Pages.PageIsBounded | rust_client/backend/lib/findex_rust/bridge.ex:550-592 | A page begins at its offset, holds at most as many rows as asked for, and fewer only where the directory ends; an offset behind the end is an error |
| SizeTrees.SizeTree.Link | desktop/src/app.rs:171-179 | A link is recorded once, adds the child to its parent's list once, and marks the parent; a second parent is ignored |
| SizeTrees.SizeTree.AddBytes | desktop/src/app.rs:182-195 | Bytes reach the node and its ancestors up to the depth bound, cycles included, and every list that may be out of order is marked |
| SizeTrees.SizeTree.FinishBatch | desktop/src/app.rs:200-208 | At the end of a batch every marked child list has been sorted by descending size, every mark is cleared, and nothing else has changed |
| SizeTrees.SortIsStable | desktop/src/app.rs:204-205 | Children of equal size keep their order, whatever the sort moves |
| SizeTrees.SizeTree.ChildrenBySize | desktop/src/app.rs:517-521 | The front of a settled list is exactly the children of positive size, in descending order |
| SizeTrees.SizeTree.AttachedIsConsistent | desktop/src/app.rs:171-179 | children(p) is the set of nodes whose parent is p, without duplicates, and unmarked lists are sorted |
| SizeTrees.SizeTree.BumpedIsConsistent | desktop/src/app.rs:185-193 | Growing a node keeps every unmarked list sorted, because its parent's list is marked |
| SizeTrees.LineageIsAncestry | desktop/src/app.rs:182-195 | The way of a node holds the node and its ancestors, and nothing else |
| SizeTrees.BumpedUpAt | desktop/src/app.rs:182-195 | On any parent relation, cycles included, each node gets the bytes once for each visit of the bounded walk, saturated |
| SizeTrees.BumpedUpSizes | desktop/src/app.rs:182-195 | In a tree exactly the last 512 nodes of the way get the bytes |
| SizeTrees.BytesReachTheRoot | desktop/src/app.rs:182-195 | One addition reaches the root exactly if the directory is at most 511 levels below it |
| SizeTrees.AddedIsPropagated | desktop/src/app.rs:182-195 | After any additions, repeated IDs, late links and cycles included, every node holds the saturated sum of what the walks gave it |
| SizeTrees.DirectorySizes.AddDirectory | desktop/src/app.rs:553-565 | The model's step of link, own bytes and propagation keeps that sum for every ID and parent, sets parent and own bytes as told, and leaves those of all other nodes |
| SizeTrees.AncestorChain | desktop/src/app.rs:612-624 | The chain climbs from parent to parent without a repetition until there is no parent, 512 nodes, or a cycle closes |
| SizeTrees.ChainOfLineage | desktop/src/app.rs:612-624 | In a tree it is the way from the root, or the last 512 nodes of it |
| Leaderboards.NoteLargestKeepsTop | rust_client/backend/lib/findex_rust/bridge.ex:759-779 | The bridge's list is always the k largest positive sizes offered, ascending |
| Leaderboards.TopFiles.Position | desktop/src/app.rs:672-679 | The bisection finds the first smaller size |
| Leaderboards.TopFiles.Merge | desktop/src/app.rs:672-683 | Merging one file keeps the 100 largest of all offered, descending |
| Leaderboards.TopFiles.MergeDirectory | desktop/src/app.rs:582-597 | Stopping at the first candidate below the cutoff loses nothing: the list is the top of all candidates, those not looked at included |
| WindowTops.ReversedDescends | rust_client/backend/lib/findex_rust/bridge.ex:655-658 | The bridge's ascending list, reversed, comes in the order that the early stop relies on |
| WindowTops.MergeAll | desktop/src/app.rs:582-597 | Directory by directory the window's list is the 100 largest of everything the summaries list |
| WindowTops.WindowTopIsExact | desktop/src/backend.rs:32-32 | It is the 100 largest files of the whole index exactly if each file beyond its directory's eight is outranked by 100 candidates |
| WindowTops.FewFilesAreExact | desktop/src/backend.rs:32-32 | So it is if no directory has more than eight non-empty files |
| WindowTops.NineFilesAreTooMany | desktop/src/backend.rs:32-32 | An input on which it is not: one directory with nine files |
| Summaries.BucketCovers | rust_client/backend/lib/findex_rust/bridge.ex:781-785 | Bucket 0 is for empty files, each later one for its power of two, the last open above |
| Summaries.SummaryIsExact | rust_client/backend/lib/findex_rust/bridge.ex:698-751 | A directory's summary: bytes of regular rows = bytes of its histogram, every regular row in one bin, and its largest files |
| Summaries.BinsAreExact | rust_client/backend/lib/findex_rust/bridge.ex:698-751 | Each bin holds the number and the bytes of the regular files from its power of two up to the next |
| Summaries.SizeHistogram.Merge | desktop/src/backend.rs:86-92 | Merging adds every bucket with saturation, in place |
| Drains.Drain.DriveIndex | desktop/src/backend.rs:232-287 | Every update carries the total and the histogram of all directories reported by then, its own included; Finished is sent only after every journal ID was summarized and reported exactly once, in journal order, with the total of all of them, and at the latest in the first due turn by which a batch a turn has covered the journal since a turn that saw the coordinator finished |
| Drains.BytesAreConserved | desktop/src/backend.rs:243-256 | The sizes of regular rows, the directory totals and the histogram add up to the same |
| Drains.NothingSaturates | desktop/src/backend.rs:243-256 | Below 2^64 the running total and each bucket are exact |
| Pipelines.SampledTurnsFollow | desktop/src/backend.rs:232-287 | Pages and statuses sampled from any run of the coordinator are such that the journal only grows, and stands still once finished, which the drain relies on |
| TreeFeeds.FillTree | desktop/src/app.rs:553-565 | Feeding any part of the journal of any store, of whatever depth, gives the tree the store's parents and every node the saturated bytes of the directories at or below it that are less than 512 levels down |
| TreeFeeds.SumIsRecursive | desktop/src/app.rs:114-114 | That is the recursive sum exactly if no directory with bytes is 512 or more levels below, or the number has saturated |
| TreeFeeds.RootHoldsTheTotal | desktop/src/backend.rs:251-253 | The root holds the total that the drain reports for the same directories, under that condition |
| TreeFeeds.DeepBytesAreMissed | desktop/src/app.rs:114-114 | A store on which it does not: 513 directories in a chain, the last with one byte |

## Left out

- System calls, the NIF interface, locks and message transport: records, listings, interleavings and allocation results are inputs of the model.
- Deferred store cleanup, destructors, process linking and a kill inside a running native call.
- Waiters of the coordinator, elapsed time, failure samples, the diagnostics of a fatal failure, and option parsing.
- The SIZE_MAX checks of the native code, which 32-bit counts and widths never reach.
- The Elixir term encoder; error number tables and the recoverable or fatal classification by errno, which is a parameter.
- UTF-8 validity is the byte table of RFC 3629; float contents are eight opaque bytes; base64 is the alphabet and padding of RFC 4648.
- The bridge's input ends, failed or not, in one event; a waiter that crashes, and an index whose indexer dies, are not modelled.
- Views, charts, themes, recording, throughput samples, recent and failed directory lists, names in the size tree and path text.
- Terms.CompareTransitive: improper lists, bitstrings that end inside a byte and the sign of zero are not among the terms.
- ScanBuilder.BuildFromScan: the lengths of a native batch's columns are those its allocation gave them; the builder has no lengths to check, and a wrong one is outside the model.
- IndexStores.IndexStore.ComponentsOf: whether the root is open and whether there is memory are inputs; duplicating the descriptor and opening the components are not modelled.
- Schedulers.ReaderTracks: a ranking function that reads without end never returns in the code either, and is not covered.
- FusedScans.ScanFill: one flag stands for the allocations before the walk and one for those after it, where a failing one ends the scan before it counts any row of the fill; the first buffer, retries after EINTR and larger buffers are not modelled.
- The byte counters of the statistics.
- IndexStores.IndexStore.Publish: one allocation counter stands for the failures of several allocators, and growth that stops half way is kept as the code keeps it.
- RecordWalks.Columns.Store: columns and bitmaps are buffers held in maps, not regions of one allocation, so aliasing between columns is not modelled.
- Entries.PackedRefinesDirect: terms of the entry map are compared field by field; the struct key and the map itself are not modelled.
- Clients.NeitherLostNorRepeated: the frames that will arrive are fixed in advance; `JointRuns.Joint.NeitherLostNorRepeatedJointly` states it where the client's own requests cause them.
- Coordinators.Coordinator.ScanAndPublishOk: a listing that changes while it is scanned, or between two runs, is outside the fixed filesystem.
- Terminations.EveryRunIsBounded: counts steps; how long a native call takes is outside the model.

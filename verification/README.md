# Plomvix storage, indexes and joins: a Dafny model

This project models the parts of Plomvix whose correctness is hardest to see by reading, and
proves what they promise.

* **The pager** (`internal/storage/pager`): a page file with two header copies, a free list on
  disk, and a write-ahead log. `Wal` and `WalReplay` say what a log means, even when it is cut or
  torn. `Disk` says what a crash may leave of the files: any subset of the unsynced page writes,
  each whole or torn, and any byte prefix of an unsynced log append (`Disk.CrashIff`). `CrashSafety`, `PagerSpec`
  and `PagerRecovery` prove what opening such files gives. `Pager` is the pager itself, a class
  that records every device state it passes through, so that its contracts speak about a crash at
  each of them. `PagerRuns` states the results for every run of calls, closing, opening and
  crashes.
* **The B+ tree** (`internal/engine/sql/kv`): `Tree`, `TreeInsert`, `TreeOps` and `TreeScan` treat
  the tree as a value and prove its invariants and that it refines a sorted slice (`SortedEntries`,
  and `SortedStore` for the in-memory store). `TreePages`, `NodeCodec`, `KvPages`, `KvSteps` and
  `KvSpec` bring it down to encoded pages and to the source's split propagation with pages
  allocated in advance. `BTree` is the store over the pager; `KvCrash` and `KvCreate` carry crash
  atomicity up to the map; `KvRuns` runs both stores side by side. `Overflow` is the chain of
  pages for values over 512 bytes.
* **Row keys and the versioned heap** (`internal/engine/sql/key`, `internal/engine/sql/heap`):
  `LexOrder`, `RowKey` and `RowRange` for keys and their ranges, `Bits` and `RowValue` for row
  values with their NULL bitmask. `HeapSpec` is one key's chain of versions; `HeapStore` is what
  the heap's calls do to an ordered store of encoded keys and values; `HeapChains` connects the
  two. `HeapRuns` proves what every history reads, `HeapExact` and `HeapSchemas` for exactly which
  keys and tables, and `HeapCalls` which calls a history accepts. `Heap` is the table with its
  loops.
* **Joins** (`internal/engine/sql/planner`): `JoinSpec` says what each join produces and how it
  ends, `JoinRows` what that is row by row, `JoinExact` when the two agree, and `Joins` holds the
  operators.
* **Metrics** (`internal/engine/metrics`): `GorillaSpec`, `GorillaStream` and `Gorilla` for compression
  into packed bytes, `MetricsCodec`, `MetricsSpec` and `Metrics` for the store and its tag index.
* **Formats**: `Layout` writes out the bytes of log records, pages, keys, rows and points, and which
  bytes read as such. `Picks` is the notion of an ordered selection that the scans share.

Imperative source code is modelled by classes and loops, proved against functions on values; the
properties are lemmas about those functions. Some properties one would expect are false of the
code. Each of these has a concrete input that shows it and the exact condition under which the
code does what is expected:

| expected | fails on | holds exactly when |
|---|---|---|
| allocation is crash-safe | `PagerRuns.ReuseCrashes` | `PagerSpec.AllocSafeIff`: the free list is empty; `PagerSpec.AllocMomentIff` for each device state |
| a file can be opened after FreePage | `PagerRuns.MirrorFreed` | `PagerSpec.FreeReopensIff`: the page is not the mirror header |
| every pager call is crash-safe | both of these | `PagerRuns.CallSafeIff`: it is neither of these |
| creating a file is crash-safe | `PagerRuns.TornCreation` | `PagerRuns.CreateSafeIff`: at every device state but the first |
| creating a store is crash-safe | `KvCreate.MetaLost` | `KvCreate.CreationSafeIff`: before the header counts the meta page or after the durable end marker |
| Set is crash-safe from its start | `PagerRuns.ReuseCrashes` | `KvCrash.SetTraced`: it takes no page off the free list |
| a torn log append is ignored | `Wal.ZeroTear` | `CrashSafety.TornLogOpensIff`: it is whole records and the start of one |
| rewriting a leaf keeps its values | `NodeCodec.RewriteKeepsIff` | `NodeCodec.RewriteKeepsIff`: they are inline |
| tree and slice give the same answers | `KvRuns.OpenScanDiffers` | `KvRuns.AnswersAgreeIff`: no scan without an end has a key to find |
| a value that Set accepts can be stored | `Overflow.LargestRefused` | `Overflow.StorableIff`: it is at least 8 bytes below 16 MiB |
| row keys decode to the row | `RowKey.ZeroByteIsLost` | `RowKey.RowRoundTripIff`: strings have no zero byte, a byte column is last |
| a prefix range holds the keys with the prefix | `RowKey.PrefixNotExact` | `RowKey.PrefixExactIff`: the prefix does not end in 0xFF |
| heap reads are the replay of the writes | `HeapSchemas.BytesKeyMisread`, `HeapSchemas.TwinExample` | `HeapExact.KeyReadsIff` for a key, `HeapSchemas.SchemaReadsIff` for a table: no byte column, and no fixed column between two strings |
| a call's answer follows the writes up to its ID | `HeapCalls.OldIdAccepted` | `HeapCalls.InsertIff`, `HeapCalls.UpdateIff`, `HeapCalls.DeleteIff`: the writes up to its ID or the vacuum horizon, whichever is higher |
| an interrupted Vacuum changes no read | `HeapSpec.DeletedRowReturns` | `HeapSpec.PartialVacuumIff`, `HeapChains.InterruptedIff`: it does not stop between a tombstone and a live version under it |
| hash join equals nested loops | `JoinExact.NullPanics`, `JoinExact.ZeroMissed`, `JoinExact.BytesRefused` | `JoinExact.HashExact`: no NULL beside its type, no two zeros, no byte strings |
| a compressed stream decodes to itself | `GorillaSpec.SixtyFourIsLost` | `GorillaStream.StreamIff`: each second difference of its timestamps fits 32 bits and is not 64 |
| the indexed scan equals the full scan | `MetricsSpec.LateDiffers` | `MetricsSpec.IndexedIffFull`: see below |

Modelling choices. The checksum is an arbitrary function. Page images are kept as values that are
either a page, a header or torn, so that decoding a torn image is failing its checksum. Reads and
writes fail only by a crash or past the last page an int64 offset can address. Each commit
checkpoints, as with a checkpoint threshold of zero. Transaction IDs stay below 2^64. Each public
method is atomic, as its lock makes it. The heap's store is the sorted slice of entries that both
stores refine, with the size limits of the B+ tree. A panic is an outcome like an error. Where
code and documentation differ the code is followed.

## Model

| member | source | states |
|---|---|---|
| Wal.DecodeWhole | internal/storage/pager/wal.go:68-114 | decoding a whole record in front of any bytes gives that record and its length |
| Wal.DecodeCut | internal/storage/pager/wal.go:68-114 | a record cut short at any byte reads as the end of the log, never as corruption or another record |
| Wal.ParseCut | internal/storage/pager/pager.go:418-452 | a log cut at any byte parses to exactly the records that lie whole before the cut |
| Wal.WholeInMeaning | internal/storage/pager/wal.go:68-114 | k records count as whole before the cut exactly when their bytes fit before it |
| Wal.ParseIff | internal/storage/pager/pager.go:418-452 | any bytes at all parse to a list of records exactly when they are the encodings of those records followed by bytes that break off inside a record |
| Wal.TornBodyIff | internal/storage/pager/wal.go:68-114 | a page record whose header is whole but whose body is torn anyhow parses exactly when it breaks off or its checksum happens to match |
| Wal.ZeroTear | internal/storage/pager/wal.go:68-114 | 20 or more zero bytes in place of a record are read as corruption |
| WalReplay.ReplaySerial | internal/storage/pager/pager.go:454-530 | replaying the log of serial transactions equals applying the committed ones in order, last write winning, skipping rolled-back ones anywhere |
| WalReplay.ReplayPrefix | internal/storage/pager/pager.go:454-530 | replaying any prefix of that log applies exactly the committed transactions whose end marker it contains |
| WalReplay.CutLogReplay | internal/storage/pager/pager.go:418-530 | parsing and replaying a log cut at any byte is applying the committed transactions that lie whole before the cut |
| WalReplay.ReplayAgree | internal/storage/pager/pager.go:500-530 | main files that differ only on pages the log writes give the same pages after replay, so an interrupted replay followed by a full one loses nothing |
| WalReplay.ReplayIdempotent | internal/storage/pager/pager.go:405-414 | replaying twice gives what replaying once gives |
| WalReplay.TxnIdsOrder | internal/storage/pager/pager.go:454-478 | transactions are replayed in the order of their first records |
| WalReplay.ReplayMeans | internal/storage/pager/pager.go:454-530 | for any log at all, interleaved or not: a page gets the last write of the latest transaction with an end marker that writes it, in the order of first records, and a page that none writes stays |
| WalReplay.ReplayOneCommit | internal/storage/pager/pager.go:454-530 | appending one end marker makes replay apply exactly that transaction's last writes |
| CrashSafety.CrashInAppend | internal/storage/pager/pager.go:843-861 | a crash before, during or after a log append reopens to the committed pages, header and free list |
| CrashSafety.TornLogOpensIff | internal/storage/pager/pager.go:843-861 | whatever bytes a torn append leaves behind the log, the file opens exactly when they are whole records followed by the start of one |
| CrashSafety.CrashInEot | internal/storage/pager/pager.go:566-579 | a crash around the end marker reopens to the new pages exactly when the marker survived whole, else to the old ones |
| CrashSafety.CrashInReplay | internal/storage/pager/pager.go:588-617 | from the durable end marker until truncation, whatever subset of the page writes landed or tore, reopening gives the state after the whole log |
| CrashSafety.CrashInHeaderSwitch | internal/storage/pager/pager.go:744-783 | at each point of the mirror-then-primary header update one header is valid, and Open finds exactly the old page count and free list if the primary copy is still the old one, and exactly the new ones otherwise |
| CrashSafety.WalkIff | internal/storage/pager/pager.go:310-341 | the free list can be walked exactly when distinct pages in range, readable, point one to the next from the head to the sentinel, and the walk gives them |
| CrashSafety.PushFree | internal/storage/pager/pager.go:897-920 | once the freed page holds its pointer both the old and the new chain can be walked on disk |
| CrashSafety.PopFree | internal/storage/pager/pager.go:684-738 | zeroing the head leaves the rest of the chain intact from its successor on |
| Disk.PointerRoundTrip | internal/storage/pager/page.go:49-62 | the free-list pointer of a page body decodes to the pointer written |
| PagerSpec.BeginKeeps | internal/storage/pager/pager.go:534-551 | beginning a transaction keeps the pager invariant, the committed state and all readable bodies |
| PagerSpec.AppendKeeps | internal/storage/pager/pager.go:813-861 | a page write in a transaction keeps the invariant, leaves the committed state alone and changes one readable body |
| PagerSpec.WriteKeeps | internal/storage/pager/pager.go:813-839 | a page write outside a transaction keeps the invariant and changes one readable body |
| PagerSpec.RollbackKeeps | internal/storage/pager/pager.go:619-635 | rolling back keeps the invariant and restores the committed bodies |
| PagerSpec.CommitKeeps | internal/storage/pager/pager.go:553-617 | committing keeps the invariant and makes exactly the buffered bodies the committed ones |
| PagerSpec.CommitCrash | internal/storage/pager/pager.go:553-617 | over the device states of a commit: at the unsynced end marker a crash leaves all of the transaction or none, by whether the marker survived; at every later state it leaves all of it |
| PagerSpec.FreeListConsistent | internal/storage/pager/pager.go:310-351 | under the invariant the chain on disk is acyclic, ends in the sentinel, visits exactly the free set, and count and header agree with it |
| PagerSpec.FreeKeeps | internal/storage/pager/pager.go:875-923 | freeing any page but the mirror keeps the invariant |
| PagerSpec.FreeCrash | internal/storage/pager/pager.go:897-920 | a crash at any of the six device states of FreePage reopens with the old page count, exactly the old or the new free list, and every other page unchanged |
| PagerSpec.FreeReopensIff | internal/storage/pager/pager.go:875-923 | the file can be opened after FreePage exactly when the freed page is not the mirror header |
| PagerSpec.AllocKeeps | internal/storage/pager/pager.go:662-738 | allocation keeps the invariant, hands out a page that was not allocated, and adds one zero body |
| PagerSpec.NoSpace | internal/storage/pager/pager.go:662-738 | outside a transaction allocation is refused exactly with an empty free list and 4096 times the page count at 2^63 or above |
| PagerSpec.AllocOutcome | internal/storage/pager/pager.go:662-738 | the page handed out is one of the free set, which loses it, or without free pages the page count, which grows by one |
| PagerSpec.GrowCrash | internal/storage/pager/pager.go:719-738 | a crash at any device state of a file-extending allocation reopens to exactly the old or the new state |
| PagerSpec.ReuseUnsafe | internal/storage/pager/pager.go:684-717 | taking a page off the free list passes through a device state whose files cannot be opened |
| PagerSpec.AllocSafeIff | internal/storage/pager/pager.go:662-738 | allocation is crash-safe at every device state exactly when the free list is empty |
| PagerSpec.AllocMomentIff | internal/storage/pager/pager.go:662-738 | each of the six device states of an allocation is crash-safe exactly when the free list was empty or it is the last one |
| PagerRecovery.OpenKeeps | internal/storage/pager/pager.go:244-366 | opening files that recover to a state gives a pager in good order showing that state |
| PagerRecovery.HealMoment | internal/storage/pager/pager.go:288-307 | a crash while the primary header is healed from the mirror reopens to the same state |
| PagerRecovery.OpenReplayMoment | internal/storage/pager/pager.go:353-366 | a crash while Open replays the log reopens to the same state |
| PagerRecovery.OpenCrash | internal/storage/pager/pager.go:244-366 | a crash at any device state of Open, healing or replaying, leaves files that open to the same state |
| PagerRecovery.CloseReopens | internal/storage/pager/pager.go:637-660 | the files left by Close open to the state the pager had |
| PagerRecovery.CloseCrash | internal/storage/pager/pager.go:637-660 | a crash at any device state of Close leaves files that open to the state the pager had |
| PagerRecovery.CloseThenOpen | internal/storage/pager/pager.go:310-351 | opening after Close rebuilds page count, head, count, free set, chain and pages |
| Pager.ParseLog | internal/storage/pager/pager.go:424-452 | the parse loop returns all complete records, or corruption when the log has a bad one |
| Pager.GroupByTxn | internal/storage/pager/pager.go:454-478 | the grouping loop lists transactions by first appearance, each with its records in log order |
| Pager.WalkFreeList | internal/storage/pager/pager.go:310-341 | the walk loop collects exactly the chain's pages, or fails with the free-list error at a page out of range or seen before, and with the page error at an unreadable one |
| Pager.FilePager.Open | internal/storage/pager/pager.go:244-366 | Open succeeds exactly when the files recover; a failure names the broken part: both headers, the free list walk, its length, or the log, and only a failure after the walk leaves the pager open. On success the fields are the recovered ones, and every device state on the way still opens to the same state; on an empty file it passes exactly the four states of creation and gives an empty pager |
| Pager.FilePager.LoadFreeList | internal/storage/pager/pager.go:310-351 | takes over header fields and free set exactly when the chain can be walked and has the recorded length; otherwise says which of the two failed |
| Pager.FilePager.Close | internal/storage/pager/pager.go:637-660 | Close leaves an empty log and files that open to the current committed state, and passes only device states from which a crash gives that state |
| Pager.FilePager.BeginTx | internal/storage/pager/pager.go:534-551 | error cases, and on success exactly the begun state: the next ID and an empty buffer |
| Pager.FilePager.RollbackTx | internal/storage/pager/pager.go:619-635 | error cases, and on success exactly the rolled-back state: no transaction and an empty buffer |
| Pager.FilePager.ReadPage | internal/storage/pager/pager.go:785-811 | returns the transaction's own write if there is one, else the committed body, else an error |
| Pager.FilePager.WritePage | internal/storage/pager/pager.go:813-839 | error cases; on success one buffered body, or one page of the file, is replaced, through exactly the two device states given, which in a transaction still reopen to the committed state |
| Pager.FilePager.CommitTx | internal/storage/pager/pager.go:553-617 | on success the file holds the old pages overlaid by the buffered bodies and the log is empty; a crash at the first device state leaves all of them or none by whether the end marker survived, and at every later one all of them |
| Pager.FilePager.ReplayWal | internal/storage/pager/pager.go:418-530 | a corrupt log is left untouched; otherwise the pages become the replayed ones, the log is emptied, and only replaying states are passed |
| Pager.FilePager.AllocatePage | internal/storage/pager/pager.go:662-738 | outside a transaction it succeeds exactly when the free list is not empty or 4096 times the page count is below 2^63; it then returns a page of the free list, which loses just that page, or else the old page count, which grows by one; a failure changes nothing. It passes exactly the six device states the crash results speak about |
| Pager.FilePager.FreePage | internal/storage/pager/pager.go:875-923 | error cases; on success the page is the head of the free list and counted, through the six device states, and the pager is valid unless the page is the mirror |
| PagerRuns.CallCrash | internal/storage/pager/pager.go:534-923 | a crash at any device state of any call but the two hazardous ones leaves files that open to what that call may leave |
| PagerRuns.CallSafeIff | internal/storage/pager/pager.go:534-923 | a call is crash-safe at all its device states exactly when it neither takes a page off the free list nor frees the mirror header |
| PagerRuns.DownKeeps | internal/storage/pager/pager.go:244-366 | from files that open, Open and crashes during it lead only to a pager or files with the same recovered state |
| PagerRuns.RunKeeps | internal/storage/pager/pager.go:244-923 | over every run from a new file of calls, Close, Open and crashes at any device state of these, outside the hazardous calls, a running pager keeps the invariant and files at rest can be opened |
| PagerRuns.ReachableState | internal/storage/pager/pager.go:244-923 | in every state such a run reaches the free list is consistent with fields and header, a crash reopens to the committed state, and Close then Open rebuilds it |
| PagerRuns.MirrorFreed | internal/storage/pager/pager.go:875-923 | in a new file, freeing the mirror page leaves a file that cannot be opened |
| PagerRuns.ReuseCrashes | internal/storage/pager/pager.go:684-717 | after one page is allocated and freed, allocating again passes a state whose files cannot be opened |
| PagerRuns.TornCreation | internal/storage/pager/pager.go:744-783 | a crash at the first write to a new file may leave files that are not empty and cannot be opened |
| PagerRuns.CreateSafeIff | internal/storage/pager/pager.go:268-281 | of the four device states of creating a file, a crash leaves openable or empty files exactly at those after the first |
| SortedEntries.PutIsMapUpdate | internal/engine/sql/store/store.go:53-73 | looking up after Put gives the new value for that key and the old answer for all others |
| SortedEntries.RemoveIsMapRemoval | internal/engine/sql/store/store.go:99-113 | looking up after Remove finds nothing for that key and the old answer for all others |
| SortedEntries.SelectPicks | internal/engine/sql/store/store.go:128-153 | selecting a range picks, in order, exactly the positions whose keys lie in it |
| SortedStore.Store.LowerBound | internal/engine/sql/store/store.go:42-50 | binary search finds the first key not below the one sought |
| SortedStore.Store.Put | internal/engine/sql/store/store.go:53-73 | keeps the slice sorted and performs the map update |
| SortedStore.Store.Get | internal/engine/sql/store/store.go:76-96 | returns what the slice holds |
| SortedStore.Store.Delete | internal/engine/sql/store/store.go:99-113 | keeps the slice sorted and performs the removal |
| SortedStore.Store.Scan | internal/engine/sql/store/store.go:128-153 | returns, in order, exactly the entries at the positions whose keys are not below the start and below the end, and nothing for an empty end |
| TreeInsert.InsOrdered | internal/engine/sql/kv/btree.go:379-752 | insertion keeps keys sorted and separators bounding their subtrees under upper-bound routing |
| TreeInsert.InsEntries | internal/engine/sql/kv/btree.go:379-752 | insertion performs Put on the tree's entries, whatever it splits |
| TreeInsert.LeafSplitIff | internal/engine/sql/kv/btree.go:521-619 | a leaf splits exactly when it has 7 entries and the key is new, into its first 4 and last 4 entries, parted by the key of the fifth |
| TreeInsert.NodeSplitIff | internal/engine/sql/kv/btree.go:699-752 | an internal node splits exactly when a child splits and it has 56 keys, into 28 keys on each side of the one that moves up |
| TreeInsert.InsShaped | internal/engine/sql/kv/btree.go:521-752 | insertion keeps all leaves at one depth and at least 28 keys in every internal node below the root |
| TreeInsert.InsChained | internal/engine/sql/kv/btree.go:581-600 | insertion keeps the leaf links visiting the leaves in order |
| TreeInsert.InsApart | internal/engine/sql/kv/btree.go:551-566 | insertion uses no page twice and takes new pages only from the spare ones |
| TreeOps.FindIsLookup | internal/engine/sql/kv/btree.go:128-163 | routed search returns what the sorted slice of all entries holds |
| TreeOps.SetTreeCorrect | internal/engine/sql/kv/btree.go:379-752 | Set keeps every tree invariant at the new height, performs Put, and uses only old and spare pages |
| TreeOps.DelTreeCorrect | internal/engine/sql/kv/btree.go:769-823 | Delete keeps every tree invariant and performs Remove |
| TreeOps.HeightNeedsLeaves | internal/engine/sql/kv/btree.go:699-752 | a tree with h >= 1 internal levels has at least 2*29^(h-1) leaves |
| TreePages.SetUpsMatches | internal/engine/sql/kv/btree.go:521-752 | after the page-by-page split propagation the pages hold the tree after insertion; it touches only the tree's and the spare pages and never runs out of them |
| TreeScan.ChainVisitsLeaves | internal/engine/sql/kv/btree.go:866-908 | the leaf links visit exactly the tree's leaves in key order |
| TreeScan.RangeInTail | internal/engine/sql/kv/btree.go:827-864 | the chain from the routed leaf on holds every entry of the range |
| NodeCodec.MetaRoundTrip | internal/engine/sql/kv/node.go:14-32 | the meta page decodes to the root written |
| NodeCodec.LeafRoundTrip | internal/engine/sql/kv/node.go:47-152 | a leaf body within the limits is accepted and decodes to its keys, values and link |
| NodeCodec.RewriteKeepsIff | internal/engine/sql/kv/node.go:47-175 | decoding a slot and encoding it again keeps its value exactly when it was inline; a reference to a chain becomes an inline value of 512 bytes |
| NodeCodec.InternalRoundTrip | internal/engine/sql/kv/node.go:181-256 | an internal node body within the limits is accepted and decodes to its pointers and keys |
| KvPages.PageRoundTrip | internal/engine/sql/kv/node.go:14-256 | every page the store writes decodes to itself |
| Layout.DataRecord | internal/storage/pager/wal.go:26-41 | the 4108 bytes of a page record: transaction, page, length, body and the checksum of these |
| Layout.EndMarker | internal/storage/pager/wal.go:44-57 | the 24 bytes of an end marker |
| Layout.FreePointer | internal/storage/pager/page.go:49-53 | the body of a free page: the next page, or all ones at the end, then zeros |
| Layout.MetaLayout | internal/engine/sql/kv/node.go:14-20 | the body of the meta page: type 3, the root, then zeros |
| Layout.MetaReads | internal/engine/sql/kv/node.go:23-32 | exactly the bodies of 4084 bytes with type 3 read as a meta page |
| Layout.LeafSlotLayout | internal/engine/sql/kv/node.go:77-91 | the 580 bytes of a leaf slot, for inline values and for those with a chain |
| Layout.LeafLayout | internal/engine/sql/kv/node.go:47-97 | a leaf is accepted exactly with at most 7 entries in strict key order, keys up to 63 bytes and values up to 16 MiB; its bytes are type, count, next leaf and slots |
| Layout.LeafSlotReads | internal/engine/sql/kv/node.go:119-143 | a slot reads exactly with a key length up to 63 and a value length up to 16 MiB; above 512 bytes the value is a page and 504 bytes |
| Layout.LeafReads | internal/engine/sql/kv/node.go:100-152 | exactly which bodies read as a leaf, and their entries and next leaf |
| Layout.InternalSlotLayout | internal/engine/sql/kv/node.go:181-216 | the 72 bytes of an internal slot |
| Layout.InternalLayout | internal/engine/sql/kv/node.go:181-216 | an internal node is accepted exactly with one child more than keys, at most 56 keys in strict order and keys up to 63 bytes; its bytes are type, count, first child and slots |
| Layout.InternalSlotReads | internal/engine/sql/kv/node.go:219-256 | an internal slot reads exactly with a key length up to 63 |
| Layout.InternalReads | internal/engine/sql/kv/node.go:219-256 | exactly which bodies read as an internal node, and their keys and children |
| Layout.OverflowLayout | internal/engine/sql/kv/node.go:268-279 | the body of an overflow page: type 4, the next page, the chunk, then zeros |
| KvPages.InsFits | internal/engine/sql/kv/btree.go:379-752 | insertion keeps keys, values and page ids within the limits of the page format |
| KvSteps.SetStepsFit | internal/engine/sql/kv/btree.go:521-752 | at each step of a split propagation the encoders accept the pages and a spare page is left |
| KvSteps.DelMatches | internal/engine/sql/kv/btree.go:769-823 | rewriting the one routed leaf performs Delete on the whole tree |
| KvSpec.SetHeld | internal/engine/sql/kv/btree.go:379-752 | after the steps of Set, and a new root and meta page if two nodes are left, the pages hold the updated tree |
| KvSpec.DelHeld | internal/engine/sql/kv/btree.go:769-823 | after Delete's single page write the pages hold the tree without the key |
| KvSpec.PagesForIs | internal/engine/sql/kv/btree.go:551-566 | a Set takes one page in an empty store, none when the key is there or its leaf has room, and else two more than the tree has internal levels |
| LeafLoops.UpperBoundIdx | internal/engine/sql/kv/btree.go:437-444 | the routing loop returns the first separator above the key, or the last child |
| LeafLoops.FindIn | internal/engine/sql/kv/btree.go:406-412 | the key scan finds the entry with the key, if any |
| LeafLoops.InsertionPos | internal/engine/sql/kv/btree.go:486-490 | the position loop returns the number of smaller keys |
| LeafLoops.Merge | internal/engine/sql/kv/btree.go:527-544 | the merge loop inserts the entry at its place in key order |
| BTree.BTreeStore.Open | internal/engine/sql/kv/btree.go:43-95 | on a new pager the store opens empty, and a crash during it can be opened again exactly before the header names the meta page or after the end marker is durable; on an existing file Open succeeds exactly when the meta page is readable and decodes, and pages holding a store open with exactly its entries |
| BTree.BTreeStore.Get | internal/engine/sql/kv/btree.go:113-163 | returns the value the map holds, or not found, or the state error |
| BTree.BTreeStore.Set | internal/engine/sql/kv/btree.go:223-298 | keys over 63 bytes and values over 16 MiB are refused; on success the map update. It fails otherwise only with no free page and 4096 times the page count at 2^63 or above. It allocates exactly the pages the tree needs, or runs out; its device states are six for each allocation and then the transaction; once the pages taken off the free list are behind, a crash anywhere reopens with the old map or the new one, and from the start of the call exactly when none was taken off |
| BTree.BTreeStore.InsertIntoParent | internal/engine/sql/kv/btree.go:625-694 | writes exactly the pages of the propagation, with a new root and meta page when it reaches the top, and reports the new root |
| BTree.BTreeStore.SplitInternal | internal/engine/sql/kv/btree.go:699-752 | splits the full node on its spare page and carries the propagation on |
| BTree.BTreeStore.SplitLeaf | internal/engine/sql/kv/btree.go:521-619 | the same for a split of any depth: the map update or no change for lack of pages, the pages allocated, and the crash states |
| BTree.BTreeStore.Delete | internal/engine/sql/kv/btree.go:756-823 | performs the map removal, and a crash at any device state reopens with the old map or the new one |
| BTree.BTreeStore.Scan | internal/engine/sql/kv/btree.go:827-908 | returns, in key order, exactly the entries at the positions whose keys are not below the start and below the end, an empty bound meaning unbounded |
| BTree.Reopen | internal/engine/sql/kv/btree.go:43-95 | after a crash that leaves a store's entries recoverable, opening pager and store gives a valid store with exactly those entries |
| KvCrash.SetTraced | internal/engine/sql/kv/btree.go:521-619 | after n allocations and a transaction that is safe, a crash is safe at every device state from the last page taken off the free list on, and at all of them exactly when none was |
| KvCrash.CommitSafe | internal/engine/sql/kv/btree.go:611-618 | at every device state of a commit a crash leaves the old map or the new one |
| KvCrash.GrowSafe | internal/engine/sql/kv/btree.go:551-566 | at every device state of a page allocated from an empty free list a crash leaves the map unchanged |
| KvCreate.MetaLost | internal/engine/sql/kv/btree.go:59-79 | once the meta page is allocated but not written, the file holds no store and is not seen as new either |
| KvCreate.CreationSafeIff | internal/engine/sql/kv/btree.go:59-79 | of the device states of creating a store, a crash leaves something that can be opened exactly at the first four and after the ninth |
| KvRuns.RunBoth | internal/engine/sql/kv/btree.go:113-908 | on every run of Get, Set, Delete and Scan the tree and the sorted slice give the answers of one specification, which differ only in what an empty end means, and end with the same entries; a crash at any device state of operation j, outside those of pages it takes off the free list, reopens with the effects of the first j operations or of one more; the run stops early only with no free page and 4096 times the page count at 2^63 or above |
| KvRuns.AnswersAgreeIff | internal/engine/sql/store/store.go:128-153 | over every run the two stores' answers are the same exactly when no scan with an empty end meets a key at or above its start |
| KvRuns.OpenScanDiffers | internal/engine/sql/store/store.go:128-153 | with one entry, a scan of everything answers differently |
| Overflow.ChainBound | internal/engine/sql/kv/btree.go:302-316 | a value over 512 bytes and at most 16 MiB - 8 needs 1 to 4117 chain pages, fewer than the limit of 5000, and they cover it exactly |
| Overflow.OverflowRoundTrip | internal/engine/sql/kv/btree.go:166-199 | reading the slot and chain of such a value returns the value |
| Overflow.ReadValueIff | internal/engine/sql/kv/btree.go:166-199 | a reference can be read exactly when overflow pages, at most 5000, link from its first page to an end and bring the value to its recorded length; it then gives the prefix and what the pages carry, cut to that length |
| Overflow.StorableIff | internal/engine/sql/kv/node.go:73-75 | a large value that Set accepts is accepted by the leaf encoder exactly when it is at most 16 MiB - 8 |
| Overflow.LargestRefused | internal/engine/sql/kv/node.go:73-75 | a value of exactly 16 MiB is refused by the leaf encoder |
| Overflow.PrepareOverflow | internal/engine/sql/kv/btree.go:302-342 | allocates distinct new pages, as many as needed, without changing any page, and packs id and value; it fails only with no free page and 4096 times the page count at 2^63 or above |
| Overflow.WriteOverflowChain | internal/engine/sql/kv/btree.go:346-376 | writes the chunks in order, linked and ended by the sentinel, and no other page |
| Overflow.ReadOverflowValue | internal/engine/sql/kv/btree.go:166-199 | follows the chain as the reading function says, failing on length mismatch, overlong chains and unreadable pages |
| RowKey.EncodeTableRowKey | internal/engine/sql/key/row.go:12-64 | the buffer loop builds tag, table, columns and version, and rejects an empty key |
| RowKey.DecodeTableRowKey | internal/engine/sql/key/row.go:123-190 | the position loops decode as the specification says, error cases included |
| RowKey.RowDecoded | internal/engine/sql/key/row.go:123-190 | whatever decodes at all is the encoding of the row it decodes to |
| RowKey.KeyErrors | internal/engine/sql/key/row.go:123-190 | which error a key gives: a bad tag exactly for 9 bytes or more with another first byte, an invalid key exactly when the columns before a byte column that is not the last read and bytes are left, truncated for every other failure |
| Layout.RowLayout | internal/engine/sql/key/row.go:12-64 | the bytes of a row key: 1, table, columns, version |
| Layout.ColumnLayout | internal/engine/sql/key/row.go:12-64 | the bytes of a key column: big-endian numbers, signed ones shifted by 2^63, strings with a final zero, byte strings as they are |
| RowKey.RowOrder | internal/engine/sql/key/row.go:12-64 | byte order of row keys is the order on table, primary key tuple and version, for fixed-width and zero-free string columns |
| RowKey.RowRoundTripIff | internal/engine/sql/key/row.go:123-190 | decoding gives the row back exactly when strings have no zero byte and a byte column is last |
| RowKey.ZeroByteIsLost | internal/engine/sql/key/row.go:123-190 | a string column of one zero byte does not come back |
| RowKey.PrefixEnd | internal/engine/sql/key/row.go:194-219 | returns nothing just for all-0xFF input, else the byte string that is one more as a number of the same length |
| RowKey.PrefixRange | internal/engine/sql/key/row.go:192-219 | a key at least as long as the prefix is in the range exactly when it has the prefix, despite carries |
| RowKey.PrefixExactIff | internal/engine/sql/key/row.go:192-219 | the range is exact for all keys, shorter ones included, exactly when the prefix does not end in 0xFF |
| RowKey.PrefixNotExact | internal/engine/sql/key/row.go:192-219 | the key 01 lies in the range of the prefix 00 FF |
| RowRange.VersionScanExact | internal/engine/sql/heap/encode.go:108-134 | for keys without byte columns and zero bytes, the range scanned for one primary key contains exactly that key's versions, also when the prefix ends in 0xFF and keys are shorter than it |
| RowRange.TableScanExact | internal/engine/sql/heap/table.go:126-139 | the range scanned for a table contains exactly that table's rows, whatever their key columns |
| RowValue.EncodeStorageComposite | internal/engine/sql/key/key.go:354-393 | the loop frames each field by its length, and refuses exactly the strings with a zero byte |
| RowValue.EncodeEnterpriseValue | internal/engine/sql/heap/encode.go:138-182 | the loops build flag, NULL bitmask and framed fields, with the error cases of the source |
| RowValue.ParseStorageComposite | internal/engine/sql/key/key.go:429-453 | the position loop parses the fields by their lengths, or fails when they do not fill the bytes |
| RowValue.DecodeEnterpriseValue | internal/engine/sql/heap/encode.go:186-252 | decodes flag, bitmask and fields as the specification says, failures included |
| RowValue.CellRoundTrip | internal/engine/sql/heap/encode.go:138-252 | a tombstone or a row of values and NULLs decodes to itself |
| RowValue.CellIff | internal/engine/sql/heap/encode.go:186-252 | exactly what decodes and to what: a tombstone is flag 1 and room for the mask; a row is flag 0, a mask that marks its NULL columns and exactly the fields of the others, and a row of NULLs may be followed by anything |
| Layout.RowValueLayout | internal/engine/sql/heap/encode.go:138-182 | the bytes of a row value: flag, one bit for each column, lowest first, set for NULL, then the other columns; a tombstone has flag 1 and only NULLs |
| Layout.FieldLayout | internal/engine/sql/key/key.go:354-393 | the bytes of a stored field: its length in four bytes, then the field |
| HeapStore.KeyIff | internal/engine/sql/heap/encode.go:51-105 | arguments give a key exactly when they are non-NULL values of the key columns' kinds, and then that key |
| HeapStore.ScannedIff | internal/engine/sql/heap/encode.go:255-343 | a scan of a prefix range finds exactly the stored keys in the range that decode, with their versions |
| HeapStore.PlanSound | internal/engine/sql/heap/table.go:13-108 | an accepted call writes at its own ID, above every version the scan of its key found, for exactly the key its arguments name, the live or deleted row it asks for; Insert only after a read that found no row, Update and Delete only after one that did |
| HeapCalls.InsertIff | internal/engine/sql/heap/table.go:13-46 | over every history, for a key that reads right: Insert is accepted exactly when its ID is not zero and above every version found, the replay of the writes has no row, the columns have their kinds without zero bytes, and key and value fit the store; each refusal names its error |
| HeapCalls.UpdateIff | internal/engine/sql/heap/table.go:50-81 | over every history, for such a key: Update is accepted exactly when its ID is free, the replay has a row, the key columns stay and the row is proper and fits; each refusal names its error |
| HeapCalls.DeleteIff | internal/engine/sql/heap/table.go:85-108 | over every history, for such a key: Delete is accepted exactly when its ID is free, the replay has a row and the tombstone fits; each refusal names its error |
| HeapCalls.Unnamed | internal/engine/sql/heap/encode.go:51-120 | on any store, arguments that name no key are refused by the first fault: number of columns, ID, then the first key column that is NULL or of another kind |
| HeapCalls.OldIdAccepted | internal/engine/sql/heap/table.go:13-46 | a row written at 1, deleted at 2 and vacuumed at 2 can be inserted again at 1 |
| HeapChains.ReadIff | internal/engine/sql/heap/encode.go:291-343 | reading a key from the encoded store gives exactly what is visible in its chain of versions, for a key whose range reaches no other row |
| HeapChains.UncleanRead | internal/engine/sql/heap/encode.go:291-343 | a key that does not decode to itself is not found |
| HeapChains.StoredChain | internal/engine/sql/heap/table.go:13-108 | storing a version adds it to the chain of exactly the keys with the same bytes |
| HeapChains.ScanIsReads | internal/engine/sql/heap/table.go:122-213 | a row is in the result of Scan exactly when Get returns it |
| HeapChains.LaterWriteUnseen | internal/engine/sql/heap/table.go:13-118 | a write with an ID above the reader never changes what the reader gets, whatever the keys |
| HeapChains.VacuumChain | internal/engine/sql/heap/table.go:227-322 | whatever has been deleted so far, in newest-first order, each chain is the partly vacuumed one |
| HeapChains.InterruptedIff | internal/engine/sql/heap/table.go:227-322 | a Vacuum interrupted at any deletion leaves all reads of a key at or above the horizon unchanged exactly when it does not stop below a tombstone that hides the whole key and above a live version |
| HeapSpec.WriteReads | internal/engine/sql/heap/table.go:13-108 | a new highest version is what readers at or above it see, and changes nothing for others |
| HeapSpec.ShapeMeaning | internal/engine/sql/heap/table.go:85-108 | in the shape that histories keep, the oldest version of a key is never a tombstone and no two adjacent versions are |
| HeapSpec.VacuumKeepsReads | internal/engine/sql/heap/table.go:227-322 | Vacuum leaves every read at or above its horizon unchanged |
| HeapSpec.VacuumDropsIff | internal/engine/sql/heap/table.go:227-322 | a version of a chain is dropped exactly when it is not above the horizon and the newest such version is a newer live one, or a tombstone that is the newest of all |
| HeapSpec.VacuumLeavesOne | internal/engine/sql/heap/table.go:227-322 | two versions at or below the horizon remain only if the newest of them is a tombstone with newer versions above the horizon |
| HeapSpec.VacuumKeepsShape | internal/engine/sql/heap/table.go:227-322 | Vacuum keeps the shape of version chains |
| HeapSpec.PartialVacuumIff | internal/engine/sql/heap/table.go:270-318 | deletions from the newest down to any point keep all reads at or above the horizon exactly when they do not uncover a live version of a deleted row |
| HeapSpec.DeletedRowReturns | internal/engine/sql/heap/table.go:270-318 | a row written at 1 and deleted at 2 is back after the first deletion of its Vacuum |
| HeapRuns.RunKeeps | internal/engine/sql/heap/table.go:13-322 | over every history of calls, Vacuum and writes of other tables, the chain of a key that is neither exposed nor aliased replays the accepted writes and keeps its shape |
| HeapRuns.KeyReadsRight | internal/engine/sql/heap/table.go:13-322 | over every such history a read of such a key at or above the vacuum horizon returns exactly the replay of the accepted writes not above it |
| HeapExact.KeyReadsIff | internal/engine/sql/heap/table.go:13-322 | a key reads as the replay over every history exactly when its range reaches no other row that can be stored and no other key has its bytes; when a byte column is not last, exactly when it cannot be stored at all |
| HeapSchemas.SchemaReadsIff | internal/engine/sql/heap/heap.go:90-127 | all keys of a table read as the replay over every history exactly when no key fits the store, or no key column is of bytes and no fixed column stands between two strings (or only the shortest keys fit) |
| HeapSchemas.BytesKeyMisread | internal/engine/sql/heap/encode.go:291-343 | with a byte key, Insert of 01 02 at 5 makes Get of 01 at 10 return that row |
| HeapSchemas.TwinExample | internal/engine/sql/heap/table.go:85-108 | with key columns string, uint64, string, two keys have the same bytes, and deleting one deletes the other |
| Heap.Table.Versions | internal/engine/sql/heap/encode.go:255-287 | the scan loop returns exactly the decodable keys of the prefix range with their versions |
| Heap.Table.ToKey | internal/engine/sql/heap/encode.go:108-120 | converts the arguments to key columns, with the error cases in the source's order |
| Heap.Table.ValidateMonotonicTx | internal/engine/sql/heap/encode.go:255-287 | accepts exactly a non-zero ID above all versions that the scan of a well-formed key finds |
| Heap.Table.FindVisibleRow | internal/engine/sql/heap/encode.go:291-343 | returns the newest row the scan finds not above the ID, decoded, or not found for none or a tombstone |
| Heap.Table.Insert | internal/engine/sql/heap/table.go:13-46 | the answer is one that the checks in the source's order give; a refusal leaves every entry as it was, success stores exactly one encoded live version |
| Heap.Table.Update | internal/engine/sql/heap/table.go:50-81 | the answer is one that the checks in the source's order give; a refusal leaves every entry as it was, success stores exactly one encoded live version |
| Heap.Table.Delete | internal/engine/sql/heap/table.go:85-108 | the answer is one that the checks give; a refusal leaves every entry as it was, success stores exactly one encoded tombstone |
| Heap.Table.Get | internal/engine/sql/heap/table.go:112-118 | not found when no version the scan of the key finds is visible; else a newest visible one decides: its row if it is live, not found if it is a tombstone, corrupt if it does not decode |
| Heap.Table.Scan | internal/engine/sql/heap/table.go:122-213 | returns, sorted by key bytes, exactly one row for each key whose newest version not above the transaction is live and decodes |
| Heap.Table.Vacuum | internal/engine/sql/heap/table.go:227-322 | deletes exactly the superseded versions of every key, one at a time, newest first within a key, and says what each store on the way is |
| Heap.VacuumIff | internal/engine/sql/heap/table.go:227-322 | after Vacuum a stored version is gone exactly when it is not above the horizon and the newest such version of its row is a newer one that is no tombstone, or a tombstone that no version follows; every other entry stays |
| Heap.LatestPerKey | internal/engine/sql/heap/table.go:156-179 | the grouping loop finds the newest version not above the ID for each key |
| Heap.SortDescending | internal/engine/sql/heap/table.go:270-273 | sorts the versions of a key, newest first |
| JoinSpec.HashKeyExact | internal/engine/sql/planner/hash_join.go:21-39 | two keys that are not floats, NULL or byte strings have the same hash key exactly when they are equal in type and value |
| JoinSpec.EqualTexts | internal/engine/sql/planner/hash_join.go:21-39 | keys that compare equal have the same hash key, except the two float zeros |
| JoinRows.TextIsNearest | internal/engine/sql/planner/hash_join.go:30-31 | the hash key of a finite float is its nearest number of millionths, a tie going to the even one |
| JoinRows.FloatEqualIff | internal/engine/sql/planner/binder.go:360-388 | floats are equal exactly when they are the same number; a NaN equals nothing and the zeros are one number |
| JoinRows.AnswerIs | internal/engine/sql/planner/binder.go:360-388 | comparing two keys panics exactly for one type and a NULL, and finds them equal exactly for one type and the same value |
| JoinRows.LeftRowGives | internal/engine/sql/planner/join.go:155-235 | the rows of a left row under nested loops: it joined to exactly the right rows with its key, in order, up to the first that panics; without any, in an outer join, exactly one row, it and a NULL of each right column's type |
| JoinRows.HashRowGives | internal/engine/sql/planner/hash_join.go:151-209 | the same for hashing: exactly the right rows with its key, except a zero of the other sign, or the one padded row; a byte-string key ends the join |
| JoinRows.JoinedWidth | internal/engine/sql/planner/hash_join.go:242-262 | every row of either join has the columns of the left and the right side |
| JoinExact.ProbedExact | internal/engine/sql/planner/hash_join.go:188-207 | the bucket of a left row never makes a comparison panic, and gives the same matches in the same order as the whole right input exactly when no other zero is there |
| JoinExact.JoinedEnd | internal/engine/sql/planner/binder.go:360-388 | nested loops panic exactly when some left and right key have one type and one of them is NULL |
| JoinExact.HashExact | internal/engine/sql/planner/hash_join.go:98-209 | for inner and left joins, hash join produces the same rows in the same order and the same end as nested loops exactly when no key is a byte string, no comparison meets a NULL of its type, and no two keys are the two zeros; it never panics |
| JoinExact.NullPanics | internal/engine/sql/planner/binder.go:360-388 | key 1 against NULL: nested loops panic, hashing ends without rows |
| JoinExact.ZeroMissed | internal/engine/sql/planner/hash_join.go:30-31 | zero against minus zero: nested loops find the pair, hashing does not |
| JoinExact.BytesRefused | internal/engine/sql/planner/hash_join.go:36-37 | equal byte strings: nested loops find the pair, hashing fails |
| Joins.NestedLoopJoin.Next | internal/engine/sql/planner/join.go:155-235 | each call returns the next row still to come of what `JoinRows.LeftRowGives` says, or ends as the join does |
| Joins.HashJoin.Open | internal/engine/sql/planner/hash_join.go:98-149 | builds the bucket table, skipping NULL keys, and starts at the first row of the join; fails on a byte-string key |
| Joins.HashJoin.Probe | internal/engine/sql/planner/hash_join.go:186-207 | takes the next left row and exactly its bucket, or fails on a byte-string key |
| Joins.HashJoin.Next | internal/engine/sql/planner/hash_join.go:151-209 | each call returns the next row still to come of what `JoinRows.HashRowGives` says, or ends as the join does |
| Joins.DrainNestedLoop | internal/engine/sql/planner/join.go:128-235 | Open and Next to the end give exactly the join, row by row in order, and its end; `JoinRows.LeftRowGives` says what that is for each left row |
| Joins.DrainHash | internal/engine/sql/planner/hash_join.go:98-209 | Open and Next to the end give the rows and end of hashing, as `JoinRows.HashRowGives` says for each left row, which are those of nested loops exactly when the inputs agree |
| GorillaSpec.DodRoundTrip | internal/engine/metrics/gorilla.go:81-98 | a delta of delta is read in the bits it was written in, and correctly exactly when it fits 32 bits and is not 64 |
| GorillaSpec.WindowStays | internal/engine/metrics/gorilla.go:107-146 | the encoder's window stays (0, 0), so every change of value takes the branch with all 64 bits |
| GorillaSpec.ValueRoundTrip | internal/engine/metrics/gorilla.go:243-276 | every 64-bit pattern decodes to itself |
| GorillaSpec.RoundTripIff | internal/engine/metrics/gorilla.go:71-276 | an interleaved stream decodes to itself, whatever follows it, exactly when every delta of delta the encoder forms fits 32 bits and is not 64; `GorillaStream.StreamIff` says it of the timestamps alone |
| GorillaStream.StreamIff | internal/engine/metrics/gorilla.go:71-276 | a stream decodes to itself exactly when the first difference of its timestamps and every t[i] - 2 t[i-1] + t[i-2] after it, wrapped to 64 bits, is in -2^31..2^31-1 and not 64 |
| GorillaStream.TimeCode | internal/engine/metrics/gorilla.go:71-102 | the code of a timestamp after any stream: 64 bits for the first, one bit for a zero second difference, and 9, 12, 16 or 36 bits with the tags of the source for others |
| GorillaStream.ValueCode | internal/engine/metrics/gorilla.go:107-146 | the code of a value after any stream: 64 bits for the first, one bit for an equal one, and two bits and the 64 differing bits for any other |
| GorillaSpec.SixtyFourIsLost | internal/engine/metrics/gorilla.go:81-98 | the timestamps 0 and 64 do not decode to themselves |
| Bits.SetUnpacked | internal/engine/metrics/gorilla.go:50-58 | setting a bit of a byte sets exactly that bit of the stream |
| Gorilla.Encoder.EnsureCapacity | internal/engine/metrics/gorilla.go:39-47 | grows the buffer without changing what was written |
| Gorilla.Encoder.Encoded | internal/engine/metrics/gorilla.go:33-36 | returns the written bits packed into bytes, padded with zeros |
| Gorilla.Encoder.WriteBit | internal/engine/metrics/gorilla.go:50-58 | appends one bit to its packed buffer |
| Gorilla.Decoder.ReadBit | internal/engine/metrics/gorilla.go:170-176 | returns the next packed bit |
| Gorilla.Encoder.WriteTimestamp | internal/engine/metrics/gorilla.go:71-102 | appends to its packed buffer the code that `GorillaStream.TimeCode` writes out, and updates the previous time and delta |
| Gorilla.Encoder.WriteFloat | internal/engine/metrics/gorilla.go:107-146 | appends to its packed buffer the code that `GorillaStream.ValueCode` writes out, and updates the previous value and window |
| Gorilla.Decoder.ReadTimestamp | internal/engine/metrics/gorilla.go:188-240 | reads its packed bits as the specification says and advances by the bits used |
| Gorilla.Decoder.ReadFloat | internal/engine/metrics/gorilla.go:243-276 | reads its packed bits as the specification says and advances by the bits used |
| Gorilla.WriteThenRead | internal/engine/metrics/gorilla.go:26-276 | writing a stream to bytes and reading the bytes returns the stream, when every second difference of its timestamps fits 32 bits and is not 64 |
| MetricsCodec.PointRoundTrip | internal/engine/metrics/gorilla.go:312-345 | a record in front of any bytes decodes to its point and length |
| MetricsCodec.DecodePointIff | internal/engine/metrics/gorilla.go:312-345 | exactly the bytes of a point, whatever follows, decode, to that point and its length |
| Layout.PointLayout | internal/engine/metrics/gorilla.go:286-309 | the bytes of a point, little-endian |
| Layout.PointPageLayout | internal/engine/metrics/store.go:162-187 | the body of a page of points: count, write offset, the points one after another, zeros |
| MetricsCodec.AppendBody | internal/engine/metrics/store.go:162-187 | writing a record at the write offset and then the header gives the body of the page with one more point |
| MetricsCodec.PageRoundTrip | internal/engine/metrics/store.go:304-360 | a page body decodes to exactly its points |
| MetricsCodec.RecordAt | internal/engine/metrics/store.go:266-275 | decoding at the offset of a record gives that record |
| MetricsSpec.RecsIncreasing | internal/engine/metrics/store.go:134-198 | records lie in strictly increasing (page, offset) order |
| MetricsSpec.FullScanPicks | internal/engine/metrics/store.go:203-231 | the full scan picks, in order, exactly the points with start <= timestamp <= end whose tags give every required value |
| MetricsSpec.WithinPicks | internal/engine/metrics/store.go:253-280 | reading the listed points picks, in order, exactly those with start <= timestamp and, for a non-zero end, timestamp <= end |
| Metrics.IntersectLocs | internal/engine/metrics/index.go:171-186 | merging two increasing lists gives, increasing, exactly the entries whose place is in both |
| Metrics.TagIndex.Insert | internal/engine/metrics/index.go:54-71 | appends the locator to the list of each pair and to no other |
| Metrics.TagIndex.SearchAll | internal/engine/metrics/index.go:95-126 | returns exactly the locators, in order, of the records with all pairs; nil exactly when there are none or no constraints |
| Metrics.MetricsStore.AppendPoint | internal/engine/metrics/store.go:134-198 | an open store refuses exactly a point that takes more than 4076 bytes; on success the point is last on the current page if it fits there, else alone on a new page, the contents grow by it, and the index lists it |
| Metrics.MetricsStore.ScanRange | internal/engine/metrics/store.go:203-231 | returns, in the order they were added, exactly the points with start <= timestamp <= end whose tags give every required value, a missing key reading as empty |
| Metrics.ReadLocations | internal/engine/metrics/store.go:253-280 | returns, as a multiset, exactly the points at the locators with start <= timestamp and, for a non-zero end, timestamp <= end, whatever order pages come in |
| Metrics.MetricsStore.ScanRangeWithIndex | internal/engine/metrics/store.go:236-250 | returns, as a multiset, exactly the points with all pairs whose timestamp is not below the start and, for a non-zero end, not above the end, or the full scan when there are no constraints or no point has the pairs |
| MetricsSpec.IndexedIffFull | internal/engine/metrics/store.go:203-280 | the indexed scan returns the multiset of the full scan exactly when it falls back to it, or no point with the pairs is later than an end of zero and no point in range lacks a key required to be empty |
| MetricsSpec.IndexedIsFull | internal/engine/metrics/store.go:236-280 | for a non-zero end and non-empty required values the two scans return the same multiset, on every store |
| MetricsSpec.LateDiffers | internal/engine/metrics/store.go:274 | one point at time 1 and an end of zero: the two scans differ |

## Left out

- BTree.BTreeStore.Set: takes values of at most 512 bytes (or over 16 MiB, which it rejects); a leaf rewrite turns an overflow reference into an inline value, as `NodeCodec.RewriteKeepsIff` says, so runs that mix in larger values are not modelled. The chain itself is in `Overflow`.
- KvRuns.RunBoth: keys and values within the inline limits, as for Set.
- Pager.FilePager.CommitTx: I/O errors other than a crash are not modelled, nor a checkpoint threshold above zero.
- Heap.Table.Scan: stops at the list of rows; the iterator over it starts past the first row.
- HeapCalls.InsertIff: like `HeapCalls.UpdateIff` and `HeapCalls.DeleteIff`, for the keys that read as the replay of their writes; for other keys an answer follows what the scan finds, as `HeapStore.PlanSound` says.
- HeapExact.KeyReadsIff: for tables that name no column twice as a key column and have at most 100,000 columns, so that a row for the key fits the store.
- HeapSchemas.SchemaReadsIff: for the same tables, and keys whose strings have no zero byte, as rows cannot hold others.
- RowRange.VersionScanExact: for keys without byte columns; `HeapExact.KeyReadsIff` says what these do.
- JoinExact.HashExact: the condition is the equality of the two key columns, the one that is planned as a hash join; errors of the inputs are not modelled.
- Metrics.MetricsStore.AppendPoint: the pager below is the list of its page bodies, for a store that is created new and never swept; splitting the tag string is an arbitrary function that gives no pairs for the empty string (the source's panics on a lone brace).
- Compact and Check of the tree: Compact takes separators from child positions beyond 57 leaves and does not write rebuilt chains, so it does not keep the map.
- Header and data-page checksums as bytes: an image either passes its checksum or does not.
- Plan selection, aggregation, sorting and limits, the plan cache, catalog, access control, logs engine, rollups, server and configuration: they would only add easy members.
- Contexts, locks and goroutines: each public method is atomic.

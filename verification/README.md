# A verified model of a relational storage engine

The engine keeps tables in slotted record files and their indexes in a paged B+ tree. Pages go through a buffer pool
with LRU replacement. Queries become trees of scans and block nested-loop joins. Changes are logged before they are
made, and a transaction that aborts is undone from its write set. This project models these parts in Dafny and proves
what they promise, over all inputs and all runs.

- **B+ tree** (`IxNode`, `IxTree`, `IxLeaves`, `IxClash`, `IxIndex`, `IxScan`, `IxSeparatorRun`, `IxKeyIndex`). Pages
  are a map from page numbers to nodes that the index changes in place. The invariant ties sorted slots, equal leaf
  depth, separators, parent links, occupancy, the leaf chain and the stored sorted map. Insertion keeps it and refines
  the map in which the first value given for a key stays, exactly when no slot clash happens: the duplicate test of a
  node looks at the slot past the last key, which may hold a zero key left from a fresh page. The clash is a condition
  on the tree before the call. Over every run of insertions from a fresh index all searches are right up to the first
  step with a clash, and some key is not found after it. No run without the key of zero bytes meets one, and none
  whose keys are all at or above it. Two runs that do are given for an index of any order: one drops the zero key in a
  leaf, one loses a separator above the leaves. Searching is exact, and a scan of the leaf chain yields every entry
  once in key order.
- **Buffer pool** (`LruReplacer`, `BufferPool`, `BufferPoolRuns`, `BufferPoolPins`, `BufferPoolManager`). The pool is
  a value with operations; the manager is a class proved to do the same to its fields. Over every legal run of clients
  each fetch sees the bytes last written, through any evictions, and a page has as many pins as calls that returned it
  less its releases, so that nothing fails once all is given back. A fetch keeps the pool in order exactly when no
  other free frame remembers the page; from every pool in which one does, the fetch has a continuation that reads
  stale bytes.
- **Record files** (`Bitmap`, `RecordPages`, `RecordFile`, `Layout`). A file refines a map from rids to records; the
  list of pages with room is what the links say, and the counters are the numbers of set bits. Deleting a dead slot,
  and inserting at a given place the last record of a page, are shown to break the file, and nothing else does.
- **Planner and join** (`Values`, `Conditions`, `Planner`, `PlanBuilder`, `JoinExecutor`, `PlanExecution`). If every
  comparison within one table is on the first table, the join tree of a query yields exactly the combinations of rows
  that satisfy all conditions, on every database. Otherwise a look-up of a column fails in the scan of the first
  table; the model takes the condition as not met there, so that the tree yields nothing on any database, while the
  engine dereferences the failed look-up. So the tree is right exactly when the comparisons are on the first table or
  no database has anything to yield. A tree of scan and join iterators, joins over joins included, delivers exactly
  the rows that the plan denotes and reaches its end, if and only if no join has an empty input; otherwise the engine
  reads through a null pointer. So every query that has a result gets exactly that, if its comparisons are on the
  first table, and every query over several tables fails if one of them has no rows. What a condition asks for is told
  by the numbers and texts in the rows.
- **Index keys and key ranges** (`Memory`, `IxKeys`, `KeyRange`). The byte order of keys is total, and is that of a
  rank among the integers, which the tree modules use as keys. No row that meets the scan conditions has its key
  outside the range built for them, and the range is no wider than its used columns ask for. The range of datetimes
  holds all that the parser accepts but those of the first day of the year 1000 with a tab before the time.
- **Transaction abort** (`Rollback`, `RollbackPlaces`, `TransactionAbort`). Undoing the writes from the last to the
  first restores the rows of every table, whatever free places re-inserted rows are put at, exactly for transactions
  that delete no row they inserted or updated before. This is against a file that may choose any free place. The
  record file takes the lowest free slot of the first page with room; for any choice the rows are restored if every
  row that was inserted or updated and then deleted goes back to its place. The places that the files will choose are
  told before the abort, from the writes, the rows and the lists of pages with room, and if they put these rows back,
  the abort restores everything. On a record file both ways are shown: a transaction that inserts a row and deletes it
  is undone, and one that inserts a row and deletes it and the row before ends with the wrong row.
- **Log** (`LogCodec`, `LogManager`, `LogRecovery`). Records round-trip through their bytes, the log is the
  concatenation of its records with consecutive numbers, and the analysis pass finishes exactly for logs whose buffers
  can be cut between records, with exactly the unfinished transactions.

Conventions. A pure component is a datatype with functions; a component that the engine changes in place is a class
whose methods are proved equal to, or bounded by, those functions. Exceptions are `Option` results or a false flag.
The disk is a total map of pages, and the log a sequence of bytes. Where documentation and code differ, the model
follows the code. Deleting a page from the pool is said to reset the frame, but leaves the page's name in it. The
capacity of a record page is computed with the size of the file header instead of that of the page header. A begin
record enters as many zeros into the list of its transaction as its log number says, because the list is built from
that number.

## Model

| member | source | states |
|---|---|---|
| `IxNode.LowerBoundLinear` | src/index/ix_index_handle.cpp:25-58 | the linear search finds the first slot not below the key |
| `IxNode.LowerBoundBinary` | src/index/ix_index_handle.cpp:25-58 | the binary search returns the same slot on every sorted node, the empty one included |
| `IxNode.UpperBoundLinear` | src/index/ix_index_handle.cpp:67-98 | the linear search finds the first slot from 1 on that is above the key |
| `IxNode.UpperBoundBinary` | src/index/ix_index_handle.cpp:67-98 | the binary search returns the same slot, with the start-at-1 rule |
| `IxNode.InsertPairSlots` | src/index/ix_index_handle.cpp:158-180 | inserting a pair shifts the later slots by one and touches no other |
| `IxNode.NodeInsertExact` | src/index/ix_index_handle.cpp:191-210 | a node insert adds its key, in order and no other, exactly when the key is absent and no slot clash occurs; otherwise it changes nothing |
| `IxNode.SlotClashExists` | src/index/ix_index_handle.cpp:191-210 | in a page of any size with one key below zero, inserting the zero key is dropped |
| `IxTree.LeafAdd` | src/index/ix_index_handle.cpp:191-210 | a leaf insert keeps the tree except that the leaf may be full and have a new first key |
| `IxTree.RaiseLow` | src/index/ix_index_handle.cpp:999-1017 | telling the parent a lower first key moves the disagreement one level up |
| `IxTree.LowResolved` | src/index/ix_index_handle.cpp:999-1017 | when the parent's slot agrees, or the root is reached, the tree is in order |
| `IxTree.SeparatorSlot` | src/index/ix_index_handle.cpp:503-507 | the separator of a split goes right behind the split page in its parent |
| `IxTree.EnterSibling` | src/index/ix_index_handle.cpp:503-507 | entering the new sibling completes the split; the parent may be full |
| `IxTree.GrowRoot` | src/index/ix_index_handle.cpp:484-501 | a new root over the two halves of the old one is a tree one level higher |
| `IxTree.SplitPage` | src/index/ix_index_handle.cpp:409-458 | splitting a full page keeps order, intervals, occupancy, child links and parent links |
| `IxLeaves.OneLeaf` | src/index/ix_index_handle.cpp:300-364 | no key belongs to two leaves |
| `IxLeaves.LeafAddContents` | src/index/ix_index_handle.cpp:534-576 | a leaf insert adds exactly its key to the stored map and keeps the chain |
| `IxLeaves.SplitChain` | src/index/ix_index_handle.cpp:437-448 | a split leaf takes its place in the chain of leaves |
| `IxLeaves.SplitContents` | src/index/ix_index_handle.cpp:409-458 | a split changes nothing that is stored |
| `IxLeaves.LeafForIs` | src/index/ix_index_handle.cpp:300-364 | the descent ends on the one leaf responsible for the key |
| `IxLeaves.FindExact` | src/index/ix_index_handle.cpp:373-400 | searching from any page responsible for a key answers as the stored map |
| `IxClash.KeysStored` | src/index/ix_index_handle.cpp:473-576 | every key in the tree, separators included, is a stored key |
| `IxClash.ClashIsZero` | src/index/ix_index_handle.cpp:191-210 | only the key of zero bytes can meet a slot clash |
| `IxClash.InsertNoClash` | src/index/ix_index_handle.cpp:191-210 | no insertion clashes at any level if the zero key is neither stored nor inserted, or no stored key is below it |
| `IxClash.SeparatorLost` | src/index/ix_index_handle.cpp:503-507 | if the separator is not entered in the parent, a stored key is not found |
| `IxClash.PassThrough` | src/index/ix_index_handle.cpp:300-364 | the descent for a key in the span of a page passes through the page |
| `IxClash.RightmostClash` | src/index/ix_index_handle.cpp:191-210 | inserting the zero key behind the last key of the last leaf always clashes |
| `IxClash.BelowZeroClash` | src/index/ix_index_handle.cpp:191-210 | so it does in every valid index that holds keys, all of them below zero |
| `IxClash.SeparatorClash` | src/index/ix_index_handle.cpp:473-525 | a key that fills the last leaf so that zero is its middle key clashes in the parent, not in the leaf |
| `IxIndex.IxIndexHandle.constructor` | src/index/ix_manager.h:81-134 | a fresh index is a valid tree of one empty leaf |
| `IxIndex.IxIndexHandle.FindLeafPage` | src/index/ix_index_handle.cpp:300-364 | the descent loop ends on the leaf responsible for the key |
| `IxIndex.IxIndexHandle.GetValue` | src/index/ix_index_handle.cpp:373-400 | answers as the stored map for every key |
| `IxIndex.IxIndexHandle.IsKeyExist` | src/index/ix_index_handle.cpp:1094-1112 | true exactly for stored keys |
| `IxIndex.IxIndexHandle.FindChild` | src/index/ix_index_handle.h:155-164 | the first slot that points to the child |
| `IxIndex.IxIndexHandle.MaintainParent` | src/index/ix_index_handle.cpp:999-1017 | the loop up the ancestors restores the tree after a new first key |
| `IxIndex.IxIndexHandle.CreateNode` | src/index/ix_index_handle.cpp:982-992 | a page number that no page had before, so that no page is overwritten; numbers stay in range |
| `IxIndex.IxIndexHandle.MaintainChildren` | src/index/ix_index_handle.cpp:1048-1056 | the children of the moved slots point to their new parent |
| `IxIndex.IxIndexHandle.Split` | src/index/ix_index_handle.cpp:409-458 | the upper half moves to a new page and the index keeps all invariants but the parent's entry |
| `IxIndex.IxIndexHandle.NewRoot` | src/index/ix_index_handle.cpp:484-501 | a split root gets a new root above it |
| `IxIndex.IxIndexHandle.EnterInParent` | src/index/ix_index_handle.cpp:503-507 | the parent takes the new page unless a slot clash gets in the way |
| `IxIndex.IxIndexHandle.InsertIntoParent` | src/index/ix_index_handle.cpp:473-525 | the recursion up the tree ends in a valid index, or loses a stored key exactly when some level clashes |
| `IxIndex.IxIndexHandle.AddToLeaf` | src/index/ix_index_handle.cpp:534-550 | the leaf insertion with its upkeep of first keys |
| `IxIndex.IxIndexHandle.InsertEntry` | src/index/ix_index_handle.cpp:534-576 | every search answers as the first-insert-wins map if and only if no clash was there before the call; then the index is valid |
| `IxIndex.IxIndexHandle.MeetsClash` | src/index/ix_index_handle.cpp:191-210 | the condition can be computed before the call |
| `IxIndex.RunWinsFirst` | src/index/ix_index_handle.cpp:534-576 | the reference map holds for each key the first value given |
| `IxIndex.BuildIndex` | src/index/ix_index_handle.cpp:534-576 | every run of insertions: before each step up to the first clash, and at the end without one, every search answers with the first value given; the clashing step is named, and some key given is not found after it; runs without the zero key, or without keys below it, never clash |
| `IxIndex.ClashRun` | src/index/ix_index_handle.cpp:534-576 | in a fresh index of any order, a key below zero and then zero: the second is dropped and not found |
| `IxSeparatorRun.SeparatorRun` | src/index/ix_index_handle.cpp:473-576 | in a fresh index of any order, zero, keys below and keys above it: every search is right and zero is stored, and the last key, without a clash in its leaf, makes a stored key unfindable |
| `IxIndex.IxIndexHandle.LeafBegin` | src/index/ix_index_handle.cpp:953-957 | the leaf without lower bound; if anything is stored, the position is at the least stored key |
| `IxIndex.IxIndexHandle.LeafEnd` | src/index/ix_index_handle.cpp:940-946 | the leaf without upper bound; if anything is stored, the position is right behind the greatest stored key |
| `IxChainScan.EntriesExact` | src/index/ix_scan.cpp:17-32 | the chain of leaves holds exactly the stored map |
| `IxChainScan.EntriesAscend` | src/index/ix_scan.cpp:17-32 | the entries along the chain ascend strictly |
| `IxChainScan.IxScan.Next` | src/index/ix_scan.cpp:17-32 | the next slot, or the first slot of the next leaf |
| `IxChainScan.ScanAll` | src/index/ix_scan.cpp:17-32 | a full scan ends and yields every stored entry once in strictly ascending key order |
| `IxKeys.CompareKeys` | src/index/ix_index_handle.h:45-54 | the loop over the columns gives the lexicographic comparison of the columns, which the three rows below tell by numbers, bytes and columns |
| `IxKeys.IntegerOrder` | src/index/ix_index_handle.h:20-41 | stored integers of four and of eight bytes compare as -1, 0 or 1 exactly as the integers are below, equal or above |
| `IxKeys.MemCmpFirst` | src/index/ix_index_handle.h:31-34 | strings and datetimes are below, equal or above as the first differing byte says |
| `IxKeys.FirstColumnDecides` | src/index/ix_index_handle.h:45-54 | the first column that differs decides, by its own comparison |
| `IxKeys.IxCompareOrder` | src/index/ix_index_handle.h:20-54 | the comparison is antisymmetric, and only equal bytes compare equal |
| `IxKeys.IxCompareTransitive` | src/index/ix_index_handle.h:20-54 | the comparison is transitive, over integers, strings and datetimes mixed |
| `IxKeys.ColumnwiseBelow` | src/index/ix_index_handle.h:45-54 | a key that is at most another in every column is at most the other |
| `IxKeys.RankOrder` | src/index/ix_index_handle.h:20-54 | comparing keys is comparing their integer ranks, and only equal keys have equal ranks |
| `IxKeys.ZeroLeastIff` | src/index/ix_index_handle.h:20-54 | the key of zero bytes is the least key exactly when no column holds negative numbers |
| `IxKeyIndex.BuildKeyIndex` | src/index/ix_index_handle.cpp:534-576 | every run of insertions of byte keys: without a clash every search answers with the value first given for the key, after one some key given is not found; indexes over strings and datetimes never clash |
| `KeyRange.RawOrder` | src/common/common.h:154-211 | comparing values as conditions do agrees with comparing their stored bytes as the index does |
| `KeyRange.LoadFits` | src/common/common.h:69-123 | a field read from a row and written again gives the same bytes |
| `KeyRange.ColumnRange` | src/execution/executor_index_scan.h:104-145 | the bounds of a column are the tightest that its constant conditions give; any other operator than equality ends the use of further columns |
| `KeyRange.InitKeyRange` | src/execution/executor_index_scan.h:56-151 | the two key buffers are the bytes of such bounds, the whole range behind the last used column; every row that meets the conditions has its key between the two buffers; fails exactly for a column type without a range |
| `KeyRange.RangeSound` | src/execution/executor_index_scan.h:56-151 | every row that meets the conditions has its key within the range; its datetimes are of the form that is read, but not on the first day with a tab |
| `KeyRange.DatetimeRange` | src/common/datetime_utils.hpp:38-75 | every datetime text that the engine accepts, from the year 1000 on, lies within the whole range of its column, except exactly those of the first day with a tab before the time |
| `KeyRange.TabOutside` | src/parser/lex.l:39-45 | such a datetime, accepted by the parser and below the range |
| `KeyRange.SatMeets` | src/execution/executor_utils.hpp:11-43 | a row of a table that satisfies the conditions of its scan meets those on key columns |
| `KeyRange.SatInRange` | src/execution/executor_index_scan.h:56-151 | so its key lies between the two keys built for the scan |
| `KeyRange.BelowRange` | src/execution/executor_index_scan.h:104-145 | a key at the lower bound before a column, and in it below a constant it is asked to reach, lies below the range |
| `KeyRange.AboveRange` | src/execution/executor_index_scan.h:104-145 | a key at the upper bound before a column, and in it above a constant it is asked not to pass, lies above the range |
| `KeyRange.WholeBehind` | src/execution/executor_index_scan.h:62-103 | behind a column with another comparison than equality the range is the whole one of the column's type, which for datetimes ends with two datetimes |
| `Values.SwapLaw` | src/common/common.h:154-211 | exchanging operands and mirroring the operator changes no outcome |
| `Conditions.SatAllAsks` | src/execution/executor_utils.hpp:11-43 | all conditions are satisfied exactly if each asks for the combination: its column and the constant or other column have values related, as numbers or as texts, by its operator |
| `Conditions.NumberCondition` | src/execution/executor_utils.hpp:37-39 | for a column with an integer, and a constant or column with another, one statement for each of the six operators |
| `Conditions.TextCondition` | src/execution/executor_utils.hpp:37-39 | the same for texts, by the number that the zero-padded bytes up to the first zero write |
| `Conditions.WantedAsked` | src/optimizer/planner.cpp:222-330 | what the planner's theorems say of a query is that: one existing row of each table, and every condition asks for the combination |
| `Planner.ExecIsFilteredProduct` | src/optimizer/planner.cpp:222-330 | a resolved tree yields exactly the combinations of rows that satisfy its conditions |
| `Planner.ExecKeys` | src/optimizer/planner.cpp:222-330 | a tree yields no combination twice |
| `Planner.EmptyBelow` | src/optimizer/planner.cpp:222-330 | a tree with a scan that yields nothing yields nothing |
| `PlanBuilder.MirrorSat` | src/optimizer/planner.cpp:141-182 | a condition read from the other side means the same |
| `PlanBuilder.PopConds` | src/optimizer/planner.cpp:124-139 | the loop that erases while iterating splits the conditions by the claim of the table, in order |
| `PlanBuilder.PushCondsAdds` | src/optimizer/planner.cpp:141-182 | a pushed condition lands on a join over both its tables and no other condition changes |
| `PlanBuilder.PopScan` | src/optimizer/planner.cpp:184-197 | the scan of the table, marked used |
| `PlanBuilder.SameConditions` | src/optimizer/planner.cpp:222-330 | the tree asks of a combination of rows what the query asks |
| `PlanBuilder.MisplacedYieldsNothing` | src/optimizer/planner.cpp:124-139 | if a same-table comparison is on another table than the first, a scan of the tree, and so the tree, yields nothing on any database |
| `PlanBuilder.PlanCorrect` | src/optimizer/planner.cpp:222-330 | with all conditions placed, all look-ups succeed exactly when same-table comparisons are on the first table; the tree denotes the filtered product on every database exactly then, or when the query asks for nothing on any |
| `PlanBuilder.MakeOneRel` | src/optimizer/planner.cpp:222-330 | the built tree reads each table once and yields no combination twice; it yields what the query asks for on every database if and only if same-table comparisons are on the first table or the query asks for nothing; otherwise it yields nothing |
| `PlanBuilder.MisplacedExample` | src/optimizer/planner.cpp:124-139 | a query over two tables, a database, and a combination of rows that the query asks for and the built tree does not yield |
| `PlanBuilder.OpposedConditions` | src/optimizer/planner.cpp:222-330 | queries that ask for nothing: two columns equal and unequal |
| `JoinExecutor.BlocksAreNestedLoop` | src/execution/executor_blocknestedloopjoin_join.h:42-111 | joining block by block gives the rows of the nested loop, as often |
| `JoinExecutor.CheckConds` | src/execution/executor_utils.hpp:11-43 | the loop over the conditions is true exactly if each asks for the row |
| `JoinExecutor.SeqScan.NextTuple` | src/execution/executor_seq_scan.h:71-77 | moves to the next row that meets the conditions, or to the end |
| `JoinExecutor.BlockNestedLoopJoin.LoadLeftBuffer` | src/execution/executor_blocknestedloopjoin_join.h:42-48 | the buffer holds the next block of left rows; fails exactly if the left input promises a row that is not there |
| `JoinExecutor.BlockNestedLoopJoin.BeginTuple` | src/execution/executor_blocknestedloopjoin_join.h:69-79 | over inputs with rows everything is still to be delivered; an empty left input leaves the right one unstarted, so that the end cannot be told; an empty right one leaves the buffer unfilled and the join not at its end; so does, or fails at once, a join with an empty input further down |
| `JoinExecutor.BlockNestedLoopJoin.NextRight` | src/execution/executor_blocknestedloopjoin_join.h:84-93 | the next right row, or the first one with the next block of left rows; what is to come stays the same; tells when both inputs are exhausted |
| `JoinExecutor.BlockNestedLoopJoin.NextTuple` | src/execution/executor_blocknestedloopjoin_join.h:81-100 | moves past exactly one row, through counter wrap-around, buffer ends and rescans of inputs that are themselves joins, and terminates; fails exactly if the right input promises a row that is not there |
| `JoinExecutor.EndIs` | src/execution/executor_blocknestedloopjoin_join.h:111 | any iterator reports its end exactly when everything has been delivered |
| `JoinExecutor.UnstartedEnd` | src/execution/executor_blocknestedloopjoin_join.h:111 | an iterator that was never started, at whatever depth, cannot tell whether it is at its end |
| `PlanExecution.SameJoin` | src/execution/executor_blocknestedloopjoin_join.h:69-111 | a join of the same rows in another order gives the same rows, as often |
| `PlanExecution.ConvertPlan` | src/portal.h:224-247 | the iterators for a plan are new, share no object and deliver exactly the rows the plan denotes, each as often |
| `PlanExecution.Execute` | src/execution/execution_manager.cpp:173-174 | a whole tree of nested iterators ends and delivers exactly the rows the plan denotes, each as often, if and only if no join has an empty input; otherwise it fails |
| `PlanExecution.YieldIsFeasible` | src/execution/executor_blocknestedloopjoin_join.h:69-79 | a plan that yields anything has no empty join input |
| `PlanExecution.RunQuery` | src/execution/execution_manager.cpp:173-174 | from query to result: a run that does not fail puts out each combination of rows that the query asks for, told by the numbers and texts in the rows, exactly once, and nothing else; it does not fail if there is a result and the same-table comparisons are on the first table; it fails if one of several tables has no rows |
| `PlanExecution.EmptyTableExample` | src/execution/executor_blocknestedloopjoin_join.h:69-79 | two tables, one without rows: the query for all pairs asks for nothing and fails, in either order |
| `LruReplacer.LRUReplacer.Victim` | src/replacer/lru_replacer.cpp:22-45 | takes the frame at the back, and keeps list and index in step |
| `LruReplacer.LRUReplacer.Pin` | src/replacer/lru_replacer.cpp:52-66 | takes one frame out and leaves the order of the others |
| `LruReplacer.LRUReplacer.Unpin` | src/replacer/lru_replacer.cpp:73-90 | a frame not listed goes to the front, a listed one stays where it is |
| `LruReplacer.LRUReplacer.FramesDistinct` | src/replacer/lru_replacer.cpp:22-90 | in every reachable replacer no frame is listed twice and the index knows exactly the listed frames |
| `LruReplacer.VictimIsOldest` | src/replacer/lru_replacer.cpp:22-90 | over every run of calls the victim is the frame evictable longest without interruption |
| `BufferPool.VictimTaken` | src/storage/buffer_pool_manager.cpp:19-35 | eviction takes an unpinned frame, and fails exactly when all frames are pinned |
| `BufferPool.ReuseKeeps` | src/storage/buffer_pool_manager.cpp:44-73 | giving a frame to a page keeps the pool in order exactly when no other free frame remembers the page |
| `BufferPool.FetchKeeps` | src/storage/buffer_pool_manager.cpp:83-134 | a fetch keeps the invariant exactly under that condition on the free list |
| `BufferPool.NewKeeps` | src/storage/buffer_pool_manager.cpp:233-262 | a new page always keeps the invariant |
| `BufferPool.UnpinKeeps` | src/storage/buffer_pool_manager.cpp:143-184 | a release keeps the invariant |
| `BufferPool.UnpinDoes` | src/storage/buffer_pool_manager.cpp:143-184 | a release succeeds exactly for a pinned page, takes one pin off, makes the frame evictable exactly with the last pin, and keeps or sets the dirty flag |
| `BufferPool.FlushDoes` | src/storage/buffer_pool_manager.cpp:192-225 | a flush succeeds exactly for pages in the pool, puts their bytes on the disk and no others, and leaves the frame clean |
| `BufferPool.DeleteDoes` | src/storage/buffer_pool_manager.cpp:270-296 | a delete fails exactly for a pinned page, and then changes nothing; otherwise the page leaves the pool, no other does, and its frame is free |
| `BufferPool.NoEviction` | src/storage/buffer_pool_manager.cpp:19-35 | while a frame is free no page leaves the pool |
| `BufferPool.DeleteKeeps` | src/storage/buffer_pool_manager.cpp:270-296 | deleting keeps the invariant although the frame stays with the replacer |
| `BufferPool.HeldApart` | src/storage/buffer_pool_manager.cpp:44-73 | no two frames hold the same page |
| `BufferPool.FetchServes` | src/storage/buffer_pool_manager.cpp:83-134 | a fetch delivers the page's bytes and changes no page |
| `BufferPool.NewServes` | src/storage/buffer_pool_manager.cpp:233-262 | a new page has an unused number and zero bytes, and no page changes |
| `BufferPool.UnpinServes` | src/storage/buffer_pool_manager.cpp:143-184 | a release changes no page if writers release as dirty |
| `BufferPool.FlushServes` | src/storage/buffer_pool_manager.cpp:192-225 | a flush changes no page |
| `BufferPool.DeleteServes` | src/storage/buffer_pool_manager.cpp:270-296 | a deleted page keeps its bytes on the disk |
| `BufferPoolRuns.RunServes` | src/storage/buffer_pool_manager.cpp:83-296 | every legal run keeps the pool equal to the plain page map changed by the writes alone |
| `BufferPoolRuns.FetchSeesLastWrite` | src/storage/buffer_pool_manager.cpp:83-296 | after every legal run a fetch sees the bytes last written, or fails because all frames are pinned |
| `BufferPoolRuns.PoliteIsLegal` | src/storage/buffer_pool_manager.cpp:83-262 | without deletes the condition on the free list always holds, so clients need only keep to their own rules |
| `BufferPoolRuns.PoliteFetchSeesLastWrite` | src/storage/buffer_pool_manager.cpp:83-262 | in every run of fetches, new pages, writes, releases and flushes every fetch sees the bytes last written, or fails because all frames are pinned |
| `BufferPoolRuns.PinnedStays` | src/storage/buffer_pool_manager.cpp:83-296 | while pinned a page keeps its frame, its table entry, and its bytes unless written; only its own fetches and releases change the pins |
| `BufferPoolRuns.StaleFrameReached` | src/storage/buffer_pool_manager.cpp:270-296 | legal calls lead to a free frame that remembers a page |
| `BufferPoolRuns.StaleFrameUnsafe` | src/storage/buffer_pool_manager.cpp:83-134 | fetching that page there is against the condition on the free list |
| `BufferPoolRuns.StaleRead` | src/storage/buffer_pool_manager.cpp:44-134 | from every pool in order, a fetch against the condition has a continuation, of a write, new pages, a release and a fetch, that reads the disk's bytes of a page that is written and pinned in another frame |
| `BufferPoolPins.StepPins` | src/storage/buffer_pool_manager.cpp:83-296 | a fetch or new page that succeeds adds one pin to its page, a release that succeeds takes one off, and nothing else changes the pins of any page |
| `BufferPoolPins.PinsAreBalance` | src/storage/buffer_pool_manager.cpp:83-296 | in every legal run from an empty pool the pins of a page are the calls that returned it less its releases |
| `BufferPoolPins.AllGivenBack` | src/storage/buffer_pool_manager.cpp:83-296 | once every page was released as often as it was taken no frame is pinned, and no fetch and no new page fails in a pool with a frame |
| `BufferPoolPins.FetchSucceeds` | src/storage/buffer_pool_manager.cpp:83-134 | a fetch succeeds exactly if the page is in the pool or a frame is not pinned; otherwise nothing changes |
| `BufferPoolPins.NewSucceeds` | src/storage/buffer_pool_manager.cpp:233-262 | a new page is made exactly if a frame is not pinned; otherwise nothing changes |
| `BufferPoolPins.NumbersWithoutGaps` | src/storage/buffer_pool_manager.cpp:233-262 | over every run the new pages of a file are numbered without gaps |
| `BufferPoolManagement.BufferPoolManager.FindVictimPage` | src/storage/buffer_pool_manager.cpp:19-35 | does to the fields what the operation on the value does |
| `BufferPoolManagement.BufferPoolManager.UpdatePage` | src/storage/buffer_pool_manager.cpp:44-73 | writes back, takes off the table, and enters the new page if one is given |
| `BufferPoolManagement.BufferPoolManager.FetchPage` | src/storage/buffer_pool_manager.cpp:83-134 | result and new state are those of the operation on the value, whose bytes `FetchServes` and whose pins `StepPins` tell |
| `BufferPoolManagement.BufferPoolManager.NewPage` | src/storage/buffer_pool_manager.cpp:233-262 | result and new state are those of the operation on the value |
| `BufferPoolManagement.BufferPoolManager.UnpinPage` | src/storage/buffer_pool_manager.cpp:143-184 | result and new state are those of the operation on the value |
| `BufferPoolManagement.BufferPoolManager.FlushPage` | src/storage/buffer_pool_manager.cpp:192-225 | result and new state are those of the operation on the value |
| `BufferPoolManagement.BufferPoolManager.DeletePage` | src/storage/buffer_pool_manager.cpp:270-296 | result and new state are those of the operation on the value |
| `BufferPoolManagement.BufferPoolManager.FlushAllPages` | src/storage/buffer_pool_manager.cpp:332-346 | in any order of the table, the disk alone then has the pages of the file, and no page changes |
| `BufferPoolManagement.BufferPoolManager.FlushAllPage` | src/storage/buffer_pool_manager.cpp:352-367 | no frame is dirty afterwards, and no page changes |
| `BufferPoolManagement.BufferPoolManager.DeleteAllPage` | src/storage/buffer_pool_manager.cpp:302-324 | all pages of the file leave the pool, or nothing changes if one is pinned |
| `Bitmap.Set` | src/record/bitmap.h:25 | sets one bit and no other |
| `Bitmap.Reset` | src/record/bitmap.h:28 | clears one bit and no other |
| `Bitmap.HighestFirst` | src/record/bitmap.h:25-34 | the bits of a byte are counted from the highest one |
| `Bitmap.NextBit` | src/record/bitmap.h:41-48 | the first position after the current one with the wanted bit, or the limit |
| `Bitmap.CountSet` | src/record/rm_file_handle.cpp:78-82 | setting a clear bit adds one to the count |
| `Bitmap.CountFull` | src/record/rm_file_handle.cpp:84-88 | the count is full exactly when every bit is set |
| `RecordPages.PutRoom` | src/record/rm_file_handle.cpp:84-88 | filling the first page of the list keeps the list exactly the pages with room |
| `RecordPages.DropRoom` | src/record/rm_file_handle.cpp:138-145 | a full page that loses a record goes to the front of the list |
| `RecordPages.AddPage` | src/record/rm_file_handle.cpp:207-240 | a new page has the next number and is the only one with room |
| `RecordPages.TotalIsRows` | src/record/rm_defs.h:33-37 | the record counters of the pages add up to the number of rows |
| `RecordPages.FileFull` | src/record/rm_file_handle.cpp:247-259 | there is no page with room exactly when all slots of all pages are in use |
| `RecordFile.RmFileHandle.GetRecord` | src/record/rm_file_handle.cpp:21-40 | the record of a live rid; fails exactly for the invalid page number |
| `RecordFile.RmFileHandle.InsertRecord` | src/record/rm_file_handle.cpp:48-102 | stores the record at an unused rid, the lowest free slot of the first page with room or of a new page, and changes no other row; the file grows exactly when it is full, and a page leaves the list exactly when it is full |
| `RecordFile.RmFileHandle.DeleteRecord` | src/record/rm_file_handle.cpp:129-152 | removes exactly its row, and leaves the file in order if and only if the rid was live; a page that was full goes to the front of the list |
| `RecordFile.RmFileHandle.UpdateRecord` | src/record/rm_file_handle.cpp:160-178 | changes exactly its row |
| `RecordFile.RmFileHandle.InsertRecordAt` | src/record/rm_file_handle.cpp:109-122 | stores the record at its place, and leaves the file in order unless it takes the last free slot of a page |
| `RecordFile.RmFileHandle.CreatePageHandle` | src/record/rm_file_handle.cpp:247-259 | a page with room: the first of the list, or a new one |
| `RecordFile.RmFileHandle.CreateNewPageHandle` | src/record/rm_file_handle.cpp:207-240 | a blank page that becomes the list of pages with room |
| `RecordFile.RmFileHandle.IsRecord` | src/record/rm_file_handle.h:70-73 | true exactly for live rids |
| `RecordFile.ChainUnique` | src/record/rm_file_handle.cpp:264-274 | the links give one list only |
| `RecordFile.RmScan.constructor` | src/record/rm_scan.cpp:18-25 | starts at the least live rid, or at the end exactly for an empty file |
| `RecordFile.RmScan.Next` | src/record/rm_scan.cpp:30-52 | moves to the least live rid after the current one, or to the end |
| `RecordFile.ScanAll` | src/record/rm_scan.cpp:18-61 | visits exactly the live rids, each once, in the order of pages and slots, and ends |
| `Layout.CreateFile` | src/record/rm_manager.h:38-58 | for record sizes 1 to 512 header, bitmap and slots are apart and in the page, with a bit for every slot and no byte more, and the number of records is exactly the one computed with the size of the file header; other sizes are refused |
| `Layout.RecordPlaces` | src/record/rm_file_handle.h:33-42 | header, bitmap and slots follow one another from byte 4 on, each of its size |
| `Layout.CreateIndex` | src/index/ix_manager.h:57-84 | for key lengths up to 512 the order is above 2, and all keys and rids up to the slot past the order are apart and in the page, and one more would not fit |
| `Layout.IndexPlaces` | src/index/ix_index_handle.h:71-75 | header, keys and rids follow one another from byte 0 on, each of its size |
| `Rollback.SafeRollback` | src/transaction/transaction_manager.cpp:99-177 | rolling back a safe transaction finds every row it looks for and restores the rows of every table, rows not deleted at their places |
| `Rollback.OwnExact` | src/transaction/transaction_manager.cpp:99-177 | for any choice of places, every write is undone on its own row exactly when each row inserted or updated and then deleted is put back where it was |
| `Rollback.PlacedRollback` | src/transaction/transaction_manager.cpp:99-177 | then the rollback restores the rows of every table, rows not deleted at their places |
| `Rollback.RollbackExact` | src/transaction/transaction_manager.cpp:99-177 | a rollback restores the rows for every choice of free places if and only if no row was deleted that had been inserted or updated before |
| `Rollback.LosingChoice` | src/transaction/transaction_manager.cpp:128-147 | after an insert and the deletion of both rows, the lowest free slots exchange the two rows |
| `Rollback.LostRow` | src/transaction/transaction_manager.cpp:99-177 | with the rows exchanged the rollback finds all it looks for and does not restore the rows |
| `Rollback.MissingRow` | src/transaction/transaction_manager.cpp:99-177 | a row that is looked for and not there belongs to an unsafe transaction, whatever places follow |
| `RollbackPlaces.ChoicesAllocate` | src/transaction/transaction_manager.cpp:128-147 | the places that the files will choose, told from how they stand before, are free when they are used |
| `RollbackPlaces.PlacedFound` | src/transaction/transaction_manager.cpp:99-177 | if these places put back every row that was inserted or updated and then deleted, every row looked for is there |
| `TransactionAbort.Transaction.InsertTuple` | src/execution/executor_insert.h:74-91 | the row is in the table's file at a place that was free, every other row of every table is as it was, and the write is noted |
| `TransactionAbort.Transaction.DeleteTuple` | src/execution/executor_delete.h:43-72 | the row is out of the table's file, every other row of every table is as it was, and the write is noted with the old record |
| `TransactionAbort.Transaction.UpdateTuple` | src/execution/executor_update.h:100-129 | the table's file has the new record in the row's place, every other row of every table is as it was, and the write is noted with the old record |
| `TransactionAbort.UndoWrite` | src/transaction/transaction_manager.cpp:104-173 | undoes one write on the file of its table: an inserted row is out, a deleted one in at a free place, an updated one has its old record if it is there; no other row changes |
| `TransactionAbort.Transaction.Abort` | src/transaction/transaction_manager.cpp:88-177 | on the record files the loop over the write set ends in the state of the undo on values, with the places told before the call, or damages a file exactly when the row of an insert is gone; if these places put deleted rows back, and always for a safe transaction, it is sound and all rows of the start are back; files with room for everything do not grow |
| `TransactionAbort.LoseRow` | src/transaction/transaction_manager.cpp:88-177 | on a record file: one row, another inserted, both deleted, abort; the file ends with the other row |
| `TransactionAbort.KeepRow` | src/transaction/transaction_manager.cpp:88-177 | on a record file: one row, another inserted and deleted, abort; the file ends as it began |
| `Memory.IntRoundTrip` | src/recovery/log_manager.h:51-65 | a 32-bit integer is read back from its bytes |
| `Memory.ByteIs` | src/recovery/log_manager.h:51-65 | the bytes of a number are its digits to base 256, the lowest first |
| `Memory.SignedRoundTrip` | src/common/common.h:69-123 | an integer of any number of bytes in two's complement is read back |
| `Memory.BigintRoundTrip` | src/common/common.h:79-107 | a 64-bit integer is read back from its bytes |
| `LogCodec.SerializeHeader` | src/recovery/log_manager.h:51-57 | the header fields at their offsets |
| `LogCodec.HeaderFormat` | src/recovery/log_manager.h:51-57 | byte by byte: the number of the type, the log number, the length, the transaction and the previous log number |
| `LogCodec.Serialize` | src/recovery/log_manager.h:138-150 | the bytes of the record at the start of the buffer, and nothing else changed |
| `LogCodec.OneValueFormat` | src/recovery/log_manager.h:138-150 | byte by byte: size and bytes of the value from byte 20 on, page, slot, length of the table's name, name |
| `LogCodec.TwoValueFormat` | src/recovery/log_manager.h:265-281 | byte by byte: the old value before the new one, then page, slot and name |
| `LogCodec.SerializeValues` | src/recovery/log_manager.h:265-281 | the old and new values, each behind its size |
| `LogCodec.Deserialize` | src/recovery/log_manager.h:152-162 | reads back the record that was written, whatever follows it |
| `LogCodec.DeserializeChange` | src/recovery/log_manager.h:283-296 | reads back values, rid and table name at running offsets |
| `LogManagement.RecordAt` | src/recovery/log_manager.cpp:19-40 | each record of a log starts where the lengths of those before it end |
| `LogManagement.LogManager.AddLogToBuffer` | src/recovery/log_manager.cpp:19-40 | the record gets the next number and its bytes are appended to the log; the log stays the concatenation of its records with consecutive numbers |
| `LogRecovery.AttIsUnfinished` | src/recovery/log_recovery.cpp:18-93 | the table of active transactions holds exactly those with a begin or a change after their last commit or abort |
| `LogRecovery.AttLists` | src/recovery/log_recovery.cpp:36-49 | the list of an active transaction: as many zeros as the log number of the begin record that opened it says, none if a change opened it, and then the log numbers of its changes since then |
| `LogRecovery.ChangesAre` | src/recovery/log_recovery.cpp:85-176 | these are exactly the changes of the transaction since it last ended |
| `LogRecovery.ChangesAscend` | src/recovery/log_recovery.cpp:85-176 | they are in the order of the log |
| `LogRecovery.ByLsnLast` | src/recovery/log_recovery.cpp:50-60 | under each log number stands the last record with it |
| `LogRecovery.FieldRead` | src/recovery/log_recovery.cpp:27-31 | a length field that reaches one byte behind the buffer is still read right |
| `LogRecovery.FateIs` | src/recovery/log_recovery.cpp:18-31 | buffer by buffer: reading goes over the end exactly if less than eleven bytes are left unused, else finishes with the last records, repeats if no record was taken, and otherwise goes on |
| `LogRecovery.Analyze` | src/recovery/log_recovery.cpp:18-215 | the nested loops finish, repeat or overread exactly as these buffers say, and if they finish have read every record once and in order |
| `LogRecovery.ShortLogReadable` | src/recovery/log_recovery.cpp:18-31 | a log that leaves eleven bytes of one buffer unused is readable |
| `LogRecovery.LongRecordUnreadable` | src/recovery/log_recovery.cpp:28-30 | a log with a record as long as the buffer is not |

## Left out

- B+ tree deletion, redistribution and coalescing: the code as written does not keep the order of siblings, so no such property is stated.
- Index-level lower and upper bounds: the lower bound may point past the end of a leaf that is not the last; only full scans and key ranges are modelled.
- The `prev_leaf` links: a split does not set that of the following leaf, and nothing modelled reads them.
- Keys in the tree modules are integers that stand for the ranks of key bytes, as `IxKeyIndex` uses them.
- Pages of the record file and of the index hold slots as values; where they lie in the bytes of a page is proved in `Layout`.
- Recovery's redo and undo passes: they pass on a missing context that the record file needs.
- The dirty page table of the analysis pass: its key order is not an ordering. Look-ups of table files by name during analysis are left out with it.
- Locks, latches, thread handling, and pin counts inside the index and the record file: every operation runs alone.
- Index upkeep inside the executors and inside abort: the stored key length is zero there.
- Choice of an index for a scan: any choice is allowed, since scans check all conditions again.
- Floating-point columns, and comparisons between different types.
- Errors of the operating system, full disks, and reads of pages that were never allocated.
- FetchServes: a page that was allocated and never written reads as zeros; the engine's read behind the end of the file throws.
- Sorting, aggregation, update of the catalogue, parsing, and the network front end.
- InsertRecordAt: nothing in the engine calls it; it is there to show which calls keep the list of pages.
- Abort: once undoing an insert whose row is gone has damaged a file, what the further undoing makes of it is not stated.
- Analyze: reports that the loop would repeat forever, or would read behind the buffer, instead of doing so.
- AddLogToBuffer: log numbers stay within 32 bits and a record is at most as long as the buffer.
- MisplacedYieldsNothing: a failed look-up of a column counts as a condition not met; the engine dereferences the end of its column list. `RunQuery` shows that such a query fails in any case.
- Scans in a plan run over the rows of a table in order, with or without an index; projection and sorting above the tree are left out.
- RangeSound: datetimes have the form that the parser reads, as `DatetimeRange` states it; fields loaded from a file with other separators are left out.

# A verified model of a small storage engine

The engine keeps pages in a file, caches them in a pinned LRU buffer pool, logs full-page images to a
write-ahead log, locks pages with two-phase WAIT-DIE locking, rolls transactions back from captured
images, and recovers from crashes by replaying winners and rebuilding the pages that losers touched. A B+
tree and a slotted table heap live on the pages. The modules here model that logic in Dafny 4.11 and prove
what it keeps.

| layer | files | what is proved |
|---|---|---|
| B+ tree | `BTreeShape`, `BTreeSplit`, `BTreeTorn`, `BTreeJoin`, `BTreeRebalance`, `BPlusTree`, `BTreeTheorems`, `BTreeRuns` | the flat page store with parent, child and leaf links refines a finite map over every run, with the exact number of pages that every insertion takes; all structural rules are kept; no error path of the rebalancing is reachable; what an insertion that runs out of pages leaves |
| locks | `LockTable`, `LockTheorems`, `LockAnswers`, `LockWaits`, `LockManager` | who gets a lock, dies, sleeps or is refused, in terms of who holds what; what state a transaction is in, in terms of its run; conflict order is acyclic over every run; when WAIT-DIE excludes deadlock and when it does not; no lost wake-up |
| buffer pool | `FrameTable`, `PageManager`, `BufferPool`, `EvictionOrder`, `BufferPoolRuns` | the cache refines a plain store on every exit; over every run of disciplined clients, no page reaches the file ahead of the durable log or with a captured mutation that has no LSN; whoever is evicted is the page that nobody uses and whose last pin was given back longest ago; a page freed while dirty blocks its frame forever |
| log | `LittleEndian`, `WalCodec`, `WalLog`, `LogCorruption`, `LogManager` | record round trips, byte layout, what one wrong byte anywhere in the file does, torn tails, reopening |
| recovery | `RecoveryAnalysis`, `Redo`, `Undo`, `RecoveryHistory`, `RealLog`, `CrashRuns`, `CrashSteps`, `CrashRecovery`, `CrashRestart`, `CrashTheorems`, `NumberedRuns`, `CrashRollback`, `ReplayContext`, `RecoveryEngines`, `UndoEngine`, `RecoveryPass` | a crash at any point of any run, which may have been through any number of crashes and restarts, leads from the bytes of the log back to exactly the committed state; restartability; what the reuse of transaction numbers does; where recovery fails |
| transactions | `Rollback`, `Transaction`, `CommitRuns`, `Coordinator` | capture followed by reverse rollback is the identity; durability before lock release; what every crash of every run makes of reported commits and aborts |
| database | `LockedPages`, `DatabaseRuns`, `Database`, `DatabaseCrash`, `DatabaseExample` | every call on the objects of a database is a sequence of steps of such a run, page ownership following from the lock table; so a crash after any calls recovers to the committed state |
| table heap | `TupleCodec`, `SlottedPage`, `HeapListing`, `TableHeap` | slotted pages refine an append-only list of rows with live flags; where each row goes; what record ids of other tables do |

`dafny verify dfyconfig.toml` checks everything.

## How the model is built

Code that changes state step by step is a class or a method with a loop (`BPlusTree`, `LockManager`,
`BufferPool`, `PageManager`, `LogManager`, `ReplayContext`, `Transaction`, `Coordinator`, `TableHeap`, the
REDO and UNDO passes), proved against functions over plain values, about which the lemmas speak. A C++
exception is a result value; `false`, `None` or a `Threw` answer stands for it, and contracts say what holds
on that exit too. A `ghost` page table of heights and key fences describes the B+ tree's shape; it is not
part of the code's data.

`ReplayContext` and `Transaction` run over the modelled buffer pool and page manager, not over an abstract
store: `View()` ("the frame of a resident page, the disk otherwise") is what the store-level theorems are
about. `RecoverDatabase` goes from the bytes of the log file to the recovered store, and `RecoverRun` from the
bytes that any crash of any run leaves to the committed one.

`CrashRuns` is a state machine of whole runs: changes under exclusive page locks, commits, rollbacks, page
allocation, write-back through the log gate, log flushes, and restarts: a crash, recovery as specified, and a
new start on what it left. A rollback takes a page back image by image and the cache may evict it on the way; the
step `Spill` stands for that. The history of such a run has an Abort entry of LSN zero for every transaction that a
crash cut off; the log file does not have these, and `MarksDoNotMatter` says that recovery cannot tell. A
transaction has at most one terminal record there, and transactions of different lifetimes are told apart;
`CommitRuns` covers the runs in which a failed flush leads to both terminal records, and `NumberedRuns` those in
which numbers are used again after a restart, as the code does.
`CrashTheorems` quantifies over every run, every point in it and every surviving length of the log.

`CommitRuns` is a second state machine, of the log, the coordinator and the lock manager, with flushes that may
fail. The `…Step` methods of `Coordinator` prove that the operations of the classes are its steps.

`Database` wires the log, the page manager, the buffer pool, the lock manager and the coordinator together as the
`Database` constructor does, and has a ghost field with the state of the `CrashRuns` run that it is in. Each of its
methods ensures which steps that run has taken (`Took`). That a transaction which changes a page is the only one with
open changes there is not assumed: `Write` asks for the exclusive lock, and `LockedPages` derives it from the lock
table. `CrashAndRecover` then crashes such an object with any part of the log file behind the flushed bytes, reopens
the log, and runs the recovery passes over a new pool. A few predicates (`Agrees`, `Took`, `Wired`) are quantified over
a dummy number so that the verifier looks into them only where a lemma (`AgreesMeans`, `TookMeans`, `WiredMeans`)
says so.

## Where the code and its documentation differ

The model follows the code. These statements are false of it and have exact conditions here.

- Wait cycles (`docs/transactions-and-concurrency.md:11` says WAIT-DIE prevents them): a sleeping waiter never
  looks at ages again, so a younger transaction can wait for an older one. `DeadlockReachable` is a run that
  ends in a two-thread deadlock. `OrderedUnlessBarging` says when a step breaks the age order: exactly when it
  grants a lock past a younger sleeper with a conflicting request. `RunOrderedUnlessBarging` says the same of
  whole runs, and `NoCycleWithoutBarging` that a run without such grants has no cycle. `CycleIsOvertaken` says
  that every cycle contains a lock granted after its waiter fell asleep, to a transaction that is not younger.
- Recovery after rollback (`docs/recovery-architecture.md:5-9`): a transaction that allocates a page, changes
  it and rolls back leaves log records for a page that is no longer allocated, and UNDO throws when it fetches
  the page. `RollBackBlocksRecovery` is such a run. `CrashAnywhere` has the exact condition.
- Recovery run again by a new context after UNDO has released a loser's changed page throws for the same
  reason. `RecoverOnlyOnce` is such a run; `RecoverTwice` has the exact condition. In the same context a repeated
  UNDO is a no-op (`UndoAgain`).
- A commit whose flush fails and that is then aborted leaves both terminal records, and so does an abort whose
  flush fails and that is then committed; analysis rejects such a log from then on. `FailedCommitThenAbort` is
  the first case over the classes, `WaveringRun` a run of either kind, and `RejectedIff` says that these are the
  only logs of the coordinator that analysis rejects.
- Transaction numbers start at 1 in every process while the log is kept. `ReusedNumberRevives` is a log in which
  an unfinished transaction is replayed because an earlier one of its number committed, `ReusedNumberRejected` one
  that is rejected, and `UndoneComesBack` a run in which a change that was undone at a restart is replayed by the next
  recovery. `NumbersDecideWinners` says for every log and every numbering what recovery makes of the store: what it would
  make of it if exactly the transactions whose number committed had won. `FatesKeptIff` and `AcceptedIff` have the exact
  conditions under which these are the right ones and the log is accepted, and `CrashAnywhereNumbered` carries crash
  recovery over to all runs in which the numbers have done no harm at the restarts so far.
- Corruption of the log in front of valid records (`docs/recovery-analysis.md:12` says that it makes analysis fail):
  a wrong byte in the length of a record can make the record reach behind the end of the file, and it is then taken for
  an incomplete tail and dropped with all records behind it, durable or not. `OneByteEmpties` is such a file.
  `OneWrongByte` says that this is the only way in which one wrong byte goes unnoticed.
- A rollback frees the pages that its transaction allocated while their frames are dirty. `RollbackStrands` is such a
  rollback; `StrandedForever` says that in every run from there on the frame can be neither evicted nor deleted and
  `flush_all` never succeeds.
- `flush_page` consults the gates only for frames marked dirty; `FlushBeforeReporting` shows what that lets
  through. `unpin_page` and `restore_page_lsn_after_undo` can leave a changed page marked clean; `UnpinPage`,
  `RestorePageLsn` and `DropKeepsView` have the exact conditions. `Disciplined` is the promise clients have to keep.
- A transaction that dies in WAIT-DIE is `Aborted` at once, and the coordinator's abort then returns without
  any rollback. `DieThenAbort` says that its changes stay, and `DiedChangeStays` is such a run from new objects;
  `Coordinator.Abort` says that a transaction that is not over is rolled back. `Database.Lock` therefore asks that a
  transaction that would die has no open change.
- An insertion into the B+ tree that runs out of pages in the middle of a split cascade leaves the tree without a
  range of its keys. `TornLookup` says exactly which, and `KeptOrTorn` that lookups still answer with the old map if
  and only if the catalog was full before the insertion. `BTreeRuns.Run` says for every run where that happens, and that a
  tree in a full catalog goes on refusing insertions unharmed.
- `TableHeap::get` and `erase` accept any allocated data page, not only those of the table. `ForeignRecord` reads and
  erases a record of one table through another. `Get` and `Erase` say for every record id what they answer, and
  that they agree with the table's list if and only if the page is the table's own or is no data page with that
  slot live (for `Get`, or holds bytes that do not decode).

## Model

| member | source | states |
|---|---|---|
| BPlusTrees.BPlusTree.constructor | src/index/bplus_tree.cpp:34-46 | a new tree is valid and represents the empty map |
| BPlusTrees.BPlusTree.WriteNode | src/index/bplus_tree.cpp:91-98 | writing a node within capacity replaces exactly that page; callers are proved never to hit the size check |
| BPlusTrees.BPlusTree.AllocateNode | src/index/bplus_tree.cpp:100 | allocation fails exactly when the catalog is full and otherwise yields the next page |
| BPlusTrees.BPlusTree.FindLeaf | src/index/bplus_tree.cpp:101 | descending by separators ends in the leaf whose range covers the key |
| BPlusTrees.BPlusTree.GetValue | src/index/bplus_tree.cpp:102 | the answer agrees with the map, for present and absent keys |
| BPlusTrees.BPlusTree.SetParent | src/index/bplus_tree.cpp:104 | only the parent link of the child changes |
| BPlusTrees.BPlusTree.InsertIntoParent | src/index/bplus_tree.cpp:105-110 | attaching a new right half, with splits as far up as needed, restores all tree rules and the same map; it succeeds exactly when the catalog has the pages for the splits above, and otherwise leaves a tree torn at one split |
| BPlusTrees.BPlusTree.NewRoot | src/index/bplus_tree.cpp:106 | growing a root keeps the map and the tree rules; without a page for it the tree stays torn at the old root |
| BPlusTrees.BPlusTree.AttachToParent | src/index/bplus_tree.cpp:107-109 | the parent is found, takes the separator and the child, and splits when overfull; without a page the tree stays torn at the last completed split |
| BPlusTrees.BPlusTree.SplitPage | src/index/bplus_tree.cpp:109-114 | an overfull leaf or internal page is divided in the middle, the pages below it stay, both halves meet the minimum and the map is unchanged; a full catalog changes nothing, one that fills up on the way leaves a torn tree of the same map |
| BPlusTrees.BPlusTree.Insert | src/index/bplus_tree.cpp:114 | inserts exactly absent keys; reports duplicates without a change; takes exactly the pages that the splits need; the leaf gets the key in its place, and a full one keeps the lower half; fails exactly when these exceed the catalog, unchanged if it was full before and torn, on the way to the new map, otherwise |
| BPlusTrees.BPlusTree.UpdateParentSeparator | src/index/bplus_tree.cpp:116-123 | the one separator that names the leaf's old minimum is rewritten, in whichever ancestor holds it |
| BPlusTrees.BPlusTree.FixSeparator | src/index/bplus_tree.cpp:116-123 | after the rewrite every separator is again the minimum of the subtree to its right |
| BPlusTrees.BPlusTree.Remove | src/index/bplus_tree.cpp:126 | removes exactly the key, reports whether it was present, and keeps every tree rule |
| BPlusTrees.BPlusTree.RebalanceLeaf | src/index/bplus_tree.cpp:128 | a short leaf is repaired by borrowing or merging on either side, without reaching an error path |
| BPlusTrees.BPlusTree.RebalanceInternal | src/index/bplus_tree.cpp:130 | a short internal page is repaired up to the root; the recursion ends |
| BPlusTrees.BPlusTree.BorrowLeafLeft | src/index/bplus_tree.cpp:128 | moving the left sibling's last entry keeps the map and all rules |
| BPlusTrees.BPlusTree.BorrowLeafRight | src/index/bplus_tree.cpp:128 | moving the right sibling's first entry keeps the map, up to the leaf's own separator |
| BPlusTrees.BPlusTree.BorrowInnerLeft | src/index/bplus_tree.cpp:130 | rotating a child from the left through the parent keeps the map and all rules |
| BPlusTrees.BPlusTree.BorrowInnerRight | src/index/bplus_tree.cpp:130 | rotating a child from the right through the parent keeps the map and all rules |
| BPlusTrees.BPlusTree.MergeChildren | src/index/bplus_tree.cpp:128-130 | merging two siblings fits the capacity and keeps the map; only the parent may become short |
| BPlusTrees.BPlusTree.ContractRoot | src/index/bplus_tree.cpp:130 | an empty root hands over to its only child |
| BPlusTrees.BPlusTree.Scan | src/index/bplus_tree.cpp:132 | following leaf links only, the scan returns exactly the entries in the range, ascending, and ends |
| BTreeSplit.SplitKeeps | src/index/bplus_tree.cpp:109-114 | dividing a page keeps every structural clause and the represented map |
| BTreeSplit.GrowKeeps | src/index/bplus_tree.cpp:106 | a new root above two halves keeps every structural clause and the map |
| BTreeSplit.PutKeyKeeps | src/index/bplus_tree.cpp:114 | putting a key into the covering leaf adds exactly that entry to the map and overfills at most that leaf |
| BTreeTorn.TornLookup | src/index/bplus_tree.cpp:101-114 | in a torn tree every lookup answers like the tree that was to be, except for exactly the keys from the new separator to the end of the page that was split, which are lost |
| BTreeTorn.TornLoses | src/index/bplus_tree.cpp:105-114 | at least one entry besides any given key is lost |
| BTreeTorn.SoundLookup | src/index/bplus_tree.cpp:101-102 | in a valid tree the descent by separators answers every lookup with the map |
| BTreeJoin.JoinKeeps | src/index/bplus_tree.cpp:128-130 | merging keeps every structural clause and the map |
| BTreeJoin.RotateKeeps | src/index/bplus_tree.cpp:128-130 | borrowing keeps every structural clause and the map |
| BTreeJoin.ContractKeeps | src/index/bplus_tree.cpp:130 | dropping an empty root keeps every structural clause and the map |
| BTreeJoin.RefenceKeeps | src/index/bplus_tree.cpp:116-123 | moving one separator moves the key ranges on both sides consistently |
| BTreeTheorems.SeparatorIsFirstKey | src/index/bplus_tree.cpp:135-154 | each separator equals the first key of the leftmost leaf to its right |
| BTreeTheorems.ChainIsInOrder | src/index/bplus_tree.cpp:135-154 | the leaf chain equals the leaves in the order of recursive descent |
| BTreeTheorems.LeavesAtOneDepth | src/index/bplus_tree.cpp:135-154 | all leaves have the same number of parent links to the root |
| BTreeRuns.Step | src/index/bplus_tree.cpp:112-126 | an operation answers with the map and takes exactly the pages its splits need; it is refused without a change exactly when a split is needed in a full catalog, and tears the tree exactly when the catalog has some pages but too few |
| BTreeRuns.KeptOrTorn | src/index/bplus_tree.cpp:112-114 | after a failed insertion, lookups answer with the old map if and only if the catalog was full before |
| BTreeRuns.Run | src/index/bplus_tree.cpp:112-126 | for every sequence of insertions and removals and all legal capacities, the tree goes from one valid tree to the next, each with the map, the answers and the page count that follow from the one before, up to the first insertion that tears it; the final tree is the last of these, or torn on the way from it |
| BTreeRuns.RunIsMap | src/index/bplus_tree.cpp:112-126 | at every point of a run the tree is the finite map of the operations that were not refused, all answers are that map's, and only insertions of absent keys into a full catalog are refused |
| BTreeRuns.RefusedOrTorn | src/index/bplus_tree.cpp:112-114 | a run in which an insertion was refused never tears the tree |
| LockTable.StepInv | src/concurrency/lock_manager.cpp:5-16 | every step keeps conflicting locks apart and the two lock tables inverse to each other |
| LockTable.GrantInv | src/concurrency/lock_manager.cpp:10 | granting or upgrading a compatible request keeps the tables consistent |
| LockTable.ReleaseAllInv | src/concurrency/lock_manager.cpp:14 | releasing everything leaves no trace of the transaction |
| LockTheorems.TraceInv | src/concurrency/lock_manager.cpp:5-16 | the invariant holds in every state of every run |
| LockTheorems.ConflictOrder | src/concurrency/lock_manager.cpp:9-13 | of two conflicting holders, upgrades included, the earlier one's last grant precedes the later one's |
| LockTheorems.ConflictsAcyclic | src/concurrency/lock_manager.cpp:9-13 | no path of conflicts returns to its start: every run is conflict-serializable |
| LockAnswers.AnswerExact | src/concurrency/lock_manager.cpp:4-12 | a growing transaction gets a shared lock if and only if nobody has an exclusive one, an exclusive lock or an upgrade if and only if nobody else has any; it dies if and only if somebody older is in the way, sleeps if only younger ones are, and is refused if and only if it is not growing or wants to read what it may write |
| LockAnswers.RequestExact | src/concurrency/lock_manager.cpp:9-12 | a request leaves exactly one lock more, or none of the transaction's and the state Aborted, or one sleeper more, or everything as it was |
| LockAnswers.FinishExact | src/concurrency/lock_manager.cpp:15-16 | commit and abort take exactly the transaction's locks away and set Committed and Aborted, and leave a transaction that is over as it is |
| LockAnswers.ReleaseExact | src/concurrency/lock_manager.cpp:13 | unlocking succeeds if and only if the transaction holds the lock, in either phase, and takes exactly that lock away |
| LockAnswers.WakesIff | src/concurrency/lock_manager.cpp:12 | a sleeper may go on if and only if its transaction was aborted or nobody is in its way |
| LockAnswers.WokenExact | src/concurrency/lock_manager.cpp:10-12 | a sleeper that goes on has exactly its lock more if it is still growing, and changes nothing otherwise |
| LockAnswers.StepState | src/concurrency/lock_manager.cpp:9-16 | the one step that changes a transaction's state is its own begin, commit, abort, release or deadly request |
| LockAnswers.StateHistory | src/concurrency/lock_manager.cpp:9-16 | in every state of every run a transaction is Committed, Aborted, Shrinking or Growing exactly according to which of these steps it has taken |
| LockAnswers.EndStays | src/concurrency/lock_manager.cpp:15-16 | a transaction that commits while it is open is Committed in every later state, and one that aborts or dies Aborted |
| LockAnswers.ReadersThenWriter | src/concurrency/lock_manager.cpp:9-13 | a concrete run in which two transactions hold one resource shared, one gives it back and the other one upgrades |
| LockWaits.EdgeAges | src/concurrency/lock_manager.cpp:6-12 | a waits-for edge leads from older to younger unless the lock was granted after the waiter fell asleep |
| LockWaits.CycleIsOvertaken | src/concurrency/lock_manager.cpp:6-12 | every waits-for cycle in every reachable state contains a lock granted after its waiter fell asleep, to a transaction that is not younger than the waiter |
| LockWaits.OrderedUnlessBarging | src/concurrency/lock_manager.cpp:9-12 | a step keeps "sleepers are older than their blockers" if and only if it does not grant past a younger conflicting sleeper |
| LockWaits.RunOrderedUnlessBarging | src/concurrency/lock_manager.cpp:9-12 | all states of a run up to a point are ordered by age if and only if no step before it grants past a younger conflicting sleeper |
| LockWaits.NoCycleWithoutBarging | docs/transactions-and-concurrency.md:11 | a run without such grants has no waits-for cycle in any of its states |
| LockWaits.NoLostWakeup | src/concurrency/lock_manager.cpp:11-16 | in every reachable state every sleeper that could go on has been notified |
| LockWaits.DeadlockReachable | docs/transactions-and-concurrency.md:11 | a concrete run ends in two threads that wait for each other, against the documented claim |
| LockManagers.LockManager.BeginTransaction | include/ddb/concurrency/transaction.h:67 | a new number starts in the growing phase; a known one is left alone |
| LockManagers.LockManager.LockResource | src/concurrency/lock_manager.cpp:9-12 | one pass through the request loop, with the answer and the table that `AnswerExact` and `RequestExact` describe |
| LockManagers.LockManager.Resume | src/concurrency/lock_manager.cpp:12 | a waking sleeper rechecks compatibility and abortion only; it is told that it has the lock if and only if the table gives it to it, and never dies |
| LockManagers.LockManager.UnlockResource | src/concurrency/lock_manager.cpp:13 | unlocking removes one lock and starts the shrinking phase |
| LockManagers.LockManager.ReleaseAllLocks | src/concurrency/lock_manager.cpp:14 | the loop over held resources removes the transaction from every row |
| LockManagers.LockManager.CommitTransaction | src/concurrency/lock_manager.cpp:15 | commit releases everything and sets the state Committed unless the transaction is over |
| LockManagers.LockManager.AbortTransaction | src/concurrency/lock_manager.cpp:16 | abort releases everything and sets the state Aborted unless the transaction is over |
| FrameTable.PinKeeps | src/buffer/buffer_pool_manager.cpp:42-63 | pinning keeps free list, page table and LRU list consistent |
| FrameTable.UnpinKeeps | src/buffer/buffer_pool_manager.cpp:200-209 | unpinning keeps the LRU list exactly the unpinned frames |
| FrameTable.DetachKeeps | src/buffer/buffer_pool_manager.cpp:137-155 | evicting keeps the bookkeeping consistent |
| FrameTable.InstallKeeps | src/buffer/buffer_pool_manager.cpp:157-198 | filling a frame keeps the page table injective |
| BufferPools.BufferPool.constructor | src/buffer/buffer_pool_manager.cpp:9-16 | a new pool shows the disk, with all frames free |
| BufferPools.BufferPool.WriteDirtyFrame | src/buffer/buffer_pool_manager.cpp:65-74 | write-back succeeds exactly when both gates are open and the page is allocated; the view never changes |
| BufferPools.BufferPool.AcquireFrame | src/buffer/buffer_pool_manager.cpp:137-155 | a free frame, else the first one of the LRU list; fails exactly when all frames are pinned or the victim cannot be written |
| EvictionOrder.UnpinReorders | src/buffer/buffer_pool_manager.cpp:50-54 | giving back a pin keeps the order of the idle pages; the last pin makes the page idle and the last one to go |
| EvictionOrder.FetchReorders | src/buffer/buffer_pool_manager.cpp:137-198 | a fetch keeps the order, and the page that leaves the cache for it, if any, is the first one in the order, with no frame free |
| BufferPools.BufferPool.FetchPage | src/buffer/buffer_pool_manager.cpp:157-198 | yields a pinned frame with what the view says; never changes the view; the whole bookkeeping afterwards and the cases in which it fails are exact; leaves all pages but a victim in place and all pending gates as they were |
| BufferPools.BufferPool.UnpinPage | src/buffer/buffer_pool_manager.cpp:200-209 | gives back exactly one pin and adds exactly the reported dirtiness; the last pin makes the frame evictable; the cache stays coherent if and only if no change goes unreported with the last pin |
| BufferPools.BufferPool.FlushPage | src/buffer/buffer_pool_manager.cpp:211-221 | writes exactly the cached page; the gates are consulted only for frames marked dirty |
| BufferPools.BufferPool.DeletePage | src/buffer/buffer_pool_manager.cpp:223-235 | drops the cached copy after write-back, without changing the view; works exactly on unpinned pages that can be written back |
| BufferPools.BufferPool.FlushAllPages | src/buffer/buffer_pool_manager.cpp:237-251 | succeeds exactly when every dirty page can be written back; then every dirty page is on disk; on an exception nothing is marked clean; the view is unchanged either way |
| BufferPools.BufferPool.MarkMutationPending | src/buffer/buffer_pool_manager.cpp:82-92 | closes the gate of a pinned page once more |
| BufferPools.BufferPool.ReleasePending | src/buffer/buffer_pool_manager.cpp:94-111 | sets the LSN and opens the gate once, for finalizing and for undo |
| BufferPools.BufferPool.RestorePageLsn | src/buffer/buffer_pool_manager.cpp:113-121 | restores an LSN on resident pages without pending mutations only; the cache stays coherent if and only if the page is dirty or pinned or had that LSN |
| BufferPools.DropKeepsView | src/buffer/buffer_pool_manager.cpp:137-155 | dropping an unpinned frame keeps the view if and only if the disk has its content: an unreported change is lost |
| BufferPools.DiskStepKeepsLogAhead | src/buffer/buffer_pool_manager.cpp:129-135 | disk pages that change through the gates stay within the durable log |
| BufferPoolRuns.Perform | src/buffer/buffer_pool_manager.cpp:82-251 | any operation of a disciplined client, whatever its outcome, keeps the cache coherent, changes the store exactly as a plain map, the file only to what open gates let through, and the order of eviction only as stated |
| BufferPoolRuns.RunLogAhead | src/buffer/buffer_pool_manager.cpp:129-135 | in every state of every run of operations, the log is durable through the LSN of every page of the file |
| BufferPoolRuns.FileOrigin | src/buffer/buffer_pool_manager.cpp:65-80 | in every state of every run, a page of the file is as the run found it, zeroed, or what it was at an earlier point at which all its captured mutations had LSNs within the durable log |
| BufferPoolRuns.WriteStays | src/buffer/buffer_pool_manager.cpp:137-251 | what was written last is what is there, however often the page is evicted, flushed and fetched again |
| BufferPoolRuns.LeastRecentlyUsed | docs/design/buffer-pool.md:17-21 | in every state of every run, the pages that nobody uses are in the order in which their pins last went from one to zero; those not used in the run come first, as the run found them |
| BufferPoolRuns.EvictsLeastRecentlyUsed | docs/design/buffer-pool.md:17-21 | a page that leaves the cache for one that is fetched is unused, no frame is free, and every other unused page was given back later |
| BufferPoolRuns.NeverUsed | src/buffer/buffer_pool_manager.cpp:42-54 | an unused page that was not given back in the run was unused in all its states |
| BufferPoolRuns.FlushAllIff | src/buffer/buffer_pool_manager.cpp:65-80 | flushing everything succeeds if and only if every dirty page is allocated and readable, has LSNs for all its changes, and the log is durable through the newest |
| BufferPoolRuns.DeleteIff | src/buffer/buffer_pool_manager.cpp:223-235 | dropping a page succeeds if and only if it is not cached, or unused and clean or writable in that sense |
| BufferPoolRuns.FetchIff | src/buffer/buffer_pool_manager.cpp:137-198 | fetching succeeds if and only if the page is allocated, and cached with a pin to spare or readable with a free frame or with the first page in the order clean or writable |
| BufferPoolRuns.FlushBeforeReporting | src/buffer/buffer_pool_manager.cpp:211-221 | flushing a changed page before reporting it dirty bypasses the gate: the log stays ahead if and only if the page's LSN was durable anyway |
| BufferPoolRuns.StrandedForever | src/buffer/buffer_pool_manager.cpp:65-251 | a page that is dirty in the cache and not allocated stays so in every run; it can be neither fetched nor deleted, and flushing all pages never succeeds again |
| BufferPoolRuns.StrandedBlocks | src/buffer/buffer_pool_manager.cpp:65-80 | such a page cannot be written back, so that neither eviction nor deletion nor a flush of everything gets past it |
| BufferPoolRuns.NeverEvicted | src/buffer/buffer_pool_manager.cpp:137-198 | no fetch of any page takes the frame of a dirty page that is not allocated |
| BufferPoolRuns.RollbackStrands | src/concurrency/transaction.cpp:74-83 | a rollback leaves the page of the transaction's first change stranded if the transaction had allocated it |
| BufferPoolRuns.SizesAddUp | src/buffer/buffer_pool_manager.cpp:253-270 | mapped and free frames add up to all frames |
| BufferPoolRuns.ValidateInvariants | src/buffer/buffer_pool_manager.cpp:253-270 | the runtime self-check succeeds in every valid state |
| PageManagers.PageManager.ReservePage | src/storage/page_manager.cpp:95-102 | appends one zeroed, unallocated page, up to the catalog's capacity |
| PageManagers.PageManager.ActivateReservedPage | src/storage/page_manager.cpp:121 | allocates exactly pages that exist and are free |
| PageManagers.PageManager.AllocatePage | src/storage/page_manager.cpp:91-93 | allocates the next page, zeroed, and leaves all others alone; fails exactly when the catalog is full |
| PageManagers.PageManager.DeallocatePage | src/storage/page_manager.cpp:124 | frees exactly allocated pages; the bytes stay |
| PageManagers.PageManager.ReadPage | src/storage/page_manager.cpp:126-139 | reads exactly allocated pages |
| PageManagers.PageManager.WritePage | src/storage/page_manager.cpp:141-151 | writes exactly allocated pages |
| LittleEndian.LeDigit | src/storage/log_manager.cpp:19-21 | byte i of an encoded number is its digit of 256 to the i |
| LittleEndian.FnvVectors | src/storage/log_manager.cpp:25 | the published FNV-1a values of the empty input and of the letter a |
| LittleEndian.StepInjective | src/storage/log_manager.cpp:25 | one FNV-1a step is injective in the hash state, because the prime has an inverse modulo 2^32 |
| LittleEndian.ChecksumDetects | src/storage/log_manager.cpp:25 | inputs that differ in exactly one byte have different checksums |
| LittleEndian.ComputeChecksum | src/storage/log_manager.cpp:25 | the loop computes the checksum function |
| WalCodec.RoundTrip | src/storage/log_manager.cpp:32-60 | every encodable record decodes to itself |
| WalCodec.RecordLayout | src/storage/log_manager.cpp:32-42 | a record is encoded if and only if its LSN is not zero and it has at most 32 MB; every field at its byte position, the kinds as 1 to 5 |
| WalCodec.MutationLayout | src/storage/log_manager.cpp:62-69 | the same for the payload of a change |
| WalCodec.OneByteRejected | src/storage/log_manager.cpp:44-60 | no accepted record stays accepted with exactly one byte changed |
| WalCodec.DecodeThenEncode | src/storage/log_manager.cpp:32-60 | re-encoding a decoded record gives the same bytes exactly when the reserved bytes were zero |
| WalCodec.MutationRoundTrip | src/storage/log_manager.cpp:62-78 | mutations survive up to the previous PageLSN, which is not logged |
| WalCodec.MutationDecodeExact | src/storage/log_manager.cpp:71-78 | only encodings of loggable mutations are accepted |
| WalCodec.AllocateRoundTrip | src/storage/log_manager.cpp:99-100 | allocation payloads survive, and only their encodings are accepted |
| WalLog.ReadRecords | src/storage/log_manager.cpp:131-137 | the reading loop computes the scan: stop at an incomplete record, reject a malformed or misordered one |
| WalLog.TornTail | src/storage/log_manager.cpp:131-137 | a log cut at any byte is read as its longest complete prefix of records |
| WalLog.WholeIsLongest | src/storage/log_manager.cpp:131-137 | that prefix is the longest one that fits the remaining bytes |
| LogCorruption.AcceptedIffIncreasing | src/storage/log_manager.cpp:131-137 | a file of complete records is accepted if and only if their LSNs increase, and then read as these records |
| LogCorruption.OneWrongByte | docs/recovery-analysis.md:9-13 | a file with one wrong byte is rejected, unless the byte makes the length of a record reach behind the end of the file; then exactly the records before that one are read |
| LogCorruption.OneByteEmpties | docs/recovery-analysis.md:9-13 | a concrete file of two valid records that is read as empty after one byte was changed |
| LogManagers.LogManager.constructor | src/storage/log_manager.cpp:80-89 | a new log is empty and starts at LSN 1 |
| LogManagers.LogManager.Append | src/storage/log_manager.cpp:91-94 | writes the next record behind the others; an oversized payload is refused but uses up its LSN; the log can be continued if and only if the counter did not wrap around |
| LogManagers.LogManager.Flush | src/storage/log_manager.cpp:114-123 | makes everything appended durable, or fails and changes nothing else |
| LogManagers.LogManager.OpenAndScan | src/storage/log_manager.cpp:80-89 | keeps exactly the complete records, truncates to their length and continues behind the last LSN |
| LogManagers.LogManager.CrashAndReopen | src/storage/log_manager.cpp:80-137 | after a crash anywhere behind the flushed bytes, reopening succeeds and keeps a prefix that includes every durable record |
| RecoveryAnalysis.FillTable | src/recovery/recovery_analysis.cpp:28-44 | the scan loop succeeds exactly on logs whose payloads decode, and records every transaction, mutation and allocation with exact index lists |
| RecoveryAnalysis.ParsedExactly | src/recovery/recovery_analysis.cpp:28-44 | a record is understood as an entry if and only if it is the one that the log manager writes for it |
| RecoveryAnalysis.Classify | src/recovery/recovery_analysis.cpp:45-51 | every status is set, unless a transaction has both terminal records |
| RecoveryAnalysis.Analyze | src/recovery/recovery_analysis.cpp:24-56 | analysis succeeds exactly on decodable logs without conflicting terminal records; Committed means a Commit record, Aborted an Abort record |
| RecoveryEngines.MutationFound | src/recovery/redo_engine.cpp:19-21 | the lookup of an analysed mutation never misses and never finds another record's |
| RecoveryEngines.AllocationFound | src/recovery/redo_engine.cpp:15-17 | the lookup of an analysed allocation never misses and never finds another record's |
| Replay.ReplayContext.RedoPageAllocate | src/recovery/replay_context.cpp:9-18 | materializes the next page or activates an existing one; throws exactly on gaps, a full catalog or an invalid id |
| Replay.ReplayContext.RedoPhysicalMutation | src/recovery/replay_context.cpp:19-27 | applies the after-image exactly when the page's LSN is lower; throws exactly on malformed mutations and pages that cannot be pinned, in a quiet pool only unallocated ones |
| Replay.ReplayContext.ReconstructPage | src/recovery/replay_context.cpp:39-47 | replaces image and LSN once per context; throws exactly on malformed images and pages that cannot be pinned, in a quiet pool only unallocated ones |
| Replay.ReplayContext.UndoPageAllocate | src/recovery/replay_context.cpp:38 | releases a page if it is allocated and keeps all page contents; throws exactly on an invalid id and on pages that are pinned or cannot be written back |
| Redos.RedoMeans | src/recovery/redo_engine.cpp:11-24 | replay succeeds exactly when each committed record finds its page; then every page is its last committed after-image if that is newer, and unchanged otherwise |
| Redos.RedoRestarts | src/recovery/redo_engine.cpp:11-24 | from whatever an interrupted run left, each page independently at any version, a full run ends in the same store |
| Redos.InterruptedAgain | src/recovery/redo_engine.cpp:11-24 | interrupting reruns again and again leaves only states the first run could have left |
| Redos.NewestTwice | src/recovery/replay_context.cpp:22-24 | replaying a page that was already replayed up to any point gives the same page |
| RecoveryEngines.RedoLoop | src/recovery/redo_engine.cpp:11-24 | when a record throws, exactly the records before it have been replayed |
| RecoveryEngines.RedoRun | src/recovery/redo_engine.cpp:7-26 | the pass over the buffer pool computes the REDO function |
| Undos.LastWinnerWins | src/recovery/undo_engine.cpp:15 | for any interleaving, each byte is the after value of the last committed mutation that changed it, else the base |
| Undos.LoserFreeByte | src/recovery/undo_engine.cpp:15 | in a chain of images, bytes no loser changed keep their value at the crash |
| Undos.WinnerFreeByte | src/recovery/undo_engine.cpp:15 | bytes no winner changed go back to the base |
| Undos.RebuiltFromChain | src/recovery/undo_engine.cpp:13-15 | both statements about the page UNDO leaves, whose base is the earliest before-image |
| Undos.UndoAgain | src/recovery/undo_engine.cpp:15-16 | running UNDO again in the same context changes nothing |
| UndoEngines.CollectLosers | src/recovery/undo_engine.cpp:8 | the loop over the table collects exactly the losers' pages and allocations |
| UndoEngines.CollectHistories | src/recovery/undo_engine.cpp:13 | every page's history is exactly its mutations in log order |
| UndoEngines.HistoryOrdered | src/recovery/undo_engine.cpp:15 | histories are in LSN order already, so sorting them changes nothing |
| UndoEngines.ApplyDelta | src/recovery/undo_engine.cpp:15 | the byte loop changes exactly the bytes the mutation changed |
| UndoEngines.RebuildImage | src/recovery/undo_engine.cpp:15 | the loop over a history computes the patched image and the surviving LSN |
| UndoEngines.FoldIsPatch | src/recovery/undo_engine.cpp:13-15 | folding a page's own history equals patching by the whole log |
| UndoEngines.SortNewestFirst | src/recovery/undo_engine.cpp:16 | allocations are released in descending LSN order, none lost or added |
| UndoEngines.RebuildPages | src/recovery/undo_engine.cpp:15 | rebuilds the affected pages, and throws exactly when one that is still to be rebuilt is not allocated |
| UndoEngines.UndoRun | src/recovery/undo_engine.cpp:7-17 | the pass computes the UNDO function, also in a context that has rebuilt pages before |
| RecoveryHistory.PatchedIsTruth | src/recovery/undo_engine.cpp:13-15 | under exclusive page locks the rebuilt image is the content made by committed transactions alone |
| RecoveryHistory.AlwaysAgree | src/recovery/undo_engine.cpp:13-15 | at every log position the patched image, the visible page with its LSN and the committed content relate as the lock holder's fate demands |
| CrashSteps.StepKeeps | src/concurrency/transaction.cpp:23-83 | every step of a run keeps the invariant that recovery relies on |
| CrashRestarts.KeepsRestart | src/recovery/replay_context.cpp:9-47 | a crash, recovery and a new start keep the invariant, so that runs may have any number of lifetimes |
| CrashRestarts.ClosedShows | src/recovery/undo_engine.cpp:13-15 | once every transaction has an end, a page shows its committed content and the LSN of its last committed change |
| RealLogs.MarksDoNotMatter | src/recovery/recovery_analysis.cpp:24-56 | recovery from the log file is recovery from the history that also has the ends of transactions cut off by earlier crashes |
| CrashRecovery.RebuiltPage | src/recovery/undo_engine.cpp:13-15 | a page that a loser changed is rebuilt to its committed content and LSN |
| CrashRecovery.ReplayedPage | src/recovery/redo_engine.cpp:11-24 | a page that only winners changed reaches its committed content and LSN from any version on disk |
| CrashRecovery.RecoveryIsExact | src/recovery/undo_engine.cpp:7-17 | from whatever a crash or an interrupted recovery left, recovery ends in the one recovered store, or throws exactly when a page it needs is not allocated |
| CrashTheorems.CrashAnywhere | src/recovery/undo_engine.cpp:7-17 | at any point of any run through any number of crashes and restarts, and for any surviving log length, recovery ends with exactly the committed effects, newest committed LSNs and winners' allocations, if and only if no surviving change is to a page whose allocator had rolled back or been cut off |
| CrashTheorems.DurableStays | src/storage/log_manager.cpp:80-123 | what is durable at some point of a run stays in the log, and durable, through all later crashes and restarts |
| CrashTheorems.DurableCommitStays | src/recovery/redo_engine.cpp:11-24 | after any crash, a recovery that succeeds leaves on every page the last image of a transaction whose commit was durable, unless one that committed later had changed the page too |
| CrashTheorems.CommitOutlivesRestarts | src/recovery/redo_engine.cpp:11-24 | the same from the point at which the commit became durable, through any number of crashes and restarts after it |
| CrashTheorems.RecoveryRestarts | src/recovery/redo_engine.cpp:11-24 | recovery interrupted before it released a page it needs can be rerun with the same outcome |
| CrashTheorems.RecoverTwice | src/recovery/replay_context.cpp:38-47 | a second recovery by a new context works, and changes nothing, if and only if no loser's allocated page was changed |
| CrashTheorems.RecoverOnlyOnce | src/recovery/replay_context.cpp:38-47 | a concrete run after which the first recovery succeeds and a second one throws |
| CrashTheorems.RollBackBlocksRecovery | src/concurrency/transaction.cpp:74-83 | a concrete run after which recovery throws |
| CrashTheorems.ReusedNumbers | include/ddb/concurrency/transaction.h:64-70 | the log of two lifetimes is accepted and every transaction of both keeps its fate if and only if every number used in both ended in the same way in both; it is accepted if and only if no number committed in one and aborted in the other |
| NumberedRuns.NumbersDecideWinners | src/recovery/recovery_analysis.cpp:24-56 | for every log and every numbering of its transactions, recovery leaves what it would leave if exactly the transactions whose number committed had won |
| NumberedRuns.RecoverAlike | src/recovery/undo_engine.cpp:7-17 | recovery reads a transaction number only to ask whether it won: logs of equal LSNs and actions whose entries win alike recover alike |
| NumberedRuns.AcceptedIff | src/recovery/recovery_analysis.cpp:45-51 | analysis accepts a log if and only if no number both committed and aborted |
| NumberedRuns.FatesKeptIff | include/ddb/concurrency/transaction.h:64-70 | the transactions treated as winners are the committed ones if and only if no other transaction has the number of one that committed |
| NumberedRuns.EndAlikeRecovers | include/ddb/concurrency/transaction.h:64-70 | if every number used in two lifetimes ended in the same way in both, the joint log recovers as if their transactions were told apart |
| NumberedRuns.HarmlessRun | include/ddb/concurrency/transaction.h:64-70 | a run whose restarts go by reused numbers is a run without reuse, as long as no uncommitted transaction had a committed one's number at a restart |
| NumberedRuns.CrashAnywhereNumbered | src/recovery/undo_engine.cpp:7-17 | at any point of any such run and for any surviving log length: when the log is accepted, what recovery makes of it, and that it is exactly the committed store, under the condition of `CrashAnywhere`, if committed transactions share numbers only among themselves |
| NumberedRuns.UndoneComesBack | include/ddb/concurrency/transaction.h:64-70 | a concrete run over two lifetimes in which a change that was undone at the restart is replayed by the next recovery, because another transaction of its number has committed |
| CrashTheorems.ReusedNumberRevives | include/ddb/concurrency/transaction.h:64-70 | a concrete log in which recovery replays an unfinished transaction because an earlier one of its number committed, and undoes it without the earlier lifetime |
| CrashTheorems.ReusedNumberRejected | src/recovery/recovery_analysis.cpp:45-51 | concrete logs, in both orders, that analysis rejects because a number committed in one lifetime and aborted in the other |
| RecoveryPasses.RecoverDatabase | src/recovery/undo_engine.cpp:7-17 | scan, analysis, REDO and UNDO over the buffer pool compute the specified recovery of the entries that the file parses to, and succeed exactly when it does and no transaction has both terminal records |
| RecoveryPasses.CutRunReadable | src/storage/log_manager.cpp:131-137 | the log of a run, cut at any byte, is read and analysed as exactly the entries that were written completely |
| RecoveryPasses.RunFileReadable | src/storage/log_manager.cpp:131-137 | the log file of any reachable state, cut anywhere behind its durable bytes, is read as the file of a surviving history |
| RecoveryPasses.RecoverRun | src/recovery/undo_engine.cpp:7-17 | from the log bytes that any crash of any run leaves, the passes over the buffer pool end in exactly the committed store, if and only if no surviving change is to a page whose allocator had rolled back or been cut off |
| RecoveryPasses.RecoverNumberedRun | src/recovery/undo_engine.cpp:7-17 | the same from log bytes with reused numbers: the passes end in the store of the transactions whose number committed, and in the committed store if no other transaction has such a number |
| CrashRollbacks.RollbackAgrees | src/concurrency/transaction.cpp:74-82 | rolling back in the run model is undoing the transaction's captured mutations last one first |
| Rollbacks.UndoneAt | src/concurrency/transaction.cpp:74-82 | reverse rollback leaves every changed page as its earliest mutation found it, and no other page changed |
| Rollbacks.RollbackIsIdentity | src/concurrency/transaction.cpp:23-83 | capturing any interleaving of changes, finalizing any prefix of them, and rolling back is the identity on the store |
| Transactions.ReadImage | src/storage/physical_mutation.cpp:10-16 | reads a page's image and LSN exactly when the page can be pinned, without changing the view |
| Transactions.ApplyImage | src/storage/physical_mutation.cpp:18-25 | writes an image and keeps the LSN; works exactly when the page can be pinned |
| Transactions.Transaction.Watch | src/storage/physical_mutation.cpp:31-34 | remembers image and LSN of the page, exactly when it can be pinned |
| Transactions.Transaction.Finish | src/storage/physical_mutation.cpp:36-70 | records and logs a mutation exactly when the page changed, with the watched image and LSN and the next sequence number; stamps or gates the page and leaves everybody else's gates as they were |
| Transactions.Transaction.ChangePage | src/index/bplus_tree.cpp:91-98 | pinning, watching, writing, finishing and unpinning a page is one captured change, or none if the bytes were the same; it fails exactly when the page cannot be pinned twice; meanwhile the disk gets only what the view shows and the durable log covers |
| Transactions.ChangeCaptures | src/storage/physical_mutation.cpp:36-70 | such a change is a capture step in the sense of `RollbackIsIdentity` |
| Transactions.Transaction.LogMutation | src/concurrency/transaction.cpp:23-32 | appends the record and stamps the page with its LSN |
| Transactions.Transaction.GateMutation | src/concurrency/transaction.cpp:23-32 | keeps an unlogged change behind the page's gate, closed once more |
| Transactions.Transaction.FinalizeNext | src/concurrency/transaction.cpp:48-55 | gives the oldest unlogged change its LSN and opens its gate once, a finalizing step in the sense of `RollbackIsIdentity` |
| Transactions.Transaction.ResolveForUndo | src/concurrency/transaction.cpp:57-72 | succeeds exactly on the last unresolved mutation of a cached page without others' unlogged changes, and restores the LSN, opening a gate only for unlogged changes |
| Transactions.Transaction.HasUnresolved | src/concurrency/transaction.cpp:40-46 | true exactly when a capture is open or a change is not undone |
| Transactions.Transaction.UndoAll | src/concurrency/transaction.cpp:76-81 | the reverse loop; an exception leaves exactly the tail undone, at most one page with its image back but not its LSN, and a retry continues there; there is one only if the page of the last open change cannot be pinned or others keep its gate closed |
| Transactions.Transaction.RollbackForAbort | src/concurrency/transaction.cpp:74-83 | restores every page, opens its own gates and no others, and frees every allocation; cannot fail while the pages are cached and nobody else has unlogged changes on those it has logged |
| Transactions.Transaction.AllocatePage | src/concurrency/transaction.cpp:18-21 | with a log, a page goes live only after its allocation record is durable; fails exactly on a full catalog or a failed flush, with the record in the log |
| Transactions.Transaction.LogAllocation | src/storage/page_manager.cpp:122 | appends the allocation record and makes it durable, or fails with the record in the log |
| Coordinators.Coordinator.Commit | src/concurrency/transaction_coordinator.cpp:8-15 | locks are released only after every change has its LSN and the Commit record is durable, and the state is then Committed; otherwise they are kept; without a log it succeeds exactly when every change has its LSN |
| Coordinators.Coordinator.AbortLogged | src/concurrency/transaction_coordinator.cpp:17-24 | locks are released only after the rollback is complete and the Abort record durable, and the state is then Aborted |
| Coordinators.Coordinator.Abort | src/concurrency/transaction_coordinator.cpp:17-24 | a transaction that is not over is rolled back before its locks are released, and its Abort record is durable; that succeeds if its pages can be put back and the flush does not fail, and a failure before the record is logged has the cause that `UndoAll` names; transactions that are over, including those that died waiting, are left alone without rollback or record |
| Coordinators.Coordinator.PrepareAbort | src/storage/log_manager.cpp:109-113 | rollback first, then the durable Abort record |
| Coordinators.Coordinator.PrepareCommit | src/storage/log_manager.cpp:105-108 | refuses changes without LSNs; then the durable Commit record, or failure with the record in the log |
| Coordinators.DieThenAbort | src/concurrency/transaction_coordinator.cpp:17-24 | a transaction that changes a page, dies waiting for a lock and is aborted keeps its change, without an Abort record |
| Coordinators.DiedChangeStays | src/concurrency/transaction_coordinator.cpp:17-24 | such a run on new objects: after the abort the page has the dead transaction's bytes and the log no Abort record |
| Coordinators.LogEnd | src/storage/log_manager.cpp:105-113 | appends a terminal record and makes it durable, or fails with the record in the log |
| CommitRuns.RejectedIff | src/recovery/recovery_analysis.cpp:45-51 | whatever prefix of a run's log survives, analysis finds conflicting terminal records if and only if within it a transaction failed to flush one terminal record and then logged the other |
| CommitRuns.WaveringRun | src/storage/log_manager.cpp:105-113 | concrete runs of both kinds whose logs are rejected |
| CommitRuns.EndsOnce | src/concurrency/transaction_coordinator.cpp:8-24 | after a terminal record whose flush succeeded there is no other |
| CommitRuns.EndSurvives | src/storage/log_manager.cpp:114-123 | a terminal record whose flush succeeded decides its transaction's fate after every crash |
| CommitRuns.CrashIsJudged | src/storage/log_manager.cpp:80-137 | the log file of any run, cut anywhere behind the durable bytes, reads back and parses, and is accepted if no flush of a terminal record failed |
| Coordinators.BeginStep | src/storage/log_manager.cpp:102 | beginning a transaction is a step of the run |
| Coordinators.ChangeStep | src/storage/physical_mutation.cpp:36-70 | ending the capture of a page succeeds exactly when it was watched, and is a step of the run, with exactly that change, exactly when the page is no longer as it was watched |
| Coordinators.AllocateStep | src/storage/page_manager.cpp:122 | allocating a page is a step of the run, unless the catalog is full, and succeeds exactly when the flush does |
| Coordinators.FlushStep | src/storage/log_manager.cpp:114-123 | a flush is a step of the run, and fails exactly when a fault was injected |
| Coordinators.CommitStep | src/concurrency/transaction_coordinator.cpp:8-15 | committing is a step of the run exactly when the transaction is not over and all its changes have LSNs, and succeeds exactly when the flush does |
| Coordinators.AbortStep | src/concurrency/transaction_coordinator.cpp:17-24 | aborting is a step of the run unless the transaction is over or cannot be rolled back, and always if its pages can be put back; it succeeds exactly when the flush does |
| Coordinators.AnalyzeAfterCrash | src/storage/log_manager.cpp:80-137 | at any point of any run and for every cut behind the flushed bytes, the reopened log is accepted if and only if no transaction wavered within it, always when no flush of a terminal record failed, and the analysis then reports every flushed commit, abort and allocation |
| Coordinators.FailedCommitThenAbort | src/storage/log_manager.cpp:105-113 | a commit whose flush fails, followed by an abort, which succeeds if the pages can be put back, leaves both terminal records, and analysis rejects the log |
| LockedPages.OwnerMayChange | src/concurrency/lock_manager.cpp:9-13 | if whoever has open changes on a page has it locked exclusively, the holder of the exclusive lock is the only one with open changes there |
| LockedPages.OwnsStill | src/concurrency/lock_manager.cpp:9-16 | no step of the lock table takes an exclusive lock away but its transaction's own release, end or death; a sleeper that wakes never dies |
| LockedPages.GuardedStill | src/concurrency/lock_manager.cpp:9-16 | pages with open changes stay locked through every step that takes no locks from a transaction with open changes |
| DatabaseRuns.DriftReachable | src/buffer/buffer_pool_manager.cpp:65-80 | whatever versions reach the disk whose records are durable, the state is one of a run |
| DatabaseRuns.RollbackDrifts | src/concurrency/transaction.cpp:74-82 | whatever pages a rollback writes to disk on its way back are such versions |
| DatabaseRuns.ChangeAgrees | src/storage/physical_mutation.cpp:36-70 | a captured change of a locked page is a change of the run, and all transaction objects still agree with it |
| DatabaseRuns.RollAgrees | src/concurrency/transaction.cpp:74-83 | undoing the captured mutations last one first and freeing the pages is the rollback of the run |
| DatabaseRuns.GrantAgrees | src/storage/page_manager.cpp:122 | reserving, logging, flushing and activating a page are these steps of the run |
| Databases.Database.constructor | src/database.cpp:9-17 | new objects are in the initial state of a run |
| Databases.Database.Begin | include/ddb/concurrency/transaction.h:67 | beginning a transaction is the step `Start` of the run, under a number never used before |
| Databases.Database.Lock | src/concurrency/lock_manager.cpp:9-12 | asking for a lock, granted or not, keeps the objects in agreement with the run, unless a transaction with open changes dies; granted exactly to a growing transaction with no writer, or for writing nobody else, on the page |
| Databases.Database.Resume | src/concurrency/lock_manager.cpp:12 | waking up does too; the reply is Granted if and only if the growing waiter has its lock afterwards, and Sleeping if and only if it sleeps on |
| Databases.Database.Write | src/index/bplus_tree.cpp:91-98 | a captured change under the exclusive page lock is the step `Change` of the run, after whatever the cache evicted, and no step if the page stays the same |
| Databases.Database.Allocate | src/storage/page_manager.cpp:122 | allocating is the steps `Reserve` and `LogAllocation`, and `FlushLog` and `Activate` exactly if the flush succeeds |
| Databases.Database.Commit | src/concurrency/transaction_coordinator.cpp:8-15 | committing is `LogCommit`, and `FlushLog` exactly if it succeeds; then the commit is durable |
| Databases.Database.Abort | src/concurrency/transaction_coordinator.cpp:17-24 | aborting is `RollBack`, after whatever was evicted on the way, and `FlushLog` exactly if it succeeds; it is completed whenever the pages can be put back |
| Databases.Database.FlushLog | src/storage/log_manager.cpp:114-123 | flushing the log is the step `FlushLog`, or nothing |
| Databases.Database.FlushPage | src/buffer/buffer_pool_manager.cpp:211-221 | writing a page back keeps the objects in agreement with the run; it succeeds exactly on cached, allocated pages behind open gates |
| Databases.Database.FlushAll | src/buffer/buffer_pool_manager.cpp:237-251 | so does writing back all pages |
| DatabaseCrashes.Reopened | src/storage/log_manager.cpp:80-89 | whatever part of the log behind the flushed bytes a crash leaves, the reopened log has the records of a surviving history and counts exactly these as durable |
| DatabaseCrashes.CrashAndRecover | src/recovery/undo_engine.cpp:7-17 | after any calls to a database, a crash with any part of the log behind the flushed bytes, reopening and recovery over a new pool end in exactly the committed store, if and only if no surviving change is to a page whose allocator had rolled back |
| DatabaseExample.CommittedSurvives | src/database.cpp:9-17 | a new database, one transaction that allocates, locks, writes and commits, a crash and recovery: the page has the committed bytes |
| TupleCodec.TupleRoundTrip | src/execution/table_heap.cpp:15-16 | every tuple of the schema comes back from its bytes |
| TupleCodec.ValueLayout | src/execution/table_heap.cpp:15 | the bytes of every kind of value |
| TupleCodec.DecodesIff | src/execution/table_heap.cpp:16 | which bytes are a value of a type, and which value |
| TupleCodec.OneSchema | src/execution/table_heap.cpp:15 | a tuple is accepted by exactly one schema, that of the types of its values |
| TupleCodec.FittingRoundTrip | src/execution/table_heap.cpp:15-19 | no side condition is needed for tuples that fit a page |
| TupleCodec.SerializeTuple | src/execution/table_heap.cpp:15 | the encoding loop, refusing tuples that do not match the schema |
| TupleCodec.DeserializeTuple | src/execution/table_heap.cpp:16 | the decoding loop |
| SlottedPage.RegionsDisjoint | src/execution/table_heap.cpp:19 | tuples of different slots never overlap and none reaches into the slot directory |
| SlottedPage.RoomIff | src/execution/table_heap.cpp:19 | a page has room for a row if and only if header, one slot more and the bytes of all rows, erased ones included, fit with it |
| SlottedPage.HeaderLayout | src/execution/table_heap.cpp:6-9 | where a data page keeps its stamp, successor, row count and free space |
| SlottedPage.SlotLayout | src/execution/table_heap.cpp:19-20 | where it keeps offset, length and flag of a row, and that these are the row |
| SlottedPage.PutRows | src/execution/table_heap.cpp:19 | inserting adds one live row behind the others and changes nothing else that can be seen |
| SlottedPage.ClearRows | src/execution/table_heap.cpp:23 | erasing clears one flag and nothing else |
| SlottedPage.LinkRows | src/execution/table_heap.cpp:19 | linking a page leaves its rows alone |
| SlottedPage.EmptyRows | src/execution/table_heap.cpp:9 | a new data page has no rows and no successor |
| TableHeaps.InsertRow | src/execution/table_heap.cpp:19 | the field-by-field writes into the page buffer amount to adding the row |
| TableHeaps.AddPageKeeps | src/execution/table_heap.cpp:19 | linking a new data page and rewriting the metadata keeps every row |
| TableHeaps.AddRowFresh | src/execution/table_heap.cpp:19 | a new record id is none of the earlier ones |
| TableHeaps.EraseKeeps | src/execution/table_heap.cpp:23 | exactly one flag of the list is cleared if the record is the table's, none otherwise |
| HeapListing.ShownInOrder | src/execution/table_heap.cpp:24 | in the result of a scan each live row stands behind exactly the live rows before it, and nothing else does |
| HeapListing.ListingDistinct | src/execution/table_heap.cpp:24 | no record id occurs twice in a table |
| TableHeaps.TableHeap.constructor | src/execution/table_heap.cpp:11 | a new table is empty |
| TableHeaps.TableHeap.AddPage | src/execution/table_heap.cpp:14-19 | succeeds exactly when the catalog has a page and everything on the way can be pinned; keeps the contents on every exit; when a page is linked, the metadata names it exactly if it could be pinned |
| TableHeaps.TableHeap.Insert | src/execution/table_heap.cpp:19 | appends one row under a fresh id from which the tuple is read back: the next slot of the last page if its rows leave room and it can be pinned, and slot 0 of a new page otherwise; the too large, mismatched, full and unpinnable cases are exact; no exit loses a row |
| TableHeaps.TableHeap.Get | src/execution/table_heap.cpp:20 | returns exactly the tuple in a live slot of a data page, of any table; agrees with the list if and only if the page is the table's own, or has no such live slot, or the bytes do not decode |
| TableHeaps.TableHeap.Erase | src/execution/table_heap.cpp:23 | succeeds exactly on live slots of data pages, of any table, and clears exactly that flag; agrees with the list if and only if the page is the table's own or has no such live slot |
| TableHeaps.ListedLive | src/execution/table_heap.cpp:20-23 | a record is live in the list exactly when its slot is live and on a page of the chain, with the same bytes |
| TableHeaps.ForeignRecord | src/execution/table_heap.cpp:20-23 | any live record of a table is returned and erased through a new, empty table in the same store |
| TableHeaps.OneRecord | src/execution/table_heap.cpp:11-19 | a new table after one insertion has exactly that tuple |
| TableHeaps.TableHeap.Scan | src/execution/table_heap.cpp:24 | returns exactly the live tuples in insertion order, and ends |

## Left out

- File streams, seeks, path handling and partial writes of a single page: the disk is a map of pages and the log a byte sequence with a durable length; `faulty` pages stand for I/O errors.
- Byte-level page envelopes (magic, version, page id in the header): a page read returns what was last written.
- The byte layout of B+ tree nodes and its metadata page: the tree's pages hold nodes as values.
- BPlusTrees.BPlusTree.constructor: takes the number of pages in use instead of a page manager, so that tree, heap and recovery have separate page stores.
- BPlusTrees.BPlusTree.Remove: does not state which sibling gives or takes entries; the two cases have their own methods.
- Coordinators.LogEnd: requires the LSN counter not to wrap around 2^64, and so do the other operations that log; `Append` says what happens when it does.
- Transactions.Transaction.Finish: requires that the sequence counter and, without a log, the page's pending counter do not overflow, and that no rollback has started.
- RecoveryPasses.RecoverDatabase: requires a pool in which nothing is pinned, no I/O error is injected and the log is durable through the replayed LSNs, as do the REDO and UNDO passes. That is the pool a recovery starts with; the replay operations themselves have no such requirement.
- TableHeaps.TableHeap.Insert: works on the store directly; which pages can be pinned on the way is a parameter.
- Mutation capture inside tree and heap operations, and the transactional wrappers around them.
- `LockedPage` and the transactional access wrappers: `Database.Write` asks for the exclusive lock instead of taking it, and there is no early `unlock` in `Database`.
- Databases.Database.Write: one captured change is one call; what a crash in the middle of a call leaves is not stated, and neither is a rollback that stops half-way part of a run.
- Databases.Database.Commit: asks that no terminal record of the transaction is logged yet; `CommitRuns` has the runs in which a failed flush is followed by the other one.
- Real threads and condition variables: the lock manager moves in atomic steps, sleepers are part of the state, and any sleeper may wake at any time.
- `ReplayContext::undo_physical_mutation`, which nothing calls.
- Query executors, plans, floating point comparison, the `Database` lifecycle, statistics, metrics and timings.
- `TableHeap::validate_invariants` and reopening a table from its metadata page, whose fields `TableOk` keeps equal to the ends of the chain except after an insertion that could not pin it.
- `DatabaseCrashes` ends with the recovery; going on in the same object after a restart is part of `CrashRuns` and `NumberedRuns` only.

# Verified models of an IoTeX node's action pool, block sync and trace bookkeeping

This project models parts of `iotex-core` in Dafny and proves what they promise, for every input,
every run or every reachable state.

**The action pool** is modelled twice. The objects come first: a sender's queue (`ActQueue.dfy`) with
its item map, two binary heaps over shared nodes that carry their own indices (`NonceHeap.dfy`,
`NonceIndex.dfy`) and a cached ready prefix; the accounts, each with a queue object of its own, in a
map and in a heap with back-indices that is ordered by what the queues answer (`AccountHeap.dfy`,
`AccountPool.dfy`); a worker with the books it shares (`QueueWorker.dfy`); the pool of sixteen workers
(`ActPool.dfy`). They form one object graph, in which no object is part of two queues and no queue of
two workers. Go's `container/heap` is written out step by step. Beside them
stand values: a queue without caches (`AccountQueue.dfy`, over `ReadyPrefix.dfy`), the books
(`PoolBooks.dfy`), the pool (`PoolModel.dfy`) and its runs (`PoolRuns.dfy`). Every method is proved
against a function or relation on those values, and what the pool promises is proved of all runs,
failed state reads included: the books describe exactly the queued actions and those that a failed
read has taken out of their queue, and the limits on the number of actions and of blobs hold.
`QueueRules.dfy`, `PoolRules.dfy` and `WorkerReports.dfy` say what these definitions come to in terms of
nonces, costs, fee caps and confirmed states alone: which actions are ready, accepted, replaced, evicted,
cleaned away and reported. `PoolOverflow.dfy` and `PoolGas.dfy` say where the pool promises less than it
seems to.

**Block sync** (`SyncIntervals.dfy`, `BlockBuffer.dfy`, `BlockSync.dfy`): the gaps between buffered blocks
as request intervals, and the flush that commits blocks in the order of their heights however they
arrive; `SyncRules.dfy` says where everything that the syncer holds has come from.

**The Merkle root** (`Merkle.dfy`): the in-place loop against a tree built from the root down.

**Chain changes** (`CommonAncestor.dfy`): the walk to the common ancestor of two blocks and the
notification that is pushed.

**Traces and receipts**: log indices (`ReceiptIndex.dfy`), events rebuilt from receipts
(`CanonicalEvents.dfy`), the log-buffering tracer (`Tracer.dfy`), flattened call trees
(`CallFrames.dfy`), the gas estimate (`GasEstimate.dfy`).

`dafny verify dfyconfig.toml` checks all of it.

What the outside answers is a parameter: confirmed account states, validators, the chain's verdict
on a block, a simulated execution, the time. Iteration over a Go map is a choice in any order.

## Findings

- `AccountQueue.ExpiryAtConfirmation`: after a new confirmed state the queue is cleaned while its
  pending nonce stands at the new account nonce, so expired actions inside the ready prefix go, too;
  a cleaning on its own never touches the ready prefix (`AccountQueue.ExpiryKeepsReady`).
  `AccountQueue.ReadyActionExpires` puts three actions into a queue, all ready, of which the
  confirmation of the state the queue has already leaves one ready.
- `PoolOverflow.WhenAcceptedIsLost`: an accepted action can be gone when Add returns, if and only if,
  before the call, the pool is full and the action would be the last of an account of least rank. It
  is reported only if its nonce is the account nonce, because the test compares the account nonce
  (actpool/queueworker.go:134). `PoolOverflow.OverflowCanGoUnreported` is a run in which it is not.
- `PoolGas.WhenGasLimitHolds`: actpool/config.go:63 calls MaxGasLimitPerPool the maximum the whole
  pool can hold, but a full pool gives up one action for the one it accepts, whatever their gas
  (actpool/actpool.go:312, actpool/queueworker.go:128). An accepted Add can end above the limit if and
  only if, before the call, the pool is full and the last action of some account of least rank has too
  little gas. `PoolGas.GasLimitCanBeExceeded` is a run that ends at gas 11 with a limit of 10.
- `PoolModel.FailedReadLosesTrack`: a failed state read empties a queue without telling the books
  (actpool/queueworker.go:254-258). What was in it stays in the index, the counters and the destination
  map for good, and is refused as already known when it is offered again (`PoolRuns.StrayIsRefused`).
  `PoolOverflow.ActionsCanGoAstray` is such a run. The queue is left with nonce and balance 0, so until
  it is refreshed or forgotten the sender can add nothing that costs anything
  (`PoolOverflow.BlankAccepts`, `PoolOverflow.BlankStays`).
- `Merkles.Merkle.HashTree`: for a single all-zero leaf the program indexes an empty slice.
- `CommonAncestors.SequentialPush`: a block right after the last pushed one is announced as its child
  even if the last pushed one has left the chain; the walk would have dropped it.
  `CommonAncestors.WrongParentIsAnnounced` is a chain of three blocks on which that happens.
- `GasEstimates.WhenSearchEnds`: with a block gas limit of 2^63 or more the sum of the two ends wraps,
  and the search for the least sufficient gas need not end, whatever gas below the limit the execution
  consumes; for one that needs the whole limit it does not (`GasEstimates.SearchNeedNotEnd`). Below 2^63
  it always ends.
- `CanonicalEvents.WebTransferStart`: eth_getTransactionReceipt counts the stored transfers of the earlier
  receipts, the rebuilt events those the receipts carry; the two indices agree if and only if the counts do.

## Model

| member | source | states |
|---|---|---|
| NonceHeaps.NonceHeap.Push | actpool/priorityqueue.go:30-35 | a new node joins either nonce heap: the order holds again, every node's own index is its position, the other heap's indices are untouched |
| NonceHeaps.NonceHeap.Remove | actpool/priorityqueue.go:37-46 | container/heap's Remove: exactly the node at that position leaves, order and indices hold again |
| NonceHeaps.NonceHeap.Swap | actpool/priorityqueue.go:24-28 | two slots change places and both nodes learn their new index |
| NonceIndexes.NonceIndex.Pop | actpool/actqueue.go:241-248 | popping one heap at its root and removing the same node from the other: the extreme nonce leaves both, and both stay heaps over the same nodes |
| NonceIndexes.NonceIndex.Add | actpool/actqueue.go:143-146 | one node per nonce, pushed onto both heaps |
| NonceIndexes.NonceIndex.Compact | actpool/actqueue.go:197-229 | the compaction followed by Init: exactly the expired nonces above the bound go, and both heaps hold the rest |
| NonceIndexes.Sweep | actpool/actqueue.go:203-221 | the loop that moves the last node over a stale one splits the nodes: all stale ones go, all others stay, none twice |
| NonceIndexes.RootIsExtreme | actpool/priorityqueue.go:22-23 | the root of the ascending heap is the least nonce, that of the descending one the greatest |
| HeapOrder.RootIsLeast | actpool/priorityqueue.go:22-74 | in any heap order the root is below every slot |
| ReadyPrefix.ReadyEndUnique | actpool/actqueue.go:163-184 | there is one maximal ready prefix: everything in it present and affordable in sequence, the next nonce missing or too costly |
| ReadyPrefix.AffordableIsInside | actpool/actqueue.go:163-184 | every affordable run from the account nonce ends inside the ready prefix |
| ActQueues.ActQueue.CacheIsExact | actpool/actqueue.go:153-184 | the incremental pendingNonce and the cached balance at every nonce equal a recomputation from scratch |
| ActQueues.ActQueue.ScanFrom | actpool/actqueue.go:169-184 | from any point inside the prefix the scan restores a maximal prefix and the cached balances; it ends because every round uses an item up |
| ActQueues.ActQueue.Put | actpool/actqueue.go:96-151 | the errors in their order and with nothing changed, or the action in its place with a new deadline, caches and heaps exact again; what the errors mean is `QueueRules.PutErrorMeans` |
| ActQueues.ActQueue.UpdateAccountState | actpool/actqueue.go:232-250 | the confirmed nonce and balance are taken over; exactly the nonces below the new account nonce go and are returned, ascending; the invariant holds but for maximality |
| ActQueues.ActQueue.CleanTimeout | actpool/actqueue.go:197-229 | returns all and only the expired nonces above the pending nonce, nothing else changes |
| ActQueues.ActQueue.UpdateQueue | actpool/actqueue.go:187-195 | cleaning, after which the prefix is maximal again |
| ActQueues.RefreshQueue | actpool/queueworker.go:267-268 | UpdateAccountState then UpdateQueue: the confirmed nonce and balance count, the ready prefix is maximal for them, exactly the used and the timed-out nonces are gone, everything else is as it was, and what was removed is what Reset reports |
| ActQueues.ExpireQueue | actpool/queueworker.go:288 | UpdateQueue before the pending actions are listed: exactly what has timed out beyond the first nonce that is not ready goes |
| ActQueues.ActQueue.PopActionWithLargestNonce | actpool/actqueue.go:353-365 | the greatest nonce leaves the queue and is returned; an empty queue gives nothing |
| ActQueues.ActQueue.Reset | actpool/actqueue.go:281-291 | everything is empty and the account state zero |
| ActQueues.ActQueue.PendingActs | actpool/actqueue.go:294-337 | the actions of the maximal affordable run from the confirmed state, in nonce order; as many as the incremental cache says when the confirmed state is the queue's own |
| ActQueues.ActQueue.AllActs | actpool/actqueue.go:340-351 | every queued action exactly once |
| ActQueues.ActQueue.NextAction | actpool/actqueue.go:86-93 | nothing for an empty queue; otherwise the fee cap of the least nonce, and whether the account nonce is queued and the balance covers it |
| AccountQueue.NewActionAdvances | actpool/actqueue.go:137-151 | an accepted action at a free nonce lengthens the ready prefix exactly when it stands at its end |
| AccountQueue.AcceptedIsReady | actpool/actqueue.go:96-151 | an accepted action inside or at the end of the prefix is part of it afterwards |
| AccountQueue.EvictionCuts | actpool/actqueue.go:353-365 | taking the greatest nonce cuts the ready prefix there and nowhere else |
| AccountQueue.ExpiryKeepsReady | actpool/actqueue.go:187-195 | a cleaning on its own keeps the ready actions as they are |
| AccountQueue.ExpiryAtConfirmation | actpool/queueworker.go:266-268 | after a confirmation the ready prefix comes back whole if and only if nothing in it, but for its first action, has expired |
| AccountQueue.ReadyActionExpires | actpool/queueworker.go:266-268 | at any nonce, lifetime and time: three actions that Put accepts, all ready and kept by a cleaning, of which a confirmation of the same state leaves one ready |
| AccountQueue.LessRespectsRank | actpool/accountpool.go:122-139 | Less, though not strict, follows a total preorder; which one is `QueueRules.LessMeans` |
| QueueRules.ReadyMeans | actpool/actqueue.go:163-184 | a nonce is ready if and only if every nonce from the account nonce up to it is queued and the balance covers what they cost together, each counted once |
| QueueRules.PutErrorMeans | actpool/actqueue.go:96-132 | an action is refused for want of funds if and only if the balance, less what the ready actions below it cost, does not cover it; otherwise a free nonce is accepted, and a taken one if and only if the new fee cap is strictly higher where the old action is ready, and a blob transaction is replaced by one with all three caps at least doubled |
| QueueRules.ReplacementOutbids | actpool/actqueue.go:105-132 | the replacement of a ready action has a higher fee cap, and a blob transaction stays one |
| QueueRules.WithMeans | actpool/actqueue.go:133-151 | an accepted action stands at its nonce with its lifetime from now; nothing else changes |
| QueueRules.EvictionMeans | actpool/actqueue.go:353-365 | exactly the action with the greatest nonce goes |
| QueueRules.RefreshMeans | actpool/queueworker.go:266-268 | the confirmed nonce and balance count afterwards; what stays is what is not used up and, above the nonce, not too old; a nonce is ready if and only if all up to it are queued and paid for from the confirmed balance |
| QueueRules.ExpireMeans | actpool/actqueue.go:187-229 | a cleaning takes exactly what is too old beyond the first nonce that is not ready |
| QueueRules.AcceptedLives | actpool/actqueue.go:187-229 | an accepted action is cleaned away if and only if it waits behind a gap for longer than its lifetime |
| QueueRules.LessMeans | actpool/accountpool.go:121-139 | an account that is not ready goes before one that is, among equals the one whose first action offers less; anything goes before an empty queue |
| QueueRules.VictimMeans | actpool/accountpool.go:121-139 | the accounts of least rank are those with actions that no account with actions goes before |
| AccountHeaps.AccountHeap.LessAt | actpool/accountpool.go:121-139 | two queue objects are compared through their NextAction, and the answer never contradicts the ranks of their values |
| AccountHeaps.AccountHeap.Apart | actpool/accountpool.go:17-26 | whatever is done to the objects of one account's queue, with new objects or old, every other account's queue keeps its invariant and its value |
| AccountHeaps.AccountHeap.Rekey | actpool/accountpool.go:86-89 | when one queue has changed, heap.Fix at its item's position puts the heap back in order |
| AccountHeaps.AccountHeap.RootRank | actpool/accountpool.go:121-164 | the account at the root has the least rank of all |
| AccountHeaps.AccountHeap.Remove | actpool/accountpool.go:154-164 | heap.Remove by back-index takes out exactly that item |
| AccountPools.AccountPool.PutAction | actpool/accountpool.go:57-91 | the sender's queue object, old or new, takes the action; an error changes nothing, for a new sender either; map and heap stay in bijection, and all queues keep their invariants |
| AccountPools.AccountPool.PopPeek | actpool/accountpool.go:93-101 | takes the greatest nonce of an account that no other goes before: one that is not ready if there is one, and among equals one whose first action offers least; finds nothing if and only if every queue is empty |
| AccountPools.AccountPool.PopAccount | actpool/accountpool.go:47-55 | the account leaves map and heap with its queue object, which stays sound and apart from the others |
| AccountPools.AccountPool.Withdraw | actpool/queueworker.go:327-340 | the account leaves, its queue gives up each action once and is emptied; the other accounts are as they were |
| AccountPools.AccountPool.DeleteIfEmpty | actpool/accountpool.go:110-119 | an account goes only if its queue is empty |
| AccountPools.AccountPool.Reorder | actpool/accountpool.go:103-108 | after Range has changed any queues the heap order holds again |
| PoolBooks.ComplementSubtracts | actpool/actpool.go:501 | adding the complement of gas minus one subtracts the gas modulo 2^64, for gas zero as well |
| PoolBooks.EnterBalances | actpool/queueworker.go:108-124 | recording an action keeps hash index, gas sum, destination map and blob counts in step |
| PoolBooks.LeaveBalances | actpool/actpool.go:491-510 | removing one keeps them in step |
| PoolBooks.LeaveAllBalances | actpool/actpool.go:491-510 | removing a list takes exactly those actions out of all four |
| PoolModel.AcceptKeeps | actpool/queueworker.go:100-124 | an accepted action, replacing another or not, keeps pool and books conserved |
| PoolModel.PruneKeeps | actpool/queueworker.go:266-269 | a queue giving up actions that leave the books keeps them conserved |
| PoolModel.CleanKeeps | actpool/queueworker.go:234-245 | removing empty accounts keeps them conserved |
| PoolModel.FailedReadMakesStrays | actpool/queueworker.go:254-258 | a failed state read turns what was queued into strays: the books still describe exactly the queued actions and the strays |
| PoolModel.FailedReadLosesTrack | actpool/queueworker.go:254-258 | after it the books describe the pool as before if and only if the queue was empty |
| PoolModel.StraysAreDetermined | actpool/queueworker.go:254-258 | the strays are what is in the index and in no queue |
| PoolRuns.AddIsSafe | actpool/actpool.go:282-315 | screening, Handle, eviction and cleaning as one step keep conservation, the limit on the number of actions and the blob limit |
| PoolRuns.StepIsSafe | actpool/queueworker.go:78-143 | every step of the pool keeps them; only a failed read adds strays, exactly what was in the queue |
| PoolRuns.RunIsSafe | actpool/actpool.go:309-314 | after every run, failed reads included: the books describe exactly the queued actions and the strays, never more than MaxNumActsPerPool, blob counts exact and within the limit |
| PoolRuns.RunIsConserved | actpool/queueworker.go:247-275 | they describe exactly the queued actions if and only if no failed read found anything |
| PoolRuns.IndexIsExact | actpool/actpool.go:408-413 | after every run an action is in the hash index if and only if it is queued or astray, never both |
| PoolRuns.StrayIsRefused | actpool/actpool.go:341-346 | a stray stays in the index for good: offered again, it is refused as already known |
| PoolRuns.DestinationIsExact | actpool/actpool.go:585-638 | after every run an action is listed under a destination if and only if that is where it goes, it is not its sender, and it is queued or astray |
| PoolRules.ScreenMeans | actpool/actpool.go:282-375 | a request gets past the screening if and only if nothing is wrong with it, the blacklist and the sender's blob count included; the first fault decides the error |
| PoolRules.FullMeans | actpool/actpool.go:309-314 | the pool counts as full if and only if the new gas does not fit, or there are as many actions as there may be |
| PoolRules.RejectMeans | actpool/queueworker.go:145-209 | the nonce may be neither used up nor too far ahead, a blob transaction needs every nonce before it ready, the balance has to cover the cost; then the queue decides |
| PoolRules.EvictionMeans | actpool/queueworker.go:126-133 | a full pool evicts from an account of the worker that no other account with actions goes before |
| PoolRules.AddMeans | actpool/queueworker.go:78-143 | after an accepted Add exactly these are queued: the new action and the old ones, less one it replaces and, if the pool was full, the last one of the account evicted from |
| WorkerReports.ResetMeans | actpool/queueworker.go:247-275 | after a Reset every account whose state could be read has the confirmed nonce and balance and what is neither used up nor too old; every other one has nothing, with nonce and balance zero |
| WorkerReports.AllReadyMeans | actpool/queueworker.go:278-300 | an account is reported if and only if its state can be read and the balance covers the action at the confirmed nonce; the list goes on exactly as far as the nonces are queued and paid for |
| PoolOverflow.AddCompletes | actpool/queueworker.go:126-133 | the branch "no action to drop" is never taken |
| PoolOverflow.VictimExists | actpool/accountpool.go:93-101 | a worker with any action has an account of least rank to take one from |
| PoolOverflow.OverflowReport | actpool/queueworker.go:126-143 | in terms of the victim chosen: an accepted action is missing afterwards if and only if eviction took it; the error is reported if and only if, besides, its nonce is the account nonce |
| PoolOverflow.WhenAcceptedIsLost | actpool/queueworker.go:126-143 | in terms of the pool before the call: some outcome loses the accepted action if and only if the pool is full, the sender with the action has least rank and the action the greatest nonce; with the error if its nonce is the account nonce, without if not, and with no other error |
| PoolOverflow.LowestIsAlwaysLost | actpool/queueworker.go:126-143 | if no other account ranks as low, every outcome loses it |
| PoolOverflow.OverflowCanGoUnreported | actpool/queueworker.go:134-137 | a run in which Add succeeds and the action is not in the pool |
| PoolOverflow.ActionsCanGoAstray | actpool/queueworker.go:254-258 | a run of an Add and a failed read that leaves an indexed action in no queue |
| PoolOverflow.BlankAccepts | actpool/actqueue.go:281-291 | after a failed read the sender's actions are accepted if and only if they cost nothing, their nonce is below the limit per account, and a blob action has nonce 0 |
| PoolOverflow.BlankStays | actpool/queueworker.go:145-168 | that stays so until the account is refreshed or forgotten, or has an action accepted |
| PoolGas.GasAfterAdd | actpool/queueworker.go:100-133 | the gas after an accepted Add is the gas before plus the action's, less the replaced action's, less the victim's if the pool was full |
| PoolGas.WhenGasLimitHolds | actpool/actpool.go:309-314 | in terms of the pool before the call: from within the gas limit some outcome of an accepted Add ends above it if and only if the pool is full and some account of least rank gives too little, and some outcome stays within it if and only if the pool is not full or some account of least rank gives enough |
| PoolGas.GasLimitCanBeExceeded | actpool/actpool.go:309-314 | a run within the limit and an Add that ends above it |
| QueueWorkers.Ledger.RemoveInvalidActs | actpool/actpool.go:491-510 | the loop takes every listed action out of the four structures |
| QueueWorkers.QueueWorker.CheckState | actpool/queueworker.go:145-209 | the account state that counts, and the checks against it in their order |
| QueueWorkers.QueueWorker.Evict | actpool/queueworker.go:128-138 | a victim of least rank loses its greatest nonce, which leaves the books; the answer as the code gives it |
| QueueWorkers.QueueWorker.RemoveEmptyAccounts | actpool/queueworker.go:234-245 | of the accounts noted exactly those that are still empty go, every other one stays as it is, and none stays noted |
| QueueWorkers.QueueWorker.Handle | actpool/queueworker.go:78-143 | takes exactly the step of the runs |
| QueueWorkers.QueueWorker.Turn | actpool/queueworker.go:251-274 | one account's callback on its queue object: UpdateAccountState and UpdateQueue, or Reset where the state cannot be read, or UpdateQueue alone; what is given up is exactly what the value loses |
| QueueWorkers.QueueWorker.Range | actpool/accountpool.go:103-108 | every account has its turn once, in any order, and what it gives up leaves the books, unless the callback does not tell them |
| QueueWorkers.QueueWorker.Reset | actpool/queueworker.go:247-275 | every queue is refreshed from its confirmed state, or emptied behind the books' back where none can be read, as a sequence of steps of the runs; exactly the accounts left without actions are noted |
| QueueWorkers.QueueWorker.PendingActions | actpool/queueworker.go:278-300 | every queue is cleaned; exactly the accounts whose state can be read and whose next action can be paid for are reported, with exactly their ready actions |
| QueueWorkers.QueueWorker.DeleteAccount | actpool/queueworker.go:327-340 | the account is gone and noted, each of its actions leaves the books once |
| ActPools.ActPool.Add | actpool/actpool.go:282-315 | from the end of a run to the end of a longer one; other senders' workers are untouched |
| ActPools.ActPool.Reset | actpool/actpool.go:231-244 | all workers refreshed, with state reads that succeed or fail, and the run extended accordingly; no strays if all succeed |
| ActPools.ActPool.PendingActionMap | actpool/actpool.go:252-276 | over all workers: reported are exactly the accounts whose state can be read and whose next action can be paid for, each with its ready actions as its own worker has them; the run is extended without strays |
| ActPools.ActPool.DeleteAction | actpool/actpool.go:450-458 | one account goes, nobody else's queue changes, the run is extended |
| ActPools.ActPool.AtRest | actpool/actpool.go:427-429 | between calls the objects hold no more actions than the limit and index exactly what is queued or astray |
| ActPools.ActPool.constructor | actpool/actpool.go:125-174 | a new pool is the start of a run |
| SyncIntervals.RequestsCover | blocksync/buffer.go:65-110 | for any buffer the intervals ascend, do not overlap, cover exactly the heights up to the clamped target that are not buffered, have lengths from 1 to the limit, and touch only behind a full one |
| SyncIntervals.CoversIsUnique | blocksync/buffer.go:65-110 | these properties determine the list |
| SyncIntervals.NothingTooFar | blocksync/buffer.go:74-81 | no request goes beyond the buffer, or beyond one interval if that is longer |
| BlockBuffers.BlockBuffer.GetBlocksIntervalsToSync | blocksync/buffer.go:65-110 | the scan loop asks for exactly the missing heights within an interval of the confirmed one, or up to the target and within the buffer; the intervals ascend, none is too long, and two that touch are cut only by that |
| BlockBuffers.BlockBuffer.AddBlock | blocksync/buffer.go:46-63 | a block within the window joins the queue of its height unless its hash is there; the height that is answered |
| BlockBuffers.BufferedMeans | blocksync/buffer.go:46-63 | only a block above the tip and within the buffer is taken: it goes to the end of its height's queue, unless that has its hash; no other height is touched |
| BlockBuffers.BlockBuffer.Pop | blocksync/buffer.go:33-44 | the queue of a height is emptied and forgotten |
| BlockBuffers.UniQueue.Enque | blocksync/uniqueue.go:25-32 | a block goes to the end unless its hash is there already; the hash set is that of the blocks |
| BlockBuffers.EnqueuedIsDistinct | blocksync/uniqueue.go:25-32 | no hash twice in a queue |
| BlockSyncs.BlockSyncer.CommitBlocks | blocksync/blocksync.go:166-189 | the first block the chain accepts is committed; on the way the peers of failing blocks are blocked |
| SyncRules.AcceptedIsFirst | blocksync/blocksync.go:166-189 | committed is the block with the least place that the chain accepts; none, if it accepts none |
| SyncRules.BlockedHaveFailed | blocksync/blocksync.go:166-189 | blocked are, in order, the peers of exactly the blocks before it that failed |
| BlockSyncs.BlockSyncer.ProcessBlock | blocksync/blocksync.go:291-315 | target and flush as the model has them; the flush ends because every commit shrinks the buffer |
| BlockSyncs.ProcessedKeeps | blocksync/blocksync.go:291-315 | the window invariant is kept; log, tip and target only grow |
| BlockSyncs.RunIsSound | blocksync/blocksync.go:291-315 | whatever arrives and whatever the chain answers: committed heights are consecutive, everything buffered is within the window above the tip, under its own height, without duplicates |
| SyncRules.RunIsAccounted | blocksync/blocksync.go:291-315 | after any arrivals every committed block was sent by a peer and accepted on top of those before it; nothing is buffered that did not arrive, and no peer blocked that sent nothing |
| SyncRules.TargetIsGreatest | blocksync/blocksync.go:291-301 | the target is the greatest height that arrived, each cut off where the buffer ended at the time |
| SyncRules.RunNotesTip | blocksync/blocksync.go:173-177 | the tip that was noted last is the height of the chain, once anything has been committed |
| BlockSyncs.TipIsBeforeFirstGap | blocksync/blocksync.go:305-312 | if the chain accepts everything, the tip is right before the first height that was not within the window when it arrived, and exactly the higher ones that were wait |
| BlockSyncs.EndsAlike | blocksync/blocksync.go:291-315 | two such runs end with the same tip and the same heights waiting if and only if they took the same heights |
| BlockSyncs.WindowIsTaken | blocksync/buffer.go:46-63 | if nothing arrives from beyond the first window, everything above the first tip is taken, in any order |
| BlockSyncs.OrderDoesNotMatter | blocksync/blocksync.go:291-315 | so within the first window neither the order of arrival nor repetitions make a difference |
| BlockSyncs.OrderMattersBeyondWindow | blocksync/buffer.go:46-63 | one height beyond it the order does, for every window |
| Merkles.Merkle.HashTree | crypto/merkle.go:48-80 | the cached or computed root is the hash of the tree, for every leaf list; nothing exactly for a single all-zero leaf |
| Merkles.RootIsTreeHash | crypto/merkle.go:62-76 | folding level by level gives the hash of the tree that doubles the last node of odd levels |
| Merkles.RootOfHalves | crypto/merkle.go:48-80 | the root is the pair hash of the left half's root and of what becomes of the right half, in this order; the left half is a full tree, the right one may be shorter |
| Merkles.FullIsRaised | crypto/merkle.go:48-80 | a right half that is a full tree comes to its own root |
| Merkles.FoldLevels | crypto/merkle.go:62-76 | the in-place rounds end and leave the root |
| Merkles.NewMerkleTree | crypto/merkle.go:20-45 | no leaves give no tree; otherwise the leaves are stored, padded to an even number |
| Merkles.HashTreeTwice | crypto/merkle.go:48-51 | repeated calls agree through the cache |
| Merkles.RootIsInjective | crypto/merkle.go:48-80 | under a collision-free pair hash, lists of one length have the same root if and only if they are equal |
| Merkles.DoubledLastLeaf | crypto/merkle.go:38-42 | the length matters: an odd list shares its root with the list that doubles its last leaf |
| CommonAncestors.GetCommonAncestor | blockchain/blockchain.go:646-710 | the two loops compute the walk for any two blocks and always end |
| CommonAncestors.AnswerLeads | blockchain/blockchain.go:646-710 | for any two blocks an answer is a parent-linked way from the ancestor to each of them |
| CommonAncestors.WalkSucceeds | blockchain/blockchain.go:651-709 | for any two blocks: there is an answer, not a missing header, if and only if they meet after the descent or their parents are equally high |
| CommonAncestors.AttachedAnswer | blockchain/blockchain.go:646-710 | for blocks on the chain or right beside it, the new blocks are the stored ones after the fork and the block itself; at most the old block is dropped |
| CommonAncestors.ShortcutAgrees | blockchain/blockchain.go:648-650 | the shortcut for a child agrees with the walk |
| CommonAncestors.PushMeans | blockchain/blockchain.go:715-767 | for any two blocks: type 2 if and only if blocks are dropped, type 1 otherwise, both ways from one block; silence only before the first block, for a lower one or for the same one again |
| CommonAncestors.ConsumerFollows | blockchain/blockchain.go:715-767 | a consumer's chain that ends with the last pushed block ends, after the notification, with the new one, and stays parent-linked |
| CommonAncestors.SequentialPush | blockchain/blockchain.go:728-737 | the block after the last pushed one is always announced as its child; the announced parent is the true one if and only if the last pushed block is on the chain |
| CommonAncestors.WrongParentIsAnnounced | blockchain/blockchain.go:728-737 | a chain and a last pushed block beside it for which the announced parent is wrong |
| ReceiptIndices.Receipt.UpdateIndex | action/receipt.go:193-201 | the logs are numbered from the given index on, and the next index is returned |
| ReceiptIndices.Receipt.TransferLogs | action/receipt.go:204-220 | an answer if and only if every transfer converts: one log for each, in order, numbered from the given index on |
| ReceiptIndices.UpdateReceiptIndex | state/factory/workingset.go:1205-1211 | every log carries its place among all logs of the block, every receipt its own: read from the first receipt to the last, the logs carry 0, 1, 2 and so on |
| CanonicalEvents.BuildCanonicalEvents | api/debank_canonical_events.go:158-205 | unequal lengths give nothing; otherwise the two lists hold exactly the events of the block, said of its receipts: every log and every convertible transfer has its event, with its payload, index and binding, in the list of its receipt's status, and every event comes from one |
| CanonicalEvents.Builder.AppendFromReceipt | api/debank_canonical_events.go:216-301 | a receipt's logs and then its transfers, bound precisely or to the root trace; the list of the receipt's status grows by as many events, the other one not at all |
| CanonicalEvents.EmittedByIs | api/debank_canonical_events.go:216-319 | the k-th event of a receipt has the payload and index of its k-th log or, behind the logs, of a transfer; it is bound to the frame known for that place, else to the root trace, else to nothing |
| CanonicalEvents.EventsAreCanonical | api/debank_canonical_events.go:158-319 | so sorted and by status they are exactly the events of the block |
| CanonicalEvents.CanonicalIndices | api/debank_canonical_events.go:158-205 | for every stamped block: strictly ascending indices in each bucket, none in both, all below the number of logs and transfers, no event lost or added |
| CanonicalEvents.EmittedIsPlaced | api/debank_canonical_events.go:216-319 | no index twice in any prefix; an event bound to a root trace has its own place in the block as its position |
| CanonicalEvents.EmittedIsComplete | api/debank_canonical_events.go:216-301 | if every transfer converts, there are as many events as logs and transfers |
| CanonicalEvents.WebTransferStart | api/web3server.go:874-881 | the loop of eth_getTransactionReceipt finds the start index of the rebuilt events if and only if as many transfers are stored for the earlier receipts as these carry, which holds if each has its own stored |
| Tracers.Tracer.CaptureTxStart | api/rpc_tracer.go:85-125 | opens the action's transaction once |
| Tracers.Tracer.CaptureTxEnd | api/rpc_tracer.go:127-136 | flushes and moves on, unless nothing is open |
| Tracers.Tracer.FlushPendingLogs | api/rpc_tracer.go:140-147 | the buffer is forwarded in order with consecutive indices |
| Tracers.Tracer.OnLog | api/rpc_tracer.go:188-193 | a log joins the buffer only while a capture is open; when that is, is `Tracers.FlagsMean` |
| Tracers.FlagsMean | api/rpc_tracer.go:85-166 | after any events a capture is open if and only if it was started and not ended since, or open at first and never ended; likewise a transaction |
| Tracers.Tracer.EmitTransferLog | api/rpc_tracer.go:225-230 | a transfer's log joins it only while a transaction is open |
| Tracers.Tracer.DiscardPendingLogs | api/rpc_tracer.go:154-156 | the buffer is dropped, no index is spent |
| Tracers.EveryLogMeetsItsFate | api/rpc_tracer.go:85-230 | after any events, read off the events alone: forwarded are exactly the logs of open captures and the transfers of open transactions whose transaction ended before a discard, in order, with indices 0, 1, 2; pending those that neither befell |
| Tracers.FateMeans | api/rpc_tracer.go:127-156 | a log is sent if the first event that empties the buffer after it ends an open transaction, and dropped if it is a discard |
| Tracers.EveryStartBegins | api/rpc_tracer.go:85-125 | opened are exactly the actions whose turn it was at a start that found no transaction open |
| Tracers.PairsCountOnce | api/rpc_tracer.go:85-136 | repeated starts and ends advance the current action once per pair |
| Tracers.AlwaysInOrder | api/rpc_tracer.go:85-125 | transactions are opened in the order of the actions, at most once each |
| CallFrames.Flattener.Walk | api/web3server_debank.go:464-470 | the recursive closure appends the rows of its frame, depth first |
| CallFrames.FlattenCallFrames | api/web3server_debank.go:449-473 | the list of a decoded call tree |
| CallFrames.FlattenIsReversible | api/web3server_debank.go:449-473 | the tree comes back from the list |
| CallFrames.FlattenedTraces | api/web3server_debank.go:449-473 | every identifier but the root's is its parent's, an underscore and the position in decimal; identifiers distinct, parents first, siblings in the order of their positions, which are 0, 1, 2 without a gap |
| CallFrames.DecimalIsExact | api/web3server_debank.go:468 | a position in decimal is read back as the same number |
| CallFrames.DecimalIsCanonical | api/web3server_debank.go:468 | and has only digits, with no zero to spare in front |
| GasEstimates.EstimateExecutionGasConsumptionAt | api/coreservice.go:1823-1871 | for any simulation on which it ends: the consumed gas if that is enough; else, with a block gas limit below 2^63, where it always ends, a limit that is enough where one less is not; each failure has its cause, and a failing simulation of the consumed gas or of the first middle is one |
| GasEstimates.WhenSearchEnds | api/coreservice.go:1852-1868 | in 64 bits, for any consumed gas below the limit: the search ends for every simulation if and only if the block gas limit is below 2^63 |
| GasEstimates.SearchNeedNotEnd | api/coreservice.go:1852-1868 | with a limit of 2^63 or more, the search for an execution that needs the whole limit goes on for ever, whatever it consumes |
| GasEstimates.ThresholdIsLeast | api/coreservice.go:1851-1868 | if more gas never hurts, the answer is the least limit from the consumed gas on that is enough |

## Left out

- Nonces, heights and log indices are unbounded numbers; the pool's gas counter is 64-bit.
- GasEstimates.EstimateExecutionGasConsumptionAt: what the envelope's gas is left at is not stated.
- Interleavings: an Add, one account's part of a Reset or of a call for the pending actions, and a DeleteAction are steps; locks, channels, contexts and the concurrency of the workers are not modelled.
- QueueWorkers.QueueWorker.Reset: the confirmed states, and whether they can be read, come as a function of the address.
- ActPools.ActPool.Reset: that no strays are added is stated for the case that every state can be read; which they are otherwise follows from `ActPools.ActPool.AtRest`.
- ActQueues.ActQueue.CleanTimeout: the items are deleted after the heap has been compacted, not in between; the outcome is the same.
- actpool/actionstore.go, the store of blob actions, and the subscribers other than the blob counters.
- Hashes, costs, intrinsic gas and the answers of validators are fields of an action or of a request; signatures, encodings and addresses are not modelled.
- BlockSyncs.RunIsSound: only ProcessBlock moves the chain; the periodic requests to peers and their choice are not modelled.
- CommonAncestors.GetCommonAncestor: the hash of the genesis block is that of the first stored header; the repository keeps two hashes for it.
- CanonicalEvents.BuildCanonicalEvents: addresses and topics are part of an event's payload, and the library's stable sort is an insertion sort.
- Tracers.EveryLogMeetsItsFate: the inner tracer is what it has been given; how a transaction is signed is not modelled.
- CallFrames.FlattenCallFrames: decoding the JSON and the fields of a trace that do not make up the tree.
- blockindex, gRPC, HTTP, metrics, configuration and the wiring of services.

# A verified model of LegoStore's interval locks and transaction protocol

LegoStore is a multi-version transactional key-value store. Instead of objects it locks intervals of
time: per key, a balanced tree partitions all 64-bit timestamps into intervals, each with a lock
status and the transactions that hold it. A read locks time backwards from the reader's timestamp
until it meets a version; a write locks the single point of its commit timestamp; committing freezes
what a transaction holds, aborting unlocks it. On top of that, coordinators and servers run
multi-version timestamp ordering with two-phase commit.

The model covers the whole stack, from pointers to histories, and each layer is proved against the one
above it:

| layer | modules | what connects it to the next one |
|---|---|---|
| AVL trees with parent pointers, rebalanced in place | `AvlShape`, `TreeCost`, `AVLTreeLockNodes` | the heap holds a linked, balanced tree whose nodes show, in order, a list of intervals |
| intervals of one key | `Intervals`, `Probes`, `OperationCost`, `KeyInfos` | the list partitions time and stands for a lock per point |
| the lock manager | `LockTables`, `AVLTreeLockManagers` | operations are changes of the lock of every (key, time), plus the set of requests they wake |
| the server and its request handlers | `ServerSpec`, `SimpleTServers`, `ServerEvents` | running a handler is one step of the abstract server |
| the client | `Coordinators` | its buffer and its requests agree with the log of the protocol's coordinator |
| a server and its coordinators together | `Refinement`, `Histories`, `Deployments` | whatever is called in whatever order, aborts that share a read lock aside, the objects go through a safe run of the protocol and show its last state |
| the protocol | `Protocol`, `ProtocolInvariant`, `ProtocolCommit` | a state machine over all interleavings, with one invariant |
| what it is for | `Serializability`, `RunProperties`, `Progress` | theorems about every state of every run |
| where it falls short | `WakeUps`, `EarlyWakeUps`, `UnsafeAborts`, `Probes`, `Counterexamples`, `TiedTimestamps`, `StaleEvents`, `SkippedIntervals` | exact conditions, and concrete runs |

`LockTypes`, `VersionStore`, `SerialReplay` and `Sequences` hold the vocabulary that several layers share.

The handlers, the server, the lock manager, the keys and the tree nodes are classes that update their
fields in place. Ghost parameters and ghost fields carry the shape of the tree and the list of
intervals; where a method of the source is proved in several steps, each step is a method of its own,
named after what it does.

## Choices

- **Unlocking a shared read lock.** `src/AVLTreeLockManager.cc:469` frees a read-locked interval even
  if other readers remain, although line 471 and `src/LockManager.h:64-68` show that the last reader
  out should free it. The classes follow the code as written. The protocol takes the rule as a
  parameter, so that the theorems cover both: all runs with the documented rule, and those runs with
  the written rule in which no aborting transaction shares a read lock. The lock manager and the
  protocol's invariant survive an abort under exactly that condition (`ServerSpec.UnlockKeepsLocksOkIff`,
  `RunProperties.AbortKeepsInvariantIff`). Without it, whatever the state, a new transaction can commit a
  version under a read that still counts on the lock (`UnsafeAborts.UnsafeAbortLetsVersionSlip`), and
  there is a run in which that breaks serializability (`Counterexamples.SharedReaderBreaksSerializability`).
- **Requests for several intervals.** `tryLock` steps to `ts_start - 1`
  (`src/AVLTreeLockManager.cc:303`) instead of to the time before the current interval, so it can skip
  intervals. Its first loop is modelled and specified for all requests; locking is specified for
  requests that look at exactly the intervals that overlap them. `Probes.ProbedExactlyIff` and
  `Probes.VerdictRightIff` say when that is so, and `SkippedIntervals.SkipsLockedInterval` shows three
  requests after which it is not. Requests for a single point, the only ones the handlers make
  (`src/Coordinator.cc:67`, `src/ServerEvent.cc:100`), always qualify.
- **Events woken by phase two.** `freeze` and `unlock` run the events they wake before `finalize`
  stores the values (`src/AVLTreeLockManager.cc:421-422`, `src/ServerEvent.cc:137-143`). In the model
  they return the woken set and the events run after phase two. That a read always finds its version
  (`RunProperties.ReadFindsVersion`, `Refinement.ReadIsStep`) holds in this order only. In the source's
  order a read that runs in between misses if and only if the write lock of the committing transaction
  is the first thing in its way (`EarlyWakeUps.EarlyReadMissesIff`); so every read that waits for a
  transaction misses when that transaction commits (`EarlyWakeUps.WaitingReadMisses`), and
  `src/ServerEvent.cc:40` then dereferences a null value. A safe run gets there
  (`EarlyWakeUps.EarlyWakeUpReached`).
- **Events are never taken off their lists.** No wake-up is lost (`RunProperties.NoLostWakeUp`) and no
  wait lasts for lack of a step (`Progress.WaitsEnd`), but a read that was answered can be run again,
  which ends the server process (`Deployments.Deployment.RunDue`). Phase two wakes an answered read if
  and only if that read is registered at a point which the transaction holds
  (`WakeUps.WakesAnsweredIff`). Over a whole run, an answered read is run again if and only if it was
  answered below a point at which it had been blocked and which nobody had frozen by then
  (`WakeUps.AnsweredReadRunsAgainIff`); the reader itself then holds that point. It takes an abort that
  wakes somebody to get there (`WakeUps.OnlyWaitingReadsAreWoken`), and `StaleEvents` has such a run.
- **Timestamp ties.** Timestamps are whole seconds (`src/SimpleTimestampGenerator.cc:14-19`). Of the
  committed transactions in any order by start timestamp, the serial run exists if and only if no
  transaction read, of a key that one it ties with wrote before it in the order, a version with another
  value (`Serializability.SerializableIffTiesAgree`); without ties that is always so. The condition can
  fail for every order (`TiedTimestamps.TiesBreakSerializability`). The per-key theorems do not depend
  on ties.
- **Times.** A start timestamp is at least 1 and a backward lock starts below 2^64 - 1, because
  `ts - 1` and `cur_ts + 1` wrap around otherwise. No other arithmetic wraps: every subtraction in the
  loops is proved to stay within 64 bits.
- **`ts_start` is inclusive**, as the code and `src/LockManager.h:41` have it; the constants asserted in
  `src/LockManagerTest.cc:25,27` are one lower.
- One server holds all keys, as `SimpleKeyMapper` has it. Values are strings, requests are identified
  by their request id. In `Deployments`, what a coordinator is blocked on is a step of its own: sending a
  read, and getting the reply, are two calls.

## Model

| member | source | states |
|---|---|---|
| AVLTreeLockNodes.AVLTreeLockNode.constructor | src/AVLTreeLockNode.cc:15-25 | a new node is free over all of time and detached |
| AVLTreeLockNodes.AVLTreeLockNode.Copy | src/AVLTreeLockNode.cc:27-37 | a copy has the interval, status and holders of the original and no links |
| AVLTreeLockNodes.AVLTreeLockNode.UpdateHeight | src/AVLTreeLockNode.cc:49-56 | both cached heights become one more than the higher side of the child, or 0 |
| AVLTreeLockNodes.AVLTreeLockNode.Swap | src/AVLTreeLockNode.cc:58-87 | the pointers and cached heights of the whole tree become those of the rotated tree, at any position below the root or at it |
| AVLTreeLockNodes.AVLTreeLockNode.Rebalance | src/AVLTreeLockNode.cc:93-113 | single and double rotations bring a node that is off by two back into balance, with every link and height of its subtree exact; the error branches are unreachable |
| AVLTreeLockNodes.AVLTreeLockNode.Balance | src/AVLTreeLockNode.cc:89-116 | rebalancing from an inner node up to the root leaves every link and cached height of the whole tree exact |
| AVLTreeLockNodes.AVLTreeLockNode.GetRoot | src/AVLTreeLockNode.cc:43-47 | following parents from any node of a linked tree ends at its top |
| AVLTreeLockNodes.AVLTreeLockNode.Insert | src/AVLTreeLockNode.cc:132-151 | inserting below an inner node gives a linked, balanced tree of the old nodes and the new one, in the old order with the new node where its start belongs, and returns its true root; the tree is the one that attaching a leaf and rebalancing up to the root makes |
| AVLTreeLockNodes.AVLTreeLockNode.Find | src/AVLTreeLockNode.cc:118-130 | pushes exactly the nodes from which the path turns right and the node whose interval contains the time, or nothing for a time before the subtree, and counts the nodes looked at |
| AVLTreeLockNodes.InsertNextTo | src/AVLTreeLockManager.cc:183-187 | inserting at the node that was just cut puts the new node right next to it in order, wherever in the tree that node is |
| AvlShape.BalanceUpAvl | src/AVLTreeLockNode.cc:89-116 | one insertion followed by rebalancing up to the root restores balance within 1 at every node |
| AvlShape.BalanceUpKeeps | src/AVLTreeLockNode.cc:89-116 | rebalancing never changes the nodes or their order |
| AvlShape.PopTurns | src/AVLTreeLockNode.cc:118-130 | with a node popped, the stack is that of the node before its subtree, and empty if there is none |
| AvlShape.DescendTurns | src/AVLTreeLockNode.cc:118-130 | searching on from a popped node builds the stack that a search from the root would |
| AvlShape.StepBack | src/AVLTreeLockManager.cc:193-239 | popping a node and searching for the time before it steps to its predecessor, each node once, and to an empty stack at the first node only |
| TreeCost.MinimalSize | src/AVLTreeLockManager.h:20-24 | a balanced tree of height h has at least Fib(h+2) - 1 nodes |
| TreeCost.HeightBound | src/AVLTreeLockManager.h:20-24 | the height is at most 2 log2(n + 1) + 1 for n intervals |
| TreeCost.WalkCost | src/AVLTreeLockManager.cc:193-239 | the exact number of nodes that a backward walk looks at |
| TreeCost.WalkBound | src/AVLTreeLockManager.h:20-24 | a walk over m intervals in a tree of height h looks at no more than 2h + 2m nodes in all its searches |
| Intervals.SplitKeeps | src/AVLTreeLockManager.cc:183-186 | cutting an interval keeps the partition of all of time, the lock of every point with its holders, and every old boundary |
| Intervals.WalkedOutcome | src/AVLTreeLockManager.cc:193-239 | a finished walk locked exactly the points between where it stopped and where it started, each in its own way, and changed no other |
| Intervals.ReleasedPoints | src/AVLTreeLockManager.cc:379-408 | walking the recorded hull releases every point that the transaction held anywhere in the key, and no other |
| Intervals.WokenPoints | src/AVLTreeLockManager.cc:389-398 | the events collected are exactly those registered at points where the hold they wait for ends |
| KeyInfos.InitialTree | src/AVLTreeLockManager.cc:71-77 | a new key has the frozen write at time 0 and free time after it, in a linked balanced tree |
| KeyInfos.KeyInfo.SplitAfter | src/AVLTreeLockManager.cc:183-187 | cutting a node's interval after a time, with the node keeping the earlier part, leaves a valid tree that shows the cut list |
| KeyInfos.KeyInfo.SplitBefore | src/AVLTreeLockManager.cc:311-317 | cutting a node's interval before a time, with the node keeping the later part, leaves a valid tree that shows the cut list |
| KeyInfos.KeyInfo.AddEvent | src/AVLTreeLockManager.cc:88-102 | the request joins those waiting at the end of an interval, and every waiting request stays attached to an interval end |
| KeyInfos.KeyInfo.FindBefore | src/AVLTreeLockNode.cc:118-130 | resuming from a popped node gives the stack of the interval that contains an earlier time, or of the node before the subtree when the time lies before it |
| KeyInfos.KeyInfo.WalkBackward | src/AVLTreeLockManager.cc:193-239 | the loop ends at the first interval that stops the caller, with everything before it visited, never with an empty stack or a time outside the interval popped; with the search that led to its stack it makes at most 2h + 2m node visits |
| KeyInfos.KeyInfo.Visit | src/AVLTreeLockManager.cc:203-233 | one interval is taken, passed or stopped at according to its status, and only a live lock in the way gets the event |
| KeyInfos.KeyInfo.LockBackward | src/AVLTreeLockManager.cc:178-239 | everything that locking backwards does to one key, point by point, within 6 log2(n + 1) + 3 + 2m node visits in all searches, the two for `ts_end` included, for n intervals of which m are visited |
| KeyInfos.KeyInfo.Release | src/AVLTreeLockManager.cc:464-487 | one interval is frozen or unlocked if the transaction holds it, and its events are woken when that ends the hold |
| KeyInfos.KeyInfo.ReleaseHull | src/AVLTreeLockManager.cc:375-410 | freezing or unlocking along the recorded hull is complete and exact for the key, no predecessor of time 0 is ever taken, and its searches make at most 4 log2(n + 1) + 4 + 2m node visits for n intervals of which the hull touches m |
| KeyInfos.KeyInfo.Probe | src/AVLTreeLockManager.cc:266-306 | for every request, which intervals are looked at, the verdict, and what is collected for locking |
| KeyInfos.KeyInfo.LockPending | src/AVLTreeLockManager.cc:308-330 | the intervals collected are cut down to the request and locked, whatever their number, and no point outside changes |
| KeyInfos.KeyInfo.LockInterval | src/AVLTreeLockManager.cc:266-330 | a request that looks at exactly what overlaps it is granted if and only if nothing in it stops the caller, all or nothing |
| Probes.ProbedExactlyIff | src/AVLTreeLockManager.cc:302-305 | a request looks at exactly the intervals that overlap it if and only if none of them but the first has a left subtree, or only the one after that of `ts_start - 1` |
| Probes.VerdictRightIff | src/AVLTreeLockManager.cc:267-306 | whatever the boundaries, the verdict is right for all locks there can be within them if and only if that shape holds |
| Probes.OneIntervalIsExact | src/AVLTreeLockManager.cc:267-306 | a request within one interval has that shape |
| SkippedIntervals.SkipsLockedInterval | src/AVLTreeLockManager.cc:302-305 | locking [5, 5] and [6, 6] in a new key and unlocking [6, 6] leads to intervals for which a request for [5, 6] is granted although 5 is write-locked |
| SkippedIntervals.TreeGrows | src/AVLTreeLockNode.cc:132-151 | the insertions that these operations make give the tree for which that is so |
| LockTables.LockKeepsCovered | src/AVLTreeLockManager.cc:130-158 | widening the recorded hull by what was locked keeps the hull invariant: whatever a transaction holds lies within what is recorded for it |
| LockTables.FinishKeepsCovered | src/AVLTreeLockManager.cc:415-418 | after a transaction is finished it holds nothing in any key, so its hulls can be forgotten |
| LockTables.UnlockKeepsIff | src/AVLTreeLockManager.cc:467-474 | unlocking as written keeps the holder discipline and the hulls if and only if no read lock was shared |
| AVLTreeLockManagers.AVLTreeLockManager.constructor | src/AVLTreeLockManager.cc:15-31 | a new manager is valid and knows no key |
| AVLTreeLockManagers.AVLTreeLockManager.CreateKeyInfo | src/AVLTreeLockManager.cc:59-86 | creating a key changes the lock of no point and no waiting request, and does nothing to a key that exists |
| AVLTreeLockManagers.AVLTreeLockManager.AddTransactionLock | src/AVLTreeLockManager.cc:130-158 | a hull that starts is the interval just locked, one that exists is widened to whichever of its ends lies further out, and no other hull changes |
| LockTables.WidenedTightly | src/AVLTreeLockManager.cc:145-154 | recording is tight: a time is in the new hull if and only if it lies between two times that are ends of the new interval or were in the old hull, unless the old hull was recorded empty |
| LockTables.WidenedFromEmpty | src/AVLTreeLockManager.cc:145-154 | a hull that was recorded empty, because a walk stopped at once, counts with both its ends |
| AVLTreeLockManagers.AVLTreeLockManager.TryBackwardLock | src/AVLTreeLockManager.cc:160-248 | with v the greatest time up to `ts_end` that stops the caller: exactly the points in (v, `ts_end`] that can be taken gain the transaction and the mode, all others keep their locks, `ts_start` is v + 1, the result is true if and only if v is frozen, and otherwise the event waits where the blocking interval ends; exactly [`ts_start`, `ts_end`] is recorded |
| LockTables.WalkByStatus | src/AVLTreeLockManager.cc:203-233 | what such a walk meets on its way and where it stops, what it leaves there, and its result, by lock status, for readers and writers |
| AVLTreeLockManagers.AVLTreeLockManager.TryLock | src/AVLTreeLockManager.cc:250-341 | the request is granted if and only if no point of it stops the caller; then exactly its points gain the transaction and the mode and exactly the request is recorded, otherwise nothing changes |
| AVLTreeLockManagers.AVLTreeLockManager.PointProbesExactly | src/AVLTreeLockManager.cc:267-306 | a request for a single point qualifies for TryLock in every valid state |
| AVLTreeLockManagers.AVLTreeLockManager.Freeze | src/AVLTreeLockManager.cc:343-423 | every point the transaction held, in any key, is frozen in its own mode, no other point changes, the transaction is left nowhere, and an event is returned if and only if it waits at a point that the transaction was among the holders of and nobody holds any more |
| AVLTreeLockManagers.AVLTreeLockManager.Unlock | src/AVLTreeLockManager.cc:425-504 | every point the transaction held is freed, no other point changes, an event is returned if and only if it waits at a point that the transaction was among the holders of and nobody is recorded for any more, and the manager is valid afterwards if and only if no read lock was shared |
| ServerSpec.WokenWhereHoldEnds | src/AVLTreeLockManager.cc:471 | under either unlock rule, phase two wakes a request if and only if it is registered where the transaction was among the holders before and nobody is after |
| ServerSpec.UnlockKeepsLocksOkIff | src/AVLTreeLockManager.cc:467-474 | at every (key, time): unlocking as written keeps the holder discipline if and only if the transaction shared none of its read locks |
| ServerSpec.UnlockRulesAgreeIff | src/LockManager.h:64-68 | the written and the documented unlock are the same step under exactly that condition |
| SimpleTServers.SimpleTServer.Get | src/SimpleTServer.cc:135-146 | time 0 has the initial value "0", a stored version its value, anything else nothing |
| SimpleTServers.SimpleTServer.Set | src/SimpleTServer.cc:148-153 | one version is stored and no other touched |
| SimpleTServers.SimpleTServer.Add | src/SimpleTServer.cc:155-159 | the write joins the end of the transaction's buffer |
| SimpleTServers.SimpleTServer.GetKeys | src/SimpleTServer.cc:161-171 | the keys of the buffered writes in order, none for an unknown transaction |
| SimpleTServers.SimpleTServer.Prepare | src/SimpleTServer.cc:173-175 | the commit timestamp is remembered |
| SimpleTServers.SimpleTServer.Finalize | src/SimpleTServer.cc:177-195 | a prepared transaction's writes are all stored at its one timestamp or all dropped, and it is forgotten; an unprepared one changes nothing |
| VersionStore.SetAllLookup | src/SimpleTServer.cc:187-191 | of several buffered writes to a key the last one is what the store holds, and no other version changes |
| ServerEvents.ReadEvent.Run | src/ServerEvent.cc:20-50 | a read is answered with the version at which the walk stopped or waits and is moved back to right above it; a handler run once too often exits |
| ServerEvents.WriteEvent.Run | src/ServerEvent.cc:55-77 | a write is buffered and nothing else changes |
| ServerEvents.P1CEvent.Run | src/ServerEvent.cc:82-120 | the buffered keys are write-locked at the timestamp in order until one cannot be, the vote is yes if and only if all were, and the timestamp is remembered either way |
| ServerSpec.VotesYesIff | src/ServerEvent.cc:98-109 | the vote is yes if and only if every buffered key is free at the timestamp and buffered once; in any case exactly the keys before the first that is not get the write lock |
| ServerEvents.P2CEvent.Run | src/ServerEvent.cc:125-154 | the locks are frozen or released and the writes stored or dropped, in one step; the lock manager stays valid except after an abort that shared a read lock |
| Coordinators.Coordinator.constructor | src/Coordinator.cc:10-15 | a new coordinator has sent nothing |
| Coordinators.Coordinator.Read | src/Coordinator.cc:23-40 | a key that was written is answered with its last written value and without a request, any other is asked of its node at the start timestamp |
| Coordinators.Coordinator.Write | src/Coordinator.cc:42-56 | the buffer holds the last write of each key, and the node of the key is told |
| Coordinators.Coordinator.Commit | src/Coordinator.cc:58-80 | the nodes written to vote on the start timestamp, and every node that was sent anything is told to commit if and only if all voted yes |
| Coordinators.Coordinator.Abort | src/Coordinator.cc:82-101 | every node that was sent anything is told to abort, whatever the votes |
| Coordinators.AllYes | src/SimpleResolutionClient.cc:91-119 | the vote is the conjunction of the nodes' votes, and yes when there is none to ask |
| Deployments.Deployment.constructor | src/SimpleTServer.cc:11-15 | a new server without coordinators shows the first state of the protocol |
| Deployments.Deployment.Begin | src/Coordinator.cc:10-15 | a new coordinator extends the safe run with the start of its transaction |
| Deployments.Deployment.Read | src/Coordinator.cc:23-36 | a read of an own write is answered at once, with the last value written, any other gets a handler at the server; either extends the safe run, and what is answered is what is logged |
| Deployments.Deployment.RunDue | src/ServerEvent.cc:20-50 | running the handler of a read that is due extends the safe run; it is answered if and only if the walk stopped at a frozen lock, and then the coordinator gets and logs the version found there; it ends the server process if and only if the read was answered before |
| Deployments.Deployment.Write | src/Coordinator.cc:42-56 | a write reaches the buffer of the server and that of the coordinator, and extends the safe run |
| Deployments.Deployment.Prepare | src/Coordinator.cc:70 | phase one at the start timestamp brings the coordinator the vote, and extends the safe run |
| Deployments.Deployment.Commit | src/Coordinator.cc:71-79 | the coordinator's decision is the vote, or yes with nothing to vote on; the server is told if and only if the transaction wrote a key or had a read answered by it, which extends the safe run and leaves the transaction committed or aborted, provided that a no does not abort a shared read lock |
| Histories.LoggedIffSent | src/Coordinator.cc:23-80 | in every safe run, a transaction that logged anything wrote a key or had a read answered by a server |
| Deployments.Deployment.Abort | src/Coordinator.cc:94-100 | the server is told under the same condition, and an abort that shares no read lock extends the safe run and leaves the transaction aborted |
| Deployments.Deployment.LogsSerializable | src/Coordinator.cc:23-80 | after any sequence of these calls, aborts that share a read lock aside, replaying the logs of the committed coordinators by start timestamp reproduces every value they read if and only if ties agree |
| ProtocolCommit.NextInv | src/ServerEvent.cc:20-154 | every step of the protocol keeps the invariant, aborts under the condition that no read lock is shared |
| ProtocolCommit.RunInv | src/ServerEvent.cc:20-154 | the invariant holds in every state of every run |
| Refinement.ReadIsStep | src/ServerEvent.cc:20-50 | running a read that is due is a step of the protocol, and the lookup after a successful walk finds its version, given that phase two has stored what it froze |
| Refinement.WriteIsStep | src/ServerEvent.cc:55-77 | running a write is a step of the protocol |
| Refinement.PrepareIsStep | src/ServerEvent.cc:82-120 | phase one at the start timestamp is a step of the protocol |
| Refinement.FinishIsStep | src/ServerEvent.cc:125-154 | phase two is a step of the protocol, and keeps its invariant if and only if it commits or shared no read lock |
| Serializability.TimestampOrderSerializable | src/ServerEvent.cc:20-154 | replaying the committed transactions one at a time by start timestamp on a single-version database gives every read the value it returned, in every state of every run |
| Serializability.SerializableIffTiesAgree | src/SimpleTimestampGenerator.cc:14-19 | in every state of every run, for every order of the committed transactions by start timestamp, ties included: the serial run reproduces every read if and only if no read is contradicted by a write of a transaction that it ties with and that comes before it |
| Serializability.FinalStateSerializable | src/SimpleTServer.cc:135-195 | the database that replay ends with is the newest version of every key |
| Serializability.NewestIsSerial | src/SimpleTServer.cc:135-195 | the newest version below a timestamp is what the database holds after the transactions below that timestamp |
| RunProperties.FrozenForever | src/LockStatus.h:16-20 | a frozen point keeps its lock in every later state of every run, safe or not, under either unlock rule |
| RunProperties.StoredForever | src/SimpleTServer.cc:148-153 | a stored version is never overwritten or removed |
| RunProperties.NoVersionSlips | src/AVLTreeLockManager.cc:193-239 | once a version was read, no version and no write lock appears between it and the reader's timestamp while the reader has not aborted |
| RunProperties.ReadFindsVersion | src/SimpleTServer.cc:135-146 | between steps, a read that stops at a frozen write finds the version |
| RunProperties.AnswerIsNewest | src/ServerEvent.cc:26-42 | however often it was blocked, a read is answered with the newest version below its transaction's own timestamp, and with the same one each time |
| RunProperties.UnwrittenReadsZero | src/SimpleTServer.cc:136-137 | a read of a key that neither the reader nor a committed transaction below it wrote returned "0" |
| RunProperties.BlockedReadKeepsItsGround | src/ServerEvent.cc:26-35 | across blocked attempts everything from the rewritten timestamp up to the original one stays read-locked by the reader or frozen for reads |
| RunProperties.NoConflictingHolders | src/AVLTreeLockManager.cc:203-233 | two transactions that hold one point both read it, and both are live |
| RunProperties.LocksAndStoreAgree | src/ServerEvent.cc:135-143 | between steps the frozen writes above time 0 are exactly the stored versions |
| RunProperties.NoLostWakeUp | src/AVLTreeLockManager.cc:214-223 | a read that waits does so behind the write lock of one transaction in phase two of commit, and the step that finishes that transaction, either way, makes the read run |
| Progress.WaitsEnd | src/AVLTreeLockManager.cc:214-223 | a read that waits, waits for a transaction that waits for nothing and can finish the way it voted, which makes the read due to run |
| Progress.DueReadCanStep | src/ServerEvent.cc:20-50 | an unanswered read that is due can always take a step |
| RunProperties.FinishIsAtomic | src/ServerEvent.cc:125-154 | a commit makes all buffered writes visible at one timestamp and touches no other version, an abort leaves the store as it was |
| RunProperties.YesVoteHoldsItsKeys | src/ServerEvent.cc:99-110 | a transaction that voted yes holds the write lock at its timestamp on every key it wrote |
| RunProperties.OneCommitPerVersion | src/ServerEvent.cc:99-110 | two transactions never commit the same key at the same timestamp, even when their start timestamps tie |
| RunProperties.AbortKeepsInvariantIff | src/AVLTreeLockManager.cc:467-474 | with unlock as written, an abort keeps the protocol's invariant if and only if it shares no read lock |
| Counterexamples.SharedReaderBreaksSerializability | src/AVLTreeLockManager.cc:467-474 | a run of twelve steps in which one abort that shares a read lock lets a write slip under a committed read |
| UnsafeAborts.UnsafeAbortLetsVersionSlip | src/AVLTreeLockManager.cc:467-474 | from every reachable state, after any abort that shares a read lock, a new transaction can commit a version between what a live reader saw, or got to, and its timestamp |
| EarlyWakeUps.EarlyReadMissesIff | src/AVLTreeLockManager.cc:420-422 | a read that runs between freezing and storing misses its version if and only if the write lock of the committing transaction is the first thing in its way |
| EarlyWakeUps.WaitingReadMisses | src/ServerEvent.cc:135-143 | so every read that waits for the committing transaction misses |
| EarlyWakeUps.EarlyWakeUpReached | src/ServerEvent.cc:38-40 | a safe run that leads to such a read |
| TiedTimestamps.TiesBreakSerializability | src/SimpleTimestampGenerator.cc:14-19 | a safe run in which two transactions with one start timestamp commit and neither order explains what they read |
| WakeUps.WakesAnsweredIff | src/AVLTreeLockManager.cc:389-398 | phase two of a safe step wakes an answered read if and only if that read is registered at a point which the transaction holds |
| WakeUps.AnsweredReadRunsAgainIff | src/AVLTreeLockManager.cc:88-102 | over any safe run: an answered read is woken again before its transaction is done if and only if it was answered below a point at which it had been blocked and which was not frozen by then |
| WakeUps.OnlyWaitingReadsAreWoken | src/AVLTreeLockManager.cc:471-480 | as long as no abort wakes anybody, every request that is woken is a read that waits |
| StaleEvents.AnsweredReadIsWokenAgain | src/AVLTreeLockManager.cc:88-102 | a safe run in which a commit wakes a read that was answered before |

## Left out

- AVLTreeLockManagers.AVLTreeLockManager.TryLock: granting is specified only for requests that look at exactly the intervals that overlap them; for the others the source can grant the wrong thing (Probes.VerdictRightIff) and can then leave an empty interval behind, which the model does not follow.
- KeyInfos.KeyInfo.LockInterval: likewise only for requests that look at exactly what overlaps them.
- KeyInfos.KeyInfo.LockPending: likewise only for what such a request collects.
- AVLTreeLockManagers.AVLTreeLockManager.Freeze: the woken events are returned and not run inside the call; see Choices.
- AVLTreeLockManagers.AVLTreeLockManager.Unlock: the woken events are returned likewise, and nothing is said of lock manager operations that follow an abort which shared a read lock, because the source's own discipline is broken then; the protocol's steps are followed (UnsafeAborts.UnsafeAbortLetsVersionSlip).
- ServerEvents.P1CEvent.Run: the commit timestamp is the start timestamp, as coordinators send it; the node sets it copies into its reply only serve the resolution client.
- ServerEvents.P2CEvent.Run: woken events are returned and run after it, not inside it; the `EarlyWakeUps` theorems are about the source's order.
- Refinement.FinishIsStep: likewise.
- Refinement.ReadIsStep: holds with phase two done, not between freezing and storing; see EarlyWakeUps.EarlyReadMissesIff.
- RunProperties.ReadFindsVersion: likewise.
- Threads: the reader-writer locks and mutexes are not modelled, each lock manager operation is one atomic step, and nothing is claimed about deadlock (the transaction map and a key are locked in both orders).
- `AVLTreeLockNode::remove` is never called; destructors, memory freeing, `toString` and logging have no effect on locks.
- The server's request queue and polling, the node sets it remembers per transaction, and the resolution client's retries: message delivery is the order of protocol steps, and a read request that a transaction sent stays pending until it is answered.
- gRPC, marshalling, the shell and its grammar, `SafeQueue`, the key mapper and the generators of ids and timestamps: transaction ids and request ids are assumed to be unique.
- Garbage collection, replication and coordinator failures, which the source does not have.

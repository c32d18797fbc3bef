# HAWK node verification

A Dafny model of one node of the HAWK distributed database, together with proofs about it: its lock manager, its
transaction manager, the builder of its wait-for graph, the cycle detector, the component search and zone cut, and the
handlers that merge reports, abort victims and push probes.

The program works by changing maps, queues and counters in place, so each class of the program is a class here with the
same fields and the same loops. Every method is proved against a specification function on plain values, and the
properties of the system are lemmas about those functions and about all runs of them.

| file | program part |
|---|---|
| `Commons.dfy`, `Graphs.dfy`, `HashIteration.dfy` | ids, records, directed multigraphs, iteration over hash maps |
| `LockModel.dfy`, `ResourceManager.dfy` | lock tables as values; the lock manager |
| `NodeModel.dfy`, `TransactionManager.dfy` | the node as a step machine and its invariant; the transaction manager |
| `Steps.dfy`, `RemoteLocks.dfy` | every step field by field, who never runs again; locks of other nodes |
| `Serializability.dfy` | two-phase locking over whole runs |
| `WaitForGraph.dfy`, `LockTable.dfy` | the wait-for relation and its stability; the graph builder |
| `BlockedCycles.dfy` | all deadlocks of a node, shown by its graph or not |
| `DetectorModel.dfy`, `DetectorTheorems.dfy`, `DeadlockDetector.dfy` | the cycle search |
| `Tangle.dfy` | a graph on which it depends on the iteration order whether the search returns |
| `TarjanModel.dfy`, `TarjanTheorems.dfy`, `PAGManager.dfy` | the component search and the cut |
| `Zones.dfy`, `DetectionZoneManager.dfy` | detection zones |
| `Resolution.dfy` | victims, aborts and rounds of detection |
| `Reports.dfy` | merging, pruning and batching of reports |
| `Coordination.dfy` | from the collection of reports to the abort of a victim |
| `Probes.dfy` | path pushing |
| `DistributedDBNode.dfy` | the message handlers of a node |
| `Delivery.dfy` | what the messages of a check say, and the round that their delivery completes |
| `ConcreteRuns.dfy` | runs of a node written out step by step |
| `ReachableHang.dfy` | a run of a node on whose graph the cycle search does not return |
| `HiddenDeadlocks.dfy` | what rounds of detection leave, and a run whose deadlock no round sees |

## How the program is modelled

*Interleaving.* Each public method of the transaction manager is one step. The graph builder is the exception: it reads
the holders, the queue and the waiting transaction of each resource under separate locks, so between any two of its reads
other threads may take any number of steps. They are given by a script of step lists, and everything is proved for all
scripts.

*Iteration order.* The order in which a hash map is iterated is an arbitrary duplicate-free list of its keys.

*Non-termination.* The cycle search collects a cycle by following `parent` entries, and that loop may never end. The model
notices the first repeated vertex of such a walk and has the outcome `Hangs` for it (`returned` is false in the methods).
`WalkEndsExactly` proves that this is exactly the case in which the loop of the program runs for ever.

*History.* The node model keeps a log of grants and ends that the program does not have; the retry callback of the lock
manager, which has no body in the repository, is a ghost log of its calls.

*Environment.* Lock responses come from the environment, for a transaction with a pending remote request and for the
resource it waits for, because no node answers a lock request (DistributedDBNode.cpp:254-255). Resource ids start at 1, and
a statement names at least one resource. Messages to other nodes and to the client are collected in lists of what was
handed to the network.

## What is proved

1. *Locks.* In every run a resource has only shared holders or exactly one holder, and the lock table and the lock
   records of the transactions agree (`LocksAgreeInEveryRun`). A transaction has executed
   exactly as many statements on resources of other nodes as answers granted it (`ForeignLocksWereGranted`). Releases tell
   the first waiter of each released queue, once (`FrontWaitersAreTold`), but once a transaction is blocked without a request
   on its way, only its own abort ever changes that (`StuckForGood`).
2. *Serializability.* Of two conflicting grants the first transaction has ended before the second grant, so in every run
   commit order is a serial order and the conflict graph is acyclic (`RunsAreSerializable`).
3. *Deadlocks are permanent.* A cycle of the wait-for relation is there after every run that aborts none of its members
   (`DeadlockIsStable`).
4. *No phantom deadlock.* A cycle in a graph collected read by read while the node runs is a deadlock when the collection
   ends, exactly when none of its members was aborted meanwhile (`NoPhantomDeadlock`).
5. *The detector.* Whenever it returns, each reported cycle is real, the frequencies are exact, and no cycle gets away:
   every cycle of the graph runs through the closing edge of a reported one (`EveryCycleIsCut`), so every component with a
   cycle has a reported cycle in it (`EveryComponentIsReported`). Its work is linear in the graph (`DetectorWork`). It
   returns in every iteration order when each vertex on a cycle has as many edges in as out or a single predecessor on
   cycles with it (`DetectorReturns`), so in particular as long as nobody waits for a shared lock
   (`ExclusiveWaitsAreFound`). Outside that condition either may happen, on one and the same graph
   (`OutsideEitherMayHappen`).
6. *From end to end.* Reports are collected read by read while the node runs, sent, merged in batches, pruned and searched,
   and the node goes on running all the while. Every edge that survives the prune is real at that moment
   (`PrunedEdgesAreReal`), whoever was aborted since the collection. A reported cycle is a permanent deadlock, which an abort
   ends exactly when it is the abort of a member (`ReportedCyclesAreDeadlocks`). The messages of a check hold one abort
   signal for each reported cycle, to the home of the member that is in the most of them (`CheckSignalsEveryCycle`), and
   their delivery completes a round (`DeliveryCompletesTheRound`): every reported cycle is gone and every other wait cycle
   has lost somebody of its component. With n active transactions no cycle of the wait-for relation is left after n - 1
   rounds (`RoundsEndWaitCycles`). That relation has only queue fronts: `WhatRoundsLeave` says exactly which cycles of
   blocked transactions remain.
7. *Components and zones.* The component search is Tarjan's algorithm and is exact; the zones partition the nodes and
   their members agree on one leader.
8. *Reports and probes.* Batching conserves every edge; a probe is forwarded fewer times than there are transactions, and
   a repeat in its path is a real cycle of blocked transactions exactly when nobody on it was aborted.

## Where the code does not do what its comments promise

* The detector may not return: visit budgets above one let an open vertex be entered again, which overwrites its `parent`
  entry. `HangIsReachable` gives a run of one node with four transactions, without an abort, whose wait-for graph has this
  effect.
* Rounds do not end every deadlock. The graph builder looks at queue fronts only, so a deadlock with a member behind another
  waiter is not in the graph, whether that waiter is active or was aborted. `LiveFrontHidesDeadlock` gives a run of one node
  with three transactions, without an abort, whose deadlock no round reports or ends. Resolution itself adds to this: an
  aborted transaction stays in its queue, so each victim takes the resource it waited for out of every later graph
  (`VictimsBlindTheirResources`).
* The function `greedySCCcut` fills `disc` before the search, which takes any entry to mean "visited", so it never recurses.
  For every graph and threshold it returns one zone per key (`CutAsWritten`). With the threshold in use that is what its
  comment promises exactly when the graph is acyclic (`PromiseKeptExactlyWhenAcyclic`); `CutSeparatesAPair` is the smallest
  graph on which it is not. A running system never gets that far: a transaction is active only on its home node, so no node
  ever samples a wait between nodes (`CollectCrossNodeWFDEdges`), the graph is empty, and an adjustment leaves every node
  without a zone (`HandlePAGResponse`, `Unassigned`).
* A coordinator prunes merged reports with its own active transactions. As long as ids are not shared between nodes, that
  removes every edge of another node, so no deadlock of or across other nodes is ever found there (`OnlyOwnEdgesSurvive`).
* A probe that finds a cycle asks for a victim with an empty frequency map. The lookup throws, so path pushing never aborts
  or reports anything (`ProbesStayAndNeverResolve`).

## Model

| member | source | states |
|---|---|---|
| Commons.LocalRangeIsOwnership | commons.h:207-210 | For positive resource ids, the range a node enumerates as its own is exactly the set whose owner it is. |
| ResourceManager.ResourceManager.CheckConflict | ResourceManager.cpp:145-173 | The loop over the holders decides: a free resource is never refused, a held one is refused when somebody waits, when the request is exclusive, or when a holder is exclusive. |
| ResourceManager.ResourceManager.AcquireLock | ResourceManager.cpp:10-32 | A remote resource is refused and nothing changes; a conflict appends to the queue only; otherwise the holder entry is set only. |
| ResourceManager.ResourceManager.ReleaseLock | ResourceManager.cpp:34-66 | Removes the entry, drops an empty holder map, and tells the first waiter of that resource, if the lock was held and somebody waits. |
| ResourceManager.ResourceManager.ReleaseAllLocks | ResourceManager.cpp:68-111 | Erasing while iterating removes the transaction from every holder map and nothing else; the notes added after all removals are without repetition and are exactly the first waiters of the resources it held. |
| ResourceManager.ResourceManager.GetLocalResources | ResourceManager.cpp:133-143 | Lists exactly the positive ids owned by the node, in ascending order. |
| ResourceManager.ResourceManager.RemoveTransactionFromWaitingQueue | ResourceManager.cpp:175-203 | Rebuilds the queue without the transaction, with every other entry as often and in the same order, and says whether it was there. |
| LockModel.AcquireValid | ResourceManager.cpp:10-32 | Acquiring keeps the lock invariant: owned resources only, no empty holder map, only shared holders or exactly one. |
| LockModel.GrantIsCompatible | ResourceManager.cpp:20-31 | A lock is never granted next to a conflicting one, and a grant while somebody waits leaves the grantee as the only holder. |
| LockModel.GrantedExactly | ResourceManager.cpp:10-32 | A request is granted exactly when the node owns the resource and either nobody holds it, or nobody waits and request and holders are all shared; a refusal changes nothing but the end of that queue. |
| LockModel.WaiterIsRemoved | ResourceManager.cpp:175-203 | The removal takes exactly the entries of the transaction out of that queue and keeps the order of the others. |
| LockModel.FrontWaitersAreTold | ResourceManager.cpp:101-110 | The notes of a batch are without repetition, and a note is among them exactly when its waiter is first in the queue of a released resource. |
| LockModel.ReleaseAllEntries | ResourceManager.cpp:75-99 | The batch release removes the transaction from every holder map and keeps the invariant. |
| LockModel.ReleaseAllIsReleaseEach | ResourceManager.cpp:34-111 | The batch release refines releasing one by one: for every two orders of the held resources, the same tables and the same multiset of notifications. |
| TransactionManager.TransactionManager.BeginControlledTransaction | TransactionManager.cpp:36-47 | Adds one fresh running transaction under the next id; no other changes. |
| TransactionManager.TransactionManager.TryExecuteNextSQLStatement | TransactionManager.cpp:49-114 | All branches (unknown, blocked, commit, granted, refused, remote) give the specified new state, result and lock request; the step lemmas say field by field what that is. |
| TransactionManager.TransactionManager.HandleSQLResponse | TransactionManager.cpp:116-149 | A granted response records the lock, resumes and goes on with the next statement; a denied one leaves the transaction blocked. |
| TransactionManager.TransactionManager.AbortTransaction | TransactionManager.cpp:151-174 | Releases every lock and removes the transaction; the queues keep it. |
| TransactionManager.TransactionManager.CommitTransaction | TransactionManager.cpp:176-199 | As an abort, but logged as a commit. |
| TransactionManager.TransactionManager.GetActiveTransactions | TransactionManager.cpp:201-210 | Collects exactly the ids of the active transactions. |
| TransactionManager.TransactionManager.GetTransactionWaitingFor | TransactionManager.cpp:223-232 | The awaited resource of an active transaction, 0 for any other. |
| TransactionManager.TransactionManager.GetTransactionHomeNode | TransactionManager.cpp:268-275 | The home of an active transaction, 0 for any other. |
| NodeModel.ApplyInv | TransactionManager.cpp:36-199 | Every step (begin, execute, response, commit, abort) keeps the whole invariant of the node. |
| NodeModel.RunInv | TransactionManager.cpp:36-199 | Every run keeps it. |
| NodeModel.LocksAgreeInEveryRun | TransactionManager.cpp:73-92 | In every run: holders compatible, holder table and transaction records equal in both directions and mode, and a transaction's locks are those of its executed statements. |
| NodeModel.ResumeInv | TransactionManager.cpp:130-148 | Answering a remote request keeps the invariant, and the response is the resumption followed by an execution. |
| Steps.RemoteStep | TransactionManager.cpp:93-113 | Executing a statement on a resource of another node returns false and leaves the transaction blocked, pending and waiting for exactly that resource; index, locks, tables and all other transactions are unchanged. |
| Steps.RequestsAreWaits | TransactionManager.cpp:95-112 | A lock is asked for exactly when the transaction becomes pending, of the owner, for the resource it then waits for and in the mode of its statement. |
| Steps.GrantStep | TransactionManager.cpp:78-85 | A lock of the own node that nobody holds, or that all share while nobody waits, is recorded in both places in that mode; the transaction has one statement more behind it and nothing else changes. |
| Steps.RefuseStep | TransactionManager.cpp:86-91 | In every other case it is appended to the queue and waits for that resource, and nothing else changes. |
| Steps.CommitStep | TransactionManager.cpp:67-71 | After the last statement every lock is given back, the queues and all others stay, and the commit is logged. |
| Steps.AbortStep | TransactionManager.cpp:151-174 | The same for an abort at any time; the abort of an unknown transaction does nothing. |
| Steps.AnswerStep | TransactionManager.cpp:130-148 | A granted answer records the awaited lock in the mode of the statement, steps over it and goes on; a denied one leaves the transaction blocked on nothing. |
| Steps.StuckForGood | TransactionManager.cpp:62-65 | A transaction that is blocked without a pending request is, after any run, active exactly when the run has no abort of it, and then unchanged: no release ever resumes it. |
| RemoteLocks.StepTakesForeign | TransactionManager.cpp:93-149 | No step but a granted answer puts a statement on a resource of another node behind a transaction, and that one exactly one. |
| RemoteLocks.ForeignLocksWereGranted | TransactionManager.cpp:138-144 | In every run the executed statements on resources of other nodes are exactly as many as the answers that granted one, and such a lock is recorded only if there was one. |
| Serializability.GrantLog | ResourceManager.cpp:20-31 | Two-phase locking step: when a grant conflicts with an earlier one, the earlier transaction has already ended. |
| Serializability.ApplyLog | TransactionManager.cpp:78-91 | Every step keeps: conflicting grants are separated by an end, ends are final, and locks are held in their mode until the end. |
| Serializability.ConflictingGrantsAreSeparated | TransactionManager.cpp:165-198 | In every run the earlier of two conflicting transactions ends between the two grants. |
| Serializability.ConflictsFollowCommits | TransactionManager.cpp:190-198 | Between committed transactions conflicts follow the commit order. |
| Serializability.RunsAreSerializable | TransactionManager.cpp:78-199 | In every run commit order is a reverse topological order of the conflict graph, which is acyclic. |
| WaitForGraph.ApplyEvolves | TransactionManager.cpp:49-199 | What one step may do to waits: queues only grow, holders stay while active, and a transaction blocked here changes only by an abort. |
| WaitForGraph.EdgeSurvives | LockTable.cpp:24-38 | An edge stays as long as both its ends are active. |
| WaitForGraph.DeadlockIsStable | LockTable.cpp:24-38 | A wait cycle is unchanged, and none of its members advances, in every run that aborts none of them. |
| WaitForGraph.Collect | LockTable.cpp:28-38 | Adding the edges to holders that were read in an earlier state keeps the collected graph sound and complete. |
| WaitForGraph.CollectingSurvives | LockTable.cpp:14-39 | Steps of other threads between two reads do not spoil what was collected. |
| WaitForGraph.NoPhantomDeadlock | LockTable.cpp:14-39 | A cycle of the collected graph is a wait cycle at the end of the collection if and only if no member was aborted meanwhile. |
| WaitForGraph.NoMissedDeadlock | LockTable.cpp:14-39 | A wait cycle that was there at the start, with no member aborted meanwhile, is in the collected graph. |
| WaitForGraph.AtomicCollectionIsExact | LockTable.cpp:10-39 | Without interference the collected graph is exactly the wait-for relation. |
| WaitForGraph.PruningOrderIsIrrelevant | LockTable.cpp:43-74 | Pruning while building gives each edge as often as the coordinator's prune of the full graph, and for the active transactions of a reachable state both are no-ops. |
| LockTable.PushEdges | LockTable.cpp:32-38 | Each allowed holder other than the waiter is pushed exactly once. |
| LockTable.LockTable.Look | LockTable.cpp:14-38 | One resource, three separate reads, arbitrary steps between them: the guarantees hold for this resource too. |
| LockTable.LockTable.BuildGraph | LockTable.cpp:10-74 | For every script of other threads the result has all guarantees of a collected graph. |
| LockTable.LockTable.BuildLocalWaitForGraph | LockTable.cpp:10-39 | As above, and without interference it returns the wait-for relation, each edge once. |
| LockTable.LockTable.BuildAndPruneLocalWaitForGraph | LockTable.cpp:43-74 | The same restricted to a set of transactions. |
| DetectorTheorems.WalkEndsExactly | DeadlockDetector.cpp:37-43 | The parent walk of the model ends if and only if iterating `parent` ever meets the target. |
| DetectorTheorems.WalkIsCycle | DeadlockDetector.cpp:34-46 | A finished walk is a simple cycle of the graph, its closing edge included. |
| DetectorTheorems.ReportedCyclesAreReal | DeadlockDetector.cpp:34-48 | Every recorded cycle is a simple cycle, and each frequency is the number of recorded cycles with that transaction. |
| DetectorTheorems.SilenceGivesOrder | DeadlockDetector.cpp:10-107 | A search that returns without a hit leaves a reverse topological order of the graph. |
| DetectorTheorems.ExitOrder | DeadlockDetector.cpp:10-107 | Whenever the search returns, the order of first exits is a reverse topological order of all keys but for the closing edges of reported cycles. |
| DetectorTheorems.EveryCycleIsCut | DeadlockDetector.cpp:34-48 | Then every closed walk of the graph runs through the closing edge of a reported cycle. |
| DetectorTheorems.EveryComponentIsReported | DeadlockDetector.cpp:34-48 | For every vertex on a cycle some reported cycle lies in its strongly connected component. |
| DetectorTheorems.DetectorDecidesCyclicity | DeadlockDetector.cpp:10-107 | For every graph, order and the code's budgets, whenever the search returns it reports something if and only if the graph has a cycle. |
| DetectorTheorems.HitEnds | DeadlockDetector.cpp:34-43 | Under the chain invariant the walk from the top of the recursion reaches the vertex that was hit, even if vertices are open more than once. |
| DetectorTheorems.DetectorReturns | DeadlockDetector.cpp:21-48 | It returns in every order when every vertex on a cycle has equal in- and out-degree, parallel edges counted, or a single predecessor on cycles with it. |
| DetectorTheorems.SingleSuccessorsReturn | DeadlockDetector.cpp:21-48 | In particular it returns when no vertex has two different successors. |
| DetectorTheorems.DetectorWork | DeadlockDetector.cpp:87-105 | A search that returns makes at most as many activations as there are keys, vertices and, twice, edges. |
| DetectorTheorems.ReportsAreBounded | DeadlockDetector.cpp:21-48 | With at most d successors to a vertex it reports at most one cycle for each key and d - 1 for each activation. |
| Tangle.TangleHangs | DeadlockDetector.cpp:38-43 | On a graph of four vertices, in one iteration order, the search never returns. |
| Tangle.TangleReturns | DeadlockDetector.cpp:21-48 | On the same graph, in another iteration order, it returns. |
| Tangle.OutsideEitherMayHappen | DeadlockDetector.cpp:102-106 | That graph is outside the condition, so no condition on the graph alone is exact. |
| Tangle.OrdinaryDeadlockIsFound | DeadlockDetector.cpp:56-108 | Two transactions waiting for each other and a third for one of them are found in every order. |
| ReachableHang.HangIsReachable | DeadlockDetector.cpp:21-48 | The graph on which the search may hang is the wait-for graph of a node after a run without aborts. |
| DeadlockDetector.FollowParents | DeadlockDetector.cpp:37-45 | The loop returns if and only if the walk ends, with the walk and the counted frequencies. |
| DeadlockDetector.Degrees | DeadlockDetector.cpp:70-78 | The counting loops give the in- and out-degree of every vertex, parallel edges counted. |
| DeadlockDetector.CycleSearch.Dfs | DeadlockDetector.cpp:10-52 | The recursion updates budgets, stack marks, parents, cycles and frequencies as specified. |
| DeadlockDetector.CycleSearch.FindCycles | DeadlockDetector.cpp:56-108 | Initialisation and the searches from all keys compute the specified outcome, for some iteration order. |
| TarjanTheorems.DfsDone | PAGManager.cpp:9-53 | One activation keeps the invariant of the search and leaves discovery, low links, stack and lists as they must be. |
| TarjanTheorems.TopIsComponent | PAGManager.cpp:38-52 | What is popped when low equals discovery time is a maximal strongly connected set. |
| TarjanTheorems.ComponentsAreExact | PAGManager.cpp:9-53 | Started with nothing visited, every vertex is in exactly one list, every list is a strongly connected component, and lists come in reverse topological order. |
| PAGManager.ComponentSearch.FindSCCsDFS | PAGManager.cpp:9-53 | The recursion computes the specified state of the search. |
| PAGManager.ComponentSearch.PopComponent | PAGManager.cpp:40-51 | The popping loop takes the stack down to the root and emits what it took in stack order. |
| PAGManager.GeneratePAG | PAGManager.cpp:58-70 | Successor lists are the holding nodes of the node's sampled edges in order, without edges inside one node. |
| PAGManager.TargetsCount | PAGManager.cpp:58-70 | One node has as many edges to another as there are samples in which it waits for it. |
| PAGManager.GreedySCCcut | PAGManager.cpp:76-149 | The zones are one per key, each led by its node, for every graph and threshold; an empty graph gives none. |
| PAGManager.CutZones | PAGManager.cpp:108-148 | For any list of components the loops build the specified zones, each led by its least member. |
| Zones.CutPartitions | PAGManager.cpp:113-144 | For any disjoint non-empty components the zones are disjoint, cover every key, keep components of at least the threshold whole and add only single nodes; a negative threshold counts as a huge one. |
| Zones.CutAsWritten | PAGManager.cpp:86-106 | The prefilled discovery map makes the search find only single nodes. |
| Zones.PromiseKeptExactlyWhenAcyclic | PAGManager.cpp:71-77 | With the threshold in use, all large components become zones if and only if the graph has no cycle. |
| Zones.CutSeparatesAPair | PAGManager.cpp:86-144 | Two nodes that wait for each other are a component that reaches the threshold and become two zones. |
| LockTable.LockTable.CollectCrossNodeWFDEdges | LockTable.cpp:114-146 | Whatever other threads do, no wait between nodes is ever sampled; a lookup throws only when a transaction ended meanwhile. |
| Zones.MembersAgree | DetectionZoneManager.cpp:13-35 | After the update all members of a zone agree on it and its leader, and exactly one of them leads. |
| Zones.Unassigned | DetectionZoneManager.cpp:16-35 | A node in no zone has no leader and no members. |
| DetectionZoneManager.DetectionZoneManager.UpdateDetectionZones | DetectionZoneManager.cpp:13-35 | The loop leaves the zone table, the own leader and the own members as specified; the last zone with the node wins. |
| DetectionZoneManager.TableIsComplete | DetectionZoneManager.cpp:20-27 | With disjoint zones led by their least members, the table has every zone under its leader and nothing else. |
| DetectionZoneManager.TableHasTheLast | DetectionZoneManager.cpp:20-27 | Whatever the zones are, the table has under each leader the last non-empty zone that it leads, and nothing under anybody else. |
| Zones.MyZoneIsTheLast | DetectionZoneManager.cpp:20-33 | Whatever the zones are, a node goes by the last one that contains it. |
| Resolution.VictimIsDetermined | DeadlockDetector.cpp:112-120 | A member is the victim if and only if no member is in more cycles and none in as many has a smaller id, whatever the rotation of the cycle and the order of equals. |
| Resolution.SelectVictim | DistributedDBNode.cpp:626-636 | Returns the member in the most cycles, and of equals the one with the least id; nothing exactly when some member has no frequency. |
| Resolution.VictimsAreMostInvolved | DistributedDBNode.cpp:541-546 | Each victim of a search lies on the most reported cycles among the members of its own, and of equals has the least id. |
| Resolution.ReportedCyclesHaveVictims | DistributedDBNode.cpp:543-546 | The lookup never throws for a cycle reported by the search. |
| Resolution.AbortRemovesItsEdges | TransactionManager.cpp:151-174 | An abort removes from the wait-for relation exactly the edges that touch the transaction. |
| Resolution.AbortAllRemovesTheirEdges | DistributedDBNode.cpp:638-652 | The same for a list of victims, and exactly they stop being active. |
| Coordination.PrunedEdgesAreReal | DistributedDBNode.cpp:525-535 | Every edge that pruning leaves of merged reports is in the wait-for relation now, however long ago the reports were collected and whoever was aborted since. |
| Coordination.WaitCyclesReachTheSearch | DistributedDBNode.cpp:525-537 | A wait cycle from the start of a collection whose members are still active is a cycle of the pruned graph. |
| Coordination.StandingDeadlockIsReported | DistributedDBNode.cpp:537-541 | Then, if the search returns, an edge between two members of that cycle closes a reported cycle. |
| Coordination.ReportedCyclesAreDeadlocks | DistributedDBNode.cpp:523-551 | For any restriction, any steps between collection and check and any other reports in the batch: a reported cycle is a permanent deadlock, and an abort ends it if and only if it is the abort of a member. |
| BlockedCycles.BlockedCycleIsStable | ResourceManager.cpp:20-25 | Every cycle of blocked transactions, in the graph or not, is unchanged in every run that aborts none of its members. |
| BlockedCycles.BuilderSeesOnlyFronts | LockTable.cpp:24-38 | A cycle of blocked transactions is in the wait-for graph if and only if each member is first in its queue and waits for another. |
| BlockedCycles.AbortBlindsTheResource | TransactionManager.cpp:165-173 | After the abort of a front waiter no edge through that resource is in the wait-for relation of any later state. |
| BlockedCycles.VictimsBlindTheirResources | DistributedDBNode.cpp:541-557 | Every member of a wait cycle is such a front waiter, so every victim has this effect. |
| Resolution.ExclusiveWaitsAreFound | DistributedDBNode.cpp:537-541 | As long as nobody waits for a shared lock, the search of a node's graph returns in every order and reports something if and only if there is a wait cycle. |
| Resolution.LocalCheckIsARound | DistributedDBNode.cpp:525-557 | Pruning the node's own graph changes nothing, and a check with its aborts delivered is one round. |
| Resolution.RoundDestroysReportedCycles | DistributedDBNode.cpp:541-557 | Every reported cycle was a wait cycle and is none afterwards, no edge is added, somebody is aborted if and only if there was a wait cycle, and only members of wait cycles are. |
| Resolution.EveryWaitCycleLosesSomebody | DistributedDBNode.cpp:541-557 | For every wait cycle before a round, somebody in its component is aborted, whether or not the cycle itself was reported. |
| Resolution.RoundsEndWaitCycles | DistributedDBNode.cpp:523-557 | With n active transactions, n - 1 rounds in which the search returns leave no cycle of the wait-for relation. |
| Resolution.RoundsStopAtOnce | DistributedDBNode.cpp:523-557 | Without a wait cycle, rounds change nothing. |
| HiddenDeadlocks.WhatRoundsLeave | DistributedDBNode.cpp:523-557 | After the rounds a cycle of blocked transactions is left if and only if it was there before and no member was aborted; what is left was hidden from the graph, and a hidden cycle with no member on a wait cycle is left for certain. |
| HiddenDeadlocks.LiveFrontHidesDeadlock | LockTable.cpp:24-38 | A run without aborts after which two transactions are deadlocked behind an active third one, the graph has no cycle, and no number of rounds changes anything. |
| Reports.MergeAdds | DistributedDBNode.cpp:786-793 | Merging adds multiplicities, edge by edge. |
| Reports.EncodingKeepsEdges | DistributedDBNode.cpp:795-802 | Encoding a graph and merging it gives every edge back as often as it was there. |
| Reports.PruneIsInduced | DistributedDBNode.cpp:525-535 | Pruning keeps exactly the subgraph induced by the active transactions, with multiplicities. |
| Reports.OnlyOwnEdgesSurvive | DistributedDBNode.cpp:525-535 | When ids are not shared between nodes, a coordinator's prune leaves of the merged reports exactly the active part of its own. |
| Reports.BatchesConserveEdges | DistributedDBNode.cpp:435-448 | After n reports floor(n/E) detections have run, each on the sum of its own E reports, and the rest is in the aggregate. |
| Reports.BatchOrderIsIrrelevant | DistributedDBNode.cpp:435-448 | The order of the reports in a batch does not matter to its detection. |
| Reports.CentralConserves | DistributedDBNode.cpp:681-721 | The zone total is the sum of the reported counts, the central total is the number of cycles found centrally and the sum of what the client was told, once a round, every cycle is told or held in order, and the graph is batched by the number of nodes. |
| DistributedDBNode.PruneGraph | DistributedDBNode.cpp:525-535 | The nested loops compute the pruned graph. |
| DistributedDBNode.MergeWFG | DistributedDBNode.cpp:786-793 | The loops compute the merge; an empty successor list creates no entry. |
| DistributedDBNode.ConvertWFGToMessageFormat | DistributedDBNode.cpp:795-802 | One pair per vertex in some iteration order. |
| DistributedDBNode.DistributedDBNode.CheckAndResolveDeadlocks | DistributedDBNode.cpp:523-569 | Nothing for an empty pruned graph; otherwise it sends what the search of it calls for, which the delivery lemmas spell out. |
| DistributedDBNode.DistributedDBNode.CheckAndResolveDeadlocksForZone | DistributedDBNode.cpp:571-624 | The same for a zone, with the report to the central node when the mode and the leader ask for it. |
| Delivery.CheckSignalsEveryCycle | DistributedDBNode.cpp:537-568 | The messages of a returning check: first one abort signal for each cycle, in order, to the home of the member in the most cycles; then, on the central node, one report with the cycles and their number unless nothing was searched; nothing else. |
| Delivery.ZoneCheckSignalsEveryCycle | DistributedDBNode.cpp:585-623 | The same for a zone; instead of the client, in the hierarchical mode and unless the leader is the central node, the central node is sent the cycles, their number and pairs that merge to the active part of the graph with all multiplicities. |
| Delivery.DeliveryCompletesTheRound | DistributedDBNode.cpp:541-557 | With the signals of a check of the own graph delivered, every reported cycle is gone, every wait cycle has lost somebody of its component, and the state is that after a round. |
| Delivery.ZoneDeliveryCompletesTheRound | DistributedDBNode.cpp:594-608 | The same for the check of a zone. |
| DistributedDBNode.DistributedDBNode.HandleAbortTransactionSignal | DistributedDBNode.cpp:638-652 | Aborts the listed transactions one after another. |
| DistributedDBNode.DistributedDBNode.HandleWFGReport | DistributedDBNode.cpp:435-448 | Only the central node merges and counts; the last expected report triggers a check of the merged graph, which is then dropped. |
| DistributedDBNode.DistributedDBNode.HandleZoneWFGReport | DistributedDBNode.cpp:669-679 | The same for a zone leader. |
| DistributedDBNode.DistributedDBNode.HandleZoneDetectionRequest | DistributedDBNode.cpp:658-667 | Answers with the encoded graph that was collected while other threads ran. |
| DistributedDBNode.DistributedDBNode.HandleCentralWFGReportFromZone | DistributedDBNode.cpp:681-721 | Absorbs a zone report; with the last one of a round it searches the merged graph, tells the client and starts over. |
| DistributedDBNode.DistributedDBNode.HandlePAGRequest | DistributedDBNode.cpp:450-459 | Answers with an empty list, or a lookup throws and nothing is sent. |
| DistributedDBNode.DistributedDBNode.HandlePAGResponse | DistributedDBNode.cpp:461-521 | Collects answers, and with the last expected one sends one zone per key of the graph if an adjustment is due; empty answers give no zone. |
| DistributedDBNode.DistributedDBNode.ResolveRepeat | DistributedDBNode.cpp:741-760 | Throws when a member has no frequency; otherwise sends the abort of the victim to its home, if it is active, and tells the client of that one cycle on the central node. |
| DistributedDBNode.DistributedDBNode.HandlePathPushingProbe | DistributedDBNode.cpp:723-768 | Drops, forwards or throws as specified, for some first holder. |
| DistributedDBNode.DistributedDBNode.InitiatePathPushingProbes | DistributedDBNode.cpp:771-784 | Exactly one probe for every blocked transaction. |
| Probes.BlockersAreExact | DistributedDBNode.cpp:723-740 | The blockers of a path are exactly the holders for whom its last transaction is blocked. |
| Probes.ProbesStayAndNeverResolve | DistributedDBNode.cpp:723-768 | The handler drops a probe, forwards it to its own node or ends in the exception of the lookup; it never resolves anything. |
| Probes.PathsHaveNoRepeats | DistributedDBNode.cpp:740-767 | Forwarded paths have no duplicates. |
| Probes.ForwardingIsFinite | DistributedDBNode.cpp:723-768 | When no transaction begins, a probe is forwarded fewer times than there are active transactions. |
| Probes.RepeatIsDeadlock | DistributedDBNode.cpp:740-741 | The part of the path from the repeated transaction on is a cycle of blocked transactions now, if and only if no member was aborted since the probe started. |
| Probes.AbortFreeRepeatIsDeadlock | DistributedDBNode.cpp:740-741 | In a run without aborts it always is. |

## Left out

- The gRPC server, stubs and sockets in Network.cpp and the proto conversions: calls into foreign code. Delivery is taken as reliable. In the repository a node has no stub to itself (Network.cpp:464-467 and 554-558), so signals and probes that it addresses to itself through the network are lost.
- Threads, sleeps, mutexes and condition variables: every public method is one step, except the reads of the graph builder. That the lock manager updates its tables in the critical section while the transaction record is updated after it, is not modelled.
- `commitTransaction` is reached only through statement execution, as in the repository.
- Integer width: ids, counters and times are unbounded. The comparison of an unsigned size with the signed threshold is modelled.
- `std::sort` of the candidates is modelled by choosing the element that it puts first; `handleDeadlockResolution` is the same as the abort signal and has no method of its own.
- TPC-C data and transactions, random workload generation, latencies, console output, the client and the start scripts.
- The clock and the floating-point ratio that decide on a tree adjustment (DistributedDBNode.cpp:470-508): the decision is a parameter.
- `printLockTableState` and the client request handlers: they only read state or send fixed messages.
- Ids are taken not to be shared between nodes where reports of other nodes are called foreign; the program starts them at 1 on every node. The lemmas about runs are about one node.
- Liveness of waiting transactions and fairness of queues: a queue is never popped by a grant, and a free resource may be taken past its waiters.
- DetectorTheorems.DetectorReturns: the condition is on the graph, and no such condition is exact, because the outcome also depends on the iteration order (Tangle.OutsideEitherMayHappen).
- TransactionManager.TransactionManager.HandleSQLResponse: responses without a pending request, or for another resource than the awaited one, are not covered; nothing in the repository sends them.
- DeadlockDetector.CycleSearch.FindCycles: asks that 0 is not a vertex; ids start at 1, and 0 is the program's own mark for "no parent".
- Reports.BatchesConserveEdges: the expected count is fixed, and no coordinator loop (DistributedDBNode.cpp:353-390) resets the aggregate in between.
- Resolution.RoundsEndWaitCycles: speaks of rounds in which the search returns and no other step happens in between.
- DistributedDBNode.DistributedDBNode.HandleCentralWFGReportFromZone: asks that the merged graph has no vertex 0, because transaction ids start at 1; the pruned graphs that zones send have none.
- DistributedDBNode.DistributedDBNode.CheckAndResolveDeadlocks: the active transactions and the homes of the victims are read in the same state.

# Verified model of the PolarisAGI harness core

This project models the algorithms, protocols and durable state machines at the heart of the harness in Dafny and proves
what they promise. Each component is modelled in the form it has in the Go source: objects whose methods update fields
are classes, SQL tables are maps that the methods reassign, loops are loops with invariants. Behaviour over time, where
goroutines, other processes, crashes or a failing database interfere, is a transition system whose events are the atomic
steps of the source; its theorems hold for every run, and the classes are proved to follow it. Run
`dafny verify dfyconfig.toml` to check everything.

| file | what it models |
|---|---|
| `DagTopology.dfy`, `DagSearch.dfy`, `DagRuns.dfy`, `SagaOrder.dfy`, `DagExecutor.dfy` | the agent kernel's DAG executor: plan validation, waves of concurrent tool calls, saga compensation |
| `Leases.dfy`, `Blackboard.dfy` | the lease protocol of the SQLite blackboard, with any number of reapers |
| `SqlStore.dfy`, `MutationBus.dfy`, `DatabaseWriter.dfy` | the single-writer mutation bus, and the plain sequential store that it refines |
| `OutboxRuns.dfy`, `OutboxRetries.dfy`, `OutboxWorker.dfy` | the outbox worker: cursor, retries with backoff, crashes between any two writes |
| `AuditTrail.dfy` | the hash-chained audit trail, its epochs, and recovery from the database |
| `Rollout.dfy` | progressive rollout of agent versions |
| `Dbscan.dfy` | density clustering of embeddings |
| `UnifiedDiff.dfy`, `Csv.dfy` | the diff and CSV tools |
| `GoStrings.dfy`, `EditScripts.dfy`, `RollingRows.dfy` | UTF-8 decoding, edit distance, and its two rolling-row implementations |
| `Trajectory.dfy`, `Markov.dfy` | streaming variance, and the Laplace-smoothed transition matrix |
| `Basics.dfy` | helpers shared by several of them |

## Where the code and its documentation disagree

The model follows the code. These differences are theorems of the project, each with the exact condition under which the
documented property does hold:

- The validation is documented to limit the depth of a plan to ten. The search measures the way it has come, not the
  longest path: a plan is too deep if and only if a way down of more than ten steps is reached from nothing listed earlier
  (`DepthFirst.WalkExactly`). So a chain of any length passes when it is listed in execution order, and from twelve nodes
  on it fails when listed backwards (`SearchOrder.InOrderNotDeep`, `SearchOrder.BackwardsIsDeep`).
- `Execute` of the DAG executor reports success although nodes have not run: a node that succeeds with a nil output, or
  a dependency that names no node, keeps everything behind it from running (`DagRuns.RanExactly`,
  `DagRuns.EveryNodeRan`, `DagRuns.NilOutputBlocks`, `DagRuns.UnknownDependencyBlocks`).
- The reaper is documented to reclaim expired leases. Its scan compares two text formats of which only the dates decide, so
  it finds a lease exactly from the UTC day after its end on (`Leases.FoundExactly`, `SqlTimes.DatesDecide`,
  `Leases.LapsedButUnseen`).
- The reaper's write-back looks at neither holder, lease nor version. With several reapers it hits the claim whose lease
  was seen expired if and only if nobody else evicted the task in between (`Leases.HitsSeenClaimExactly`,
  `Leases.TwoReapersEvictTheWrongAgent`). With a single one it always does, but the lease is still good if and only if it
  was renewed or resumed after the scan (`Leases.GoodLeaseEvictedExactly`, `Leases.RenewalAfterScanIsIgnored`).
  `StartExecution` is documented to need the claim, yet succeeds for anybody as soon as the row is running
  (`Leases.StartsWithoutClaimExactly`, `Leases.StartWithoutClaim`).
- The comment on `flushBatch` promises to hold back incomplete composite groups. Nothing is held back, and a group is
  committed in part if and only if the flush commits, no member loses its lease at the second check only, some member
  succeeds, and some other one lost its lease at the first check or is stale (`MutationBus.CommittedInPartExactly`,
  `MutationBus.GroupsAreNotAtomic`, and for two batches `MutationBus.OverTwoBatches`, `MutationBus.HalvesPartWays`). A
  version of a key is used twice only with a delete or an unversioned write in between (`SqlStore.SameVersionNeedsReset`,
  `SqlStore.ReusedExactly`).
- The schema promises a hash chain over the whole events table. `AuditTrail` and the import write rows without hash into
  it, so as long as no event is deleted the bus has written one chain if and only if no such row stands between two of
  its own (`MutationBus.RunKeepsOneChainExactly`, `MutationBus.ForeignRowBreaksTheChain`). With deletes it has one chain
  all along if and only if no event is inserted behind such a row or deleted from within the chain
  (`MutationBus.RunAlwaysOneChainExactly`, `MutationBus.DeletedEventBreaksTheChain`).
- `EventWriteBuffer` is documented to lose no critical event. It sends upserts that name the events table, which lacks
  their columns; each of them breaks the whole batch that it reaches the transaction with
  (`MutationBus.LogWriteBreaksTheBatch`).
- The outbox worker is documented to lose nothing and to mark poisoned rows dead. One lost status write loses its row
  for good (`OutboxRuns.OneLostWriteLosesARow`, `OutboxRuns.StuckForever`, `OutboxRuns.PendingExactly`), and a poisoned
  row ends up done, never dead (`OutboxRuns.PoisonedNeverDead`, `OutboxRuns.PoisonedEndsDone`, `OutboxRuns.DeadExactly`).
  The backoff overflows from the fifty-first failure on (`OutboxRetries.WaitsExactly`).
- `AuditTrail.Record` hashes a record before it fills in a missing event id. Such a record fails the verification
  (`AuditTrails.IntactExactly`, `AuditTrails.NamelessRecord`), and among the last hundred rows it keeps the next process
  from starting (`AuditTrails.RecoversExactly`).
- `ConfirmShadow` and `AdvanceGate` read a row and overwrite it later. Calls that overlap can lower the traffic and revive
  a version that was rolled back, exactly by a write whose call had read the row before (`Rollout.FallsExactly`,
  `Rollout.RevivedExactly`); at gate 1 `ConfirmShadow` revives it anyway (`Rollout.GateOneComesBack`). The three days
  before full traffic fall short by less than a second, exactly when the call does not fall on a full second
  (`Rollout.WaitExactly`, `Rollout.ShortWay`).
- `similarity` cuts its arguments at 500 bytes where the comment says characters. On valid UTF-8 without U+FFFD that is
  the same if and only if there is nothing to cut or the bytes that are kept are ASCII (`MigrateMemory.CutKeepsRunesExactly`,
  `MigrateMemory.CutLosesRunes`). Different strings can be at distance 0, exactly when they are not valid UTF-8 or contain
  U+FFFD (`StringDistance.AloneExactly`).
- For an unseen source `TransitionProb` always returns 1/|V|, where the comment says 1/(|V|+1) (`Markov.UnseenSource`).
- The streaming variance is exact as long as no embedding is too short; a short one spoils an exact coordinate that it
  misses exactly when that coordinate's mean is not zero (`Trajectory.TrajectoryStats.AddEmbedding`,
  `Trajectory.ShortEmbeddingSpoils`).

## Model

| member | source | states |
|---|---|---|
| DagTopology.ValidateDAGTopology | pkg/cognition/kernel/dag_executor.go:351-416 | accepts a plan if and only if it has at most fifty nodes, no isolated node, no cycle, and no way down of more than ten steps that nothing listed earlier reaches; so plans without long paths pass, and plans in execution order at any length; acceptance comes with ranks, each refusal with its reason |
| DagTopology.Search.Visit | pkg/cognition/kernel/dag_executor.go:387-405 | the three-colour search takes the walk that `DepthFirst` describes, and restores its stack |
| DagTopology.Search.VisitDeps | pkg/cognition/kernel/dag_executor.go:393-402 | the loop walks the dependencies in their order |
| DagTopology.Search.CheckDep | pkg/cognition/kernel/dag_executor.go:394-401 | a dependency on the stack fails as a cycle, a finished one is passed over, any other one is walked to |
| DagTopology.SearchAll | pkg/cognition/kernel/dag_executor.go:407-413 | walks the nodes in plan order, until one fails |
| DepthFirst.WalkExactly | pkg/cognition/kernel/dag_executor.go:382-413 | the search gets through if and only if there is neither a cycle nor a way down of more than ten steps that nothing listed earlier reaches; otherwise the id it reports lies on a cycle, or at the end of such a way |
| DepthFirst.WalkNodesFails | pkg/cognition/kernel/dag_executor.go:387-413 | a failing search has met a cycle through the id it names, or has come down too deep to it past nothing but finished ids |
| DepthFirst.WalkNodesGoal | pkg/cognition/kernel/dag_executor.go:387-413 | no search gets past a way down that is too deep and that nothing listed earlier reaches |
| DepthFirst.WalkNodesRanks | pkg/cognition/kernel/dag_executor.go:387-413 | whatever the search has finished is ranked above all its dependencies |
| DepthFirst.CycleOnStack | pkg/cognition/kernel/dag_executor.go:394-396 | a dependency that is on the stack lies on a cycle |
| SearchOrder.InOrderNotDeep | pkg/cognition/kernel/dag_executor.go:407-413 | a plan in execution order is never too deep |
| SearchOrder.BackwardsIsDeep | pkg/cognition/kernel/dag_executor.go:387-413 | a chain of twelve or more nodes listed from its end is |
| DagTopology.FindIsolated | pkg/cognition/kernel/dag_executor.go:364-380 | reports the first isolated node, and nothing exactly when no node is isolated |
| DagTopology.CountDegrees | pkg/cognition/kernel/dag_executor.go:365-372 | per id, the number of dependencies it declares and the number of times it is depended upon |
| DagTopology.BuildAdjacency | pkg/cognition/kernel/dag_executor.go:357-362 | the map holds each id's last dependency list |
| Plans.RankedIsAcyclic | pkg/cognition/kernel/dag_executor.go:382-416 | a graph all of whose ids are ranked has no cycle |
| DagExecutors.DAGExecutor.FindReadyNodes | pkg/cognition/kernel/dag_executor.go:214-240 | returns exactly the unmarked nodes all of whose dependencies are marked with an output, each once, in dictionary order of their ids |
| DagExecutors.DAGExecutor.MarkInFlight | pkg/cognition/kernel/dag_executor.go:155-163 | a node is marked in progress before its goroutine starts; the fields follow the transition system |
| DagExecutors.DAGExecutor.Enter | pkg/cognition/kernel/dag_executor.go:165-170 | a goroutine past the semaphore starts its node, or skips it for good once the failed flag is set |
| DagExecutors.DAGExecutor.ReportResult | pkg/cognition/kernel/dag_executor.go:172-178 | what the tool returns is recorded before it has consequences |
| DagExecutors.DAGExecutor.StoreOutcome | pkg/cognition/kernel/dag_executor.go:180-198 | a failure sets the flag; a success stores its output and puts its compensation, with the node's taint, in front of the queue |
| DagExecutors.DAGExecutor.RunWave | pkg/cognition/kernel/dag_executor.go:154-201 | a wave under any interleaving of its goroutines terminates with every goroutine done |
| DagExecutors.DAGExecutor.RunCompensation | pkg/cognition/kernel/dag_executor.go:293-330 | walks down the undo queue until the first turn that finds the deadline passed, and otherwise to its end |
| DagExecutors.DAGExecutor.Execute | pkg/cognition/kernel/dag_executor.go:116-211 | refuses exactly the plans that do not pass, changing nothing; otherwise the call is a complete run of the transition system: the results are what the tools of exactly the nodes started before any failure have returned, the undo queue is the reverse completion order, all of it is called in turn until the deadline unless in replay mode, and success means that every node ran exactly when every dependency names a node and no needed output was nil |
| DagRuns.AlwaysInv | pkg/cognition/kernel/dag_executor.go:134-208 | in every run: at most four nodes at work, marks are produced outputs, results belong to finished or reporting goroutines, the flag is set exactly when a stored result failed |
| DagRuns.StartsAfterDependencies | pkg/cognition/kernel/dag_executor.go:219-236 | a node starts only after all its dependencies have succeeded with an output |
| DagRuns.StartsOnce | pkg/cognition/kernel/dag_executor.go:156-159 | no node starts twice, under every interleaving |
| DagRuns.CalledExactly | pkg/cognition/kernel/dag_executor.go:164-178 | in every run exactly the nodes are called that were started before any failure was acted upon |
| DagRuns.ResultsExactly | pkg/cognition/kernel/dag_executor.go:164-178 | between waves the results are those of exactly these nodes |
| DagRuns.SkippedNeverRuns | pkg/cognition/kernel/dag_executor.go:168-170 | a node that is skipped is skipped because of a failure, and is never started and never has a result |
| DagRuns.ReadyJoinsTheWave | pkg/cognition/kernel/dag_executor.go:147-163 | every node that is ready when a wave opens is through, run or skipped, when it ends |
| DagRuns.WavesBounded | pkg/cognition/kernel/dag_executor.go:135-152 | at most as many waves as nodes, and at most four nodes at work |
| DagRuns.NeverStuck | pkg/cognition/kernel/dag_executor.go:147-201 | a run that has not returned can always take another step: neither semaphore nor wait group deadlocks, and a goroutine gets past the semaphore whenever fewer than four nodes are at work |
| DagRuns.RunsAreShort | pkg/cognition/kernel/dag_executor.go:147-210 | every run ends within seven events a node and one more |
| DagRuns.RecordsWhatSettled | pkg/cognition/kernel/dag_executor.go:176-210 | the results returned are those acted upon, one per node; failures among them exactly when Execute reports one |
| DagRuns.RanExactly | pkg/cognition/kernel/dag_executor.go:224-235 | on success the nodes that ran are exactly those all of whose dependencies ran and returned an output |
| DagRuns.EveryNodeRan | pkg/cognition/kernel/dag_executor.go:147-210 | on an accepted plan with unique ids, success means no failure, no repetition, and every node ran if and only if every dependency names a node and no needed output was nil |
| DagRuns.UnknownDependencyBlocks | pkg/cognition/kernel/dag_executor.go:224-231 | a run of an acceptable plan with a dependency that names no node: Execute succeeds and nothing has run |
| DagRuns.NilOutputBlocks | pkg/cognition/kernel/dag_executor.go:158-236 | a run of an acceptable plan with unique ids and closed dependencies in which Execute succeeds and a node has not run |
| SagaOrder.UndoIsReverseCompletion | pkg/cognition/kernel/dag_executor.go:190-197 | under every interleaving the undo queue is the compensations of the successful nodes, latest first, each with its node's taint |
| SagaOrder.PositionsExact | pkg/cognition/kernel/dag_executor.go:190-197 | the undone results are exactly the successes with a compensation, in completion order |
| SagaOrder.UndoneBeforeItsDependencies | pkg/cognition/kernel/dag_executor.go:190-197 | a node's undo precedes the undo of anything it transitively depends on |
| SagaOrder.TurnsFollowTheQueue | pkg/cognition/kernel/dag_executor.go:298-329 | the turns of the compensation are a prefix of the queue, in order, each once, and the whole queue exactly if the deadline does not pass |
| SagaOrder.EverythingIsUndone | pkg/cognition/kernel/dag_executor.go:298-329 | without deadline and replay mode every compensation of a success has been called, latest first |
| SagaOrder.OnlyUndosAfterUndo | pkg/cognition/kernel/dag_executor.go:201-207 | when an undo starts no node is at work, and afterwards no forward call starts |
| Leases.StepOnRow | pkg/swarm/sqlite_blackboard.go:135-561 | every step leaves a row alone or raises its version by one; done and failed rows never change |
| Leases.VersionsFence | pkg/swarm/sqlite_blackboard.go:135-561 | along a run versions never fall, and equal versions mean the same row |
| Leases.TerminalForever | pkg/swarm/sqlite_blackboard.go:191-243 | a done or failed task stays exactly as it is |
| SqlTimes.DatesDecide | pkg/swarm/sqlite_blackboard.go:484-488 | between a text with a T and one with a space behind the date, the dates alone decide the order |
| Leases.FoundExactly | pkg/swarm/sqlite_blackboard.go:484-488 | the scan finds a task in flight if and only if its lease ended on an earlier UTC day |
| Leases.LapsedButUnseen | pkg/swarm/sqlite_blackboard.go:484-488 | a run with a lease that is over and that the scan does not see |
| Leases.DoneExactly | pkg/swarm/sqlite_blackboard.go:191-214 | in every run a task is done if and only if its holder has completed it while claimed or running |
| Leases.FailedExactly | pkg/swarm/sqlite_blackboard.go:217-357 | in every run a task has failed if and only if its holder failed it, ended its compensation or was refused by a human, or the reaper evicted it for the third time |
| Leases.LeaseEndsAfterLastGrant | pkg/swarm/sqlite_blackboard.go:135-313 | in every run the lease of a claimed or running task ends sixty seconds after its last claim, renewal or approved resumption |
| Leases.PreCheckFences | pkg/swarm/sqlite_blackboard.go:360-399 | two passed checks with one version are by one agent, on a row untouched in between |
| Leases.ClaimAccounting | pkg/swarm/sqlite_blackboard.go:135-543 | with any number of reapers: claims = toxicity + (1 if held), toxicity counts evictions, a pending row is free, at most three claims |
| Leases.OneEvictionBetweenClaims | pkg/swarm/sqlite_blackboard.go:135-543 | between two consecutive claims the task was evicted exactly once, with any number of reapers |
| Leases.ScanAndWriteBackBetweenClaims | pkg/swarm/sqlite_blackboard.go:481-543 | with one sequential reaper the one eviction between two consecutive claims and the scan it belongs to both lie strictly between them |
| Leases.AlwaysSeen | pkg/swarm/sqlite_blackboard.go:484-509 | with any number of reapers, what a reaper has still to write back is what its last scan saw expired |
| Leases.AlwaysWatched | pkg/swarm/sqlite_blackboard.go:481-543 | with one sequential reaper, no task still to be written back has been evicted since the scan |
| Leases.EvictsTheExpiredClaim | pkg/swarm/sqlite_blackboard.go:481-543 | with one sequential reaper the evicted claim is the very one whose lease the last scan saw expired: no claim and no eviction lies in between |
| Leases.HitsSeenClaimExactly | pkg/swarm/sqlite_blackboard.go:484-536 | with any number of reapers, a write-back hits the very claim its own scan saw if and only if no other eviction of the task lies between the two |
| Leases.GoodLeaseEvictedExactly | pkg/swarm/sqlite_blackboard.go:246-313 | with one sequential reaper and a forward clock, the evicted lease is still good if and only if a renewal, or a resumption after approval, took effect since the scan and reaches the write-back |
| Leases.SameToxicitySameHolder | pkg/swarm/sqlite_blackboard.go:481-543 | with any number of reapers, no new eviction means no new holder |
| Leases.TwoReapersEvictTheWrongAgent | pkg/swarm/sqlite_blackboard.go:526-536 | a run in which a second reaper evicts a fresh claim |
| Leases.RenewalAfterScanIsIgnored | pkg/swarm/sqlite_blackboard.go:246-262 | a run with one sequential reaper and a forward clock that evicts the holder of a renewed, good lease |
| Leases.StartsWithoutClaimExactly | pkg/swarm/sqlite_blackboard.go:163-188 | undisturbed, an agent that does not hold the task starts it exactly if somebody is running it |
| Leases.StartWithoutClaim | pkg/swarm/sqlite_blackboard.go:174-181 | a run after which one agent starts the task that another one runs |
| Leases.WriteBackAll | pkg/swarm/sqlite_blackboard.go:526-542 | the single write-back steps of a scan add up to the whole loop |
| Blackboard.SQLiteBlackboard.PostTask | pkg/swarm/sqlite_blackboard.go:80-94 | a new task is pending, unclaimed, version 0; a known one is left alone |
| Blackboard.SQLiteBlackboard.PostBatch | pkg/swarm/sqlite_blackboard.go:97-131 | all new tasks appear and nothing else changes |
| Blackboard.SQLiteBlackboard.ClaimTask | pkg/swarm/sqlite_blackboard.go:135-159 | wins exactly on a pending task, which then is held by the caller for sixty seconds under the next version |
| Blackboard.SQLiteBlackboard.StartExecution | pkg/swarm/sqlite_blackboard.go:163-188 | succeeds for the holder of a claimed task, and otherwise exactly if the row is running by the time of the SELECT, whoever holds it |
| Blackboard.SQLiteBlackboard.Transition | pkg/swarm/sqlite_blackboard.go:191-357 | each of the seven other requests succeeds exactly for the holder in the statuses it starts from, leaves the status and the lease it promises under the next version, and otherwise changes nothing |
| Blackboard.SQLiteBlackboard.SideEffectPreCheck | pkg/swarm/sqlite_blackboard.go:360-399 | passes exactly for the holder of the running task at that version with a live lease; error order as in the source |
| Blackboard.SQLiteBlackboard.ReapScan | pkg/swarm/sqlite_blackboard.go:484-509 | lists exactly the tasks in flight whose lease ended on an earlier UTC day, each once, with its holder |
| Blackboard.SQLiteBlackboard.ReapWriteBack | pkg/swarm/sqlite_blackboard.go:526-542 | evicts the scanned rows that are still in flight one after the other, skipping statements that fail |
| Blackboard.SQLiteBlackboard.StopAll | pkg/swarm/sqlite_blackboard.go:546-561 | suspends every task in flight under a new version and touches no other |
| SqlStore.ExecIsPlain | pkg/substrate/mutation_bus_execute.go:233-294 | an intent that succeeds has exactly its effect on a store that checks nothing |
| SqlStore.VersionsConsecutive | pkg/substrate/mutation_bus_execute.go:233-287 | accepted versioned writes to a key carry consecutive versions, continue the stored one, and leave the last payload |
| SqlStore.SameVersionNeedsReset | pkg/substrate/mutation_bus_execute.go:233-294 | two accepted writes with one version have a delete or an unversioned write of the key between them |
| SqlStore.ReusedExactly | pkg/substrate/mutation_bus_execute.go:233-294 | one reset lets a version through again exactly when it leaves what the second write asks for |
| SqlStore.LastTouchDecides | pkg/substrate/mutation_bus_execute.go:233-294 | a row is what the last accepted insert or upsert of it says, versioned or not, gone if a delete came last, and untouched if nothing names it |
| SqlStore.DecisionsExactly | pkg/substrate/mutation_bus_execute.go:80-114 | the decision log holds exactly the accepted decisions, numbered in order, except the deleted ones, and no number is used twice |
| SqlStore.EventsInOrder | pkg/substrate/mutation_bus_execute.go:22-76 | as long as no event is deleted the table holds every accepted event as it was sent, in order |
| SqlStore.KeysStayUnique | pkg/substrate/mutation_bus_execute.go:44-75 | idempotency keys that are not empty stay unique in every run |
| SqlStore.EventsStayWritten | pkg/substrate/mutation_bus_execute.go:28-76 | as long as no event is deleted the events table only grows, and each row of the bus holds the hash column of the row before it, of any kind, and its own hash |
| SqlStore.LinksExactly | pkg/substrate/mutation_bus_execute.go:28-40 | a row of the bus links to the previous row of the bus if and only if no row without hash stands between them |
| SqlStore.OneChainExactly | pkg/substrate/mutation_bus_execute.go:28-60 | the bus has written one chain if and only if nobody else wrote between its rows |
| MutationBus.RunKeepsOneChainExactly | pkg/substrate/mutation_bus_execute.go:28-60 | the same over every run of flushes and of inserts by other writers in which no delete of an event is acknowledged |
| SqlStore.DeleteKeepsOneChainExactly | pkg/substrate/mutation_bus_execute.go:290-294 | deleting an event keeps the one chain exactly if it is not of the bus, or the last of the bus, or shares its hash with the one before |
| SqlStore.IdsStayUnique | pkg/substrate/mutation_bus_execute.go:44-75 | the ids of the events stay unique in every run |
| SqlStore.AlwaysOneChainExactly | pkg/substrate/mutation_bus_execute.go:28-76 | with inserts and deletes of any kind, the bus has one chain all along exactly if it starts with one and no change inserts behind a foreign row or deletes from within |
| MutationBus.RunAlwaysOneChainExactly | pkg/substrate/mutation_bus_execute.go:117-230 | the same over every run of flushes and of inserts by other writers |
| MutationBus.DeletedEventBreaksTheChain | pkg/substrate/mutation_bus_execute.go:290-294 | a run in which the delete of one event does so |
| MutationBus.LogWriteBreaksTheBatch | pkg/substrate/event_buffer.go:94-113 | an upsert that names the events table acknowledges nothing of its batch and changes nothing |
| MutationBus.ForeignRowBreaksTheChain | pkg/substrate/audit_trail.go:102-105 | a run in which one audit record makes the next event start a new chain |
| DatabaseWriters.DatabaseWriter.InsertForeign | pkg/substrate/audit_trail.go:101-109 | an insert past the bus leaves the hash columns NULL |
| MutationBus.DecidedOnce | pkg/substrate/mutation_bus_execute.go:117-230 | every intent of a batch is decided exactly once, whatever fails |
| MutationBus.AnsweredOnce | pkg/substrate/mutation_bus_execute.go:222-306 | every intent with a result channel is sent exactly one answer, the others none |
| MutationBus.FlushRefines | pkg/substrate/mutation_bus_execute.go:117-230 | a flush leaves the fold of exactly the acknowledged intents, each of which was acceptable in its turn |
| MutationBus.RunRefines | pkg/substrate/mutation_bus_execute.go:117-230 | the same over any run of batches with any lease losses, rollbacks, cancellations and commit failures, and foreign rows between them |
| MutationBus.RunLosesNoUpdate | pkg/substrate/mutation_bus_execute.go:233-281 | over any run, a key written only with versions loses no update |
| MutationBus.RunKeepsLastWrite | pkg/substrate/mutation_bus_execute.go:233-294 | in every run, with any failures, a row is what the last acknowledged insert or upsert of it says, gone if an acknowledged delete came last, and as at the start if nothing acknowledged names it |
| MutationBus.RunKeepsDecisions | pkg/substrate/mutation_bus_execute.go:80-114 | in every run the decision log holds exactly the acknowledged decisions, in order, except the deleted ones |
| MutationBus.RunKeepsEvents | pkg/substrate/mutation_bus_execute.go:22-76 | in every run without acknowledged deletes of events the table holds every acknowledged event as it was sent, and the foreign rows, in order |
| MutationBus.RunKeepsEventsUnique | pkg/substrate/mutation_bus_execute.go:44-75 | in every run ids and non-empty idempotency keys stay unique |
| MutationBus.AcknowledgedExactly | pkg/substrate/mutation_bus_execute.go:139-227 | an intent is acknowledged if and only if the flush commits, its lease held, its group is not turned away and its statement succeeds in its turn |
| MutationBus.FencedOut | pkg/substrate/mutation_bus_execute.go:127-178 | in a flush that commits, an intent whose statement succeeds is refused if and only if its first lease check fails, or a member of its group passes the first and fails the second one |
| MutationBus.OneIntentExactly | pkg/substrate/mutation_bus_execute.go:22-294 | with database and leases well, which intents are acknowledged, read off the tables alone |
| MutationBus.UnconditionalAcked | pkg/substrate/mutation_bus_execute.go:80-294 | deletes, decisions and writes without version are then never refused |
| MutationBus.CommittedInPartExactly | pkg/substrate/mutation_bus_execute.go:127-206 | a group is committed in part if and only if the flush commits, no member kills it, some member succeeds, and some other one lost its lease at the first check or is stale |
| MutationBus.AnswersExactly | pkg/substrate/mutation_bus_execute.go:139-227 | a flush commits some member of a group exactly if it commits, nobody kills the group and some member succeeds; it refuses some exactly if it does not commit, the group is killed or some member drops out |
| MutationBus.OverTwoBatches | pkg/substrate/mutation_bus_execute.go:125-137 | a group over two batches is committed in part if and only if one flush commits a member and one refuses a member, in these terms |
| MutationBus.HalvesPartWays | pkg/substrate/mutation_bus_execute.go:216-220 | one flush commits its half of a group, the next one is rolled back with the other half |
| MutationBus.KilledGroupIsRefused | pkg/substrate/mutation_bus_execute.go:152-178 | a member that loses its lease at the second check takes its whole group down |
| MutationBus.GroupsAreNotAtomic | pkg/substrate/mutation_bus_execute.go:127-150 | a flush that commits one half of a group and refuses the other |
| DatabaseWriters.ExecuteInsert | pkg/substrate/mutation_bus_execute.go:233-248 | refines the specification of an insert, stale versions included |
| DatabaseWriters.ExecuteUpsert | pkg/substrate/mutation_bus_execute.go:251-287 | update, insert and second update amount to one conditional write |
| DatabaseWriters.ExecuteInsertEvent | pkg/substrate/mutation_bus_execute.go:22-76 | takes over the hash column of the last row of any kind, NULL included; refuses duplicate ids and keys |
| DatabaseWriters.ExecuteDelete | pkg/substrate/mutation_bus_execute.go:290-294 | deletes by id from whatever table the intent names, checking no version |
| DatabaseWriters.DatabaseWriter.CheckLeases | pkg/substrate/mutation_bus_execute.go:127-157 | answers and drops exactly the intents without lease, and finds the groups that go down |
| DatabaseWriters.DatabaseWriter.RunStatements | pkg/substrate/mutation_bus_execute.go:171-206 | executes the others in order; a stale one is skipped, any other error breaks the transaction |
| DatabaseWriters.DatabaseWriter.Commit | pkg/substrate/mutation_bus_execute.go:163-220 | commits all of it or nothing, and answers accordingly |
| DatabaseWriters.DatabaseWriter.FlushBatch | pkg/substrate/mutation_bus_execute.go:117-230 | empties the batch, moves the tables as specified, and sends the answers that have a channel |
| OutboxRuns.AlwaysSafe | pkg/substrate/outbox_worker.go:139-223 | in every run with crashes anywhere: cursors are row ids, rows behind the cursor are covered, the batch in hand skips none |
| OutboxRuns.NothingIsLost | pkg/substrate/outbox_worker.go:139-223 | each row up to the saved cursor has been through Process, and is pending exactly if no status write of it reached the database |
| OutboxRuns.PendingExactly | pkg/substrate/outbox_worker.go:182-207 | in every run a row is pending exactly as long as no status write of it has reached the database |
| OutboxRuns.LastMarkDecides | pkg/substrate/outbox_worker.go:182-207 | in every run the last status write decides what has become of a row: done, dead at the limit, or failed with one attempt more and its backoff |
| OutboxRuns.FetchedIsHandled | pkg/substrate/outbox_worker.go:164-179 | without a crash every fetched row goes through Process before its batch ends |
| OutboxRuns.OpenIsHandled | pkg/substrate/outbox_worker.go:73-91 | an open and due row ahead of the cursor is handled in the next batch, unless fifty such rows come before it |
| OutboxRuns.FailedIsRetried | pkg/substrate/outbox_worker.go:92-107 | a failed and due row behind the cursor is handled in the next batch whose second query works, unless twelve such rows come before it |
| OutboxRuns.PoisonedNeverDead | pkg/substrate/outbox_worker.go:228-242 | in every run a poisoned row is pending or done, and its handler never runs |
| OutboxRuns.PoisonedEndsDone | pkg/substrate/outbox_worker.go:182-236 | a run in which a poisoned row ends up done |
| OutboxRuns.DeadExactly | pkg/substrate/outbox_worker.go:193-198 | a row becomes dead exactly when its handler fails, the attempts reach the limit and the write gets through |
| OutboxRuns.StuckForever | pkg/substrate/outbox_worker.go:73-107 | a pending row behind the cursor stays so for ever and its handler never runs again |
| OutboxRuns.OneLostWriteLosesARow | pkg/substrate/outbox_worker.go:182-207 | a run in which one failed status write, the only one of its row, does that after the handler failed |
| OutboxRetries.RetriesAreBounded | pkg/substrate/outbox_worker.go:182-207 | in calm runs a handler runs at most maxRetries times per row, the last at least 5000*(2^maxRetries-2) ms after the first for maxRetries up to 51 |
| OutboxRetries.BackoffFits | pkg/substrate/outbox_worker.go:200-202 | the 64-bit backoff is 2^attempts * 5 s exactly up to 50 attempts |
| OutboxRetries.WaitsExactly | pkg/substrate/outbox_worker.go:193-206 | every failure waits for its backoff if and only if maxRetries is at most 51; beyond, the row is due at once |
| OutboxWorkers.OutboxWorker.QueryMain | pkg/substrate/outbox_worker.go:72-89 | the first fifty open and due rows behind the cursor, in id order |
| OutboxWorkers.OutboxWorker.QuerySupplement | pkg/substrate/outbox_worker.go:92-107 | the first twelve failed and due rows up to the cursor, in id order |
| OutboxWorkers.OutboxWorker.FetchBatch | pkg/substrate/outbox_worker.go:66-110 | the first query, and behind the start the second one unless it fails, which then contributes nothing |
| OutboxWorkers.OutboxWorker.Process | pkg/substrate/outbox_worker.go:228-242 | calls the handler exactly outside replay mode, for a row that is not poisoned and whose engine is known; everything else counts as handled |
| OutboxWorkers.OutboxWorker.ProcessAndMark | pkg/substrate/outbox_worker.go:182-207 | takes the steps for the head of the batch and no other |
| OutboxWorkers.OutboxWorker.ProcessBatch | pkg/substrate/outbox_worker.go:165-179 | processes the whole batch and returns the highest id |
| OutboxWorkers.OutboxWorker.LoadCursor | pkg/substrate/outbox_worker.go:210-216 | a start resumes at the saved cursor |
| OutboxWorkers.OutboxWorker.SaveCursor | pkg/substrate/outbox_worker.go:219-223 | the cursor is saved, or the write is lost |
| OutboxWorkers.OutboxWorker.Tick | pkg/substrate/outbox_worker.go:149-160 | one batch, whose end is saved if it lies beyond the cursor; every event is what the surroundings make of it |
| OutboxWorkers.OutboxWorker.Poll | pkg/substrate/outbox_worker.go:139-162 | any number of ticks follows the transition system, so nothing up to the cursor is lost |
| AuditChain.SameEndSameChain | pkg/substrate/audit_trail.go:118-135 | two verified chains of one length and one final hash are identical, or show a hash collision |
| AuditChain.TamperingIsSeen | pkg/substrate/audit_trail.go:118-135 | changing records without changing length and final hash breaks the verification, collisions aside |
| AuditTrails.Hashed | pkg/substrate/audit_trail.go:270-276 | a record's own hash takes no part in its computation |
| AuditTrails.GeneratedIdsExactly | pkg/substrate/audit_trail.go:88-91 | two records without id get the same id if and only if they carry the same time |
| AuditTrails.AuditTrail.Record | pkg/substrate/audit_trail.go:73-114 | appends the linked and hashed record to memory and table, or on a failed INSERT changes nothing |
| AuditTrails.AuditTrail.VerifyIntegrity | pkg/substrate/audit_trail.go:118-135 | succeeds exactly on an intact chain, and otherwise returns the first broken position |
| AuditTrails.AuditTrail.RotateIfNeeded | pkg/substrate/audit_trail.go:139-211 | closes and opens an epoch on the same chain; every epoch_start so far points back at the epoch_end before it |
| AuditTrails.AuditTrail.RecoverOnStartup | pkg/substrate/audit_trail.go:214-264 | succeeds exactly if the last hundred rows verify; a fresh trail then goes on from the last of them, ready for records and rotations |
| AuditTrails.RestartAndRecord | pkg/substrate/audit_trail.go:73-264 | a start and any number of records after it: the old rows stay in front, the table is one chain if it was one, and the verification fails only for new records without id |
| AuditTrails.ChainGoesOn | pkg/substrate/audit_trail.go:77-112 | what a trail appends to a table that is one chain leaves it one chain |
| AuditTrails.RecoversExactly | pkg/substrate/audit_trail.go:223-262 | the next start succeeds exactly when none of the last hundred records got its id from Record, collisions aside |
| AuditTrails.NamelessRecord | pkg/substrate/audit_trail.go:82-93 | a record without id that fails the verification, or shows a collision |
| AuditTrails.IntactExactly | pkg/substrate/audit_trail.go:78-94 | after any mix of records and rotations the verification holds exactly when no record in memory got its id from Record, collisions aside |
| AuditTrails.RecoverableTable | pkg/substrate/audit_trail.go:223-262 | a trail of records that came with ids leaves a table from which recovery continues |
| Rollout.PercentFollowsGate | pkg/swarm/rollout_store.go:64-207 | in every run, with overlapping calls, percent = canarySteps[gate-1] and gates are 1 to 5 |
| Rollout.CommittedExactly | pkg/swarm/rollout_store.go:147-159 | in every run a version is committed if and only if it has all the traffic and is not rolled back |
| Rollout.RolledBackExactly | pkg/swarm/rollout_store.go:81-177 | in every run a version is rolled back if and only if a rollback, a score below 0.95 of the baseline or a hard stop has put it out and no ConfirmShadow or AdvanceGate has written since |
| Rollout.HardStopRollsBack | pkg/swarm/rollout_store.go:123-135 | an AdvanceGate that finds bad metrics puts the version out when it writes, whatever has happened in between |
| Rollout.AlwaysOk | pkg/swarm/rollout_store.go:64-207 | in every run each gate above 2 has cost a day since the earliest ConfirmShadow, and calls between SELECT and UPDATE hold rows that allow what they will write |
| Rollout.FullTrafficTakesThreeDays | pkg/swarm/rollout_store.go:123-165 | in every run 100 % is reached by AdvanceGate no earlier than 72 h after the second of the earliest ConfirmShadow |
| Rollout.WaitExactly | pkg/swarm/rollout_store.go:108-145 | counted from the call itself the 72 h hold if and only if the call falls on a full second; the shortfall is under a second |
| Rollout.ShortWay | pkg/swarm/rollout_store.go:108-155 | for every other opening a run that falls short |
| Rollout.DropsExactly | pkg/swarm/rollout_store.go:147-159 | a step lowers gate and percentage if and only if it is a write by a call that read the row at least two gates lower |
| Rollout.FallsExactly | pkg/swarm/rollout_store.go:100-165 | along a run a gate ever falls if and only if such a late write happens |
| Rollout.HeldWasRead | pkg/swarm/rollout_store.go:100-165 | a call between SELECT and UPDATE holds the row as it stood at its SELECT |
| Rollout.RevivedExactly | pkg/swarm/rollout_store.go:100-177 | a version rolled back at gate 2 or above comes back if and only if a ConfirmShadow or AdvanceGate that decided before writes after |
| Rollout.GateOneComesBack | pkg/swarm/rollout_store.go:100-115 | at gate 1 the next ConfirmShadow undoes any rollback |
| Rollout.OneByOneNeverFalls | pkg/swarm/rollout_store.go:123-165 | when calls do not overlap, gate and percentage never fall |
| Rollout.OneByOneStaysOut | pkg/swarm/rollout_store.go:128-130 | when calls do not overlap, a rollback is final from gate 2 on |
| Rollout.OverlapRevives | pkg/swarm/rollout_store.go:123-177 | a run in which an AdvanceGate that read before a rollback undoes it |
| Rollout.OverlapLowersTraffic | pkg/swarm/rollout_store.go:123-165 | a run in which a late AdvanceGate takes a version from 50 % back to 25 % |
| Rollout.SQLiteRolloutStore.SubmitCandidate | pkg/swarm/rollout_store.go:64-77 | a new version starts pending at gate 1 with 1 %; a known one is left alone |
| Rollout.SQLiteRolloutStore.RecordEvalScore | pkg/swarm/rollout_store.go:81-96 | a score below 0.95 of the baseline rolls back, another one activates a pending version, and nothing else changes |
| Rollout.SQLiteRolloutStore.SelectForConfirm | pkg/swarm/rollout_store.go:100-107 | goes on to the UPDATE exactly at gate 1; unknown versions are reported |
| Rollout.SQLiteRolloutStore.SelectForAdvance | pkg/swarm/rollout_store.go:123-152 | decides from the row it reads: nothing, a rollback, or the next step after a day |
| Rollout.SQLiteRolloutStore.Update | pkg/swarm/rollout_store.go:108-114 | overwrites the row as it is by then with what was decided |
| Rollout.SQLiteRolloutStore.ConfirmShadow | pkg/swarm/rollout_store.go:100-115 | both halves, with anything in between |
| Rollout.SQLiteRolloutStore.AdvanceGate | pkg/swarm/rollout_store.go:123-165 | both halves, with anything in between; bad metrics leave an open version rolled back |
| Rollout.SQLiteRolloutStore.NextStep | pkg/swarm/rollout_store.go:200-207 | the least canary step above the percentage, or 100 |
| Dbscan.Cluster | pkg/swarm/graph_cluster.go:239-281 | noise is exactly what is neither core nor next to a core point, core points share a label exactly when a chain of core points joins them, border points take the least label around them, labels are 0..k-1 in order of first core points |
| Dbscan.GrowCluster | pkg/swarm/graph_cluster.go:256-273 | the seed list terminates and labels exactly what its first core point reaches |
| Dbscan.RegionQuery | pkg/swarm/graph_cluster.go:284-295 | the neighbours of a point, in order |
| Dbscan.SweepUnvisited | pkg/swarm/graph_cluster.go:275-279 | turns unvisited points into noise and nothing else |
| Density.ClusteringUnique | pkg/swarm/graph_cluster.go:239-281 | the conditions that Cluster meets admit one labelling only |
| Density.CoreExactly | pkg/swarm/graph_cluster.go:250-252 | a point is a core point if and only if at least minPts other points have a similarity of at least 1 - eps to it |
| Cosine.CosineSpaceSymmetric | pkg/swarm/graph_cluster.go:7-22 | the neighbour relation the clustering works with is symmetric |
| Cosine.SimilarityIsCosine | pkg/swarm/graph_cluster.go:7-22 | the square and the sign of the similarity are those of the cosine |
| UnifiedDiff.ComputeUnifiedDiff | pkg/action/tool/builtin_tools.go:440-519 | the script turns the old lines into the new ones, none has fewer edits, no common subsequence is longer than what it keeps, among the equally good ones it is the one that outranks all others read from the end (keep before add before remove), so that replaced lines are removed before they are added, and the output is exactly the ops within three positions of a change, once each and in order |
| UnifiedDiff.FillTable | pkg/action/tool/builtin_tools.go:442-457 | each cell is the length of a longest common subsequence of its prefixes |
| UnifiedDiff.Backtrack | pkg/action/tool/builtin_tools.go:459-479 | walks back along the script that keeps a longest common subsequence and outranks all others that do |
| UnifiedDiff.EditScript | pkg/action/tool/builtin_tools.go:442-483 | the same script, the right way round |
| UnifiedDiff.ChosenUnique | pkg/action/tool/builtin_tools.go:459-479 | there is only one script that outranks all others |
| UnifiedDiff.ChosenRemovesFirst | pkg/action/tool/builtin_tools.go:471-478 | in it no added line is directly followed by a removed one |
| UnifiedDiff.PrintedReads | pkg/action/tool/builtin_tools.go:485-518 | read back by its first characters, the output is the header and exactly the ops near a change |
| UnifiedDiff.PrintedIsPatch | pkg/action/tool/builtin_tools.go:485-518 | if every line is near a change, old and new lines can be read off the output |
| UnifiedDiff.LongestIsBest | pkg/action/tool/builtin_tools.go:439-483 | a script that keeps as many lines as the table says is beaten by no other script and no common subsequence |
| UnifiedDiff.PrintWindow | pkg/action/tool/builtin_tools.go:485-518 | prints the ops near a change and no others |
| UnifiedDiff.PrintHunk | pkg/action/tool/builtin_tools.go:501-516 | a window prints what earlier windows have not |
| DiffScripts.FewestEdits | pkg/action/tool/builtin_tools.go:439-457 | a script that keeps a longest common subsequence has the fewest edits |
| DiffScripts.KeptAtMostLcs | pkg/action/tool/builtin_tools.go:447-457 | no script keeps more |
| DiffScripts.CommonAtMostLcs | pkg/action/tool/builtin_tools.go:447-457 | the table's recurrence bounds every common subsequence |
| DiffScripts.ScriptOfCommon | pkg/action/tool/builtin_tools.go:447-479 | every common subsequence is kept by some script |
| Csv.RoundTrip | pkg/action/tool/builtin_tools.go:387-413 | fields written by section 2 of RFC 4180, quoted always or only where needed, are read back unchanged |
| Csv.BareExactly | pkg/action/tool/builtin_tools.go:393-409 | an unquoted text is read back as itself exactly when it holds neither quote nor comma |
| Csv.SplitByCounting | pkg/action/tool/builtin_tools.go:387-413 | on every line, well-formed or not: fields end at the commas behind an even number of quotes, and a quote is text exactly if it opens right behind one that closes |
| Csv.SplitCSVLine | pkg/action/tool/builtin_tools.go:387-413 | the loop refines the scanner |
| MigrateMemory.LevenshteinDistance | cmd/polaris/migrate_openclaw_memory.go:461-487 | the two rolling rows compute the edit distance of the runes |
| GraphEntity.EditDistance | pkg/swarm/graph_entity.go:157-183 | the same distance, hence equal to the other implementation |
| EditScripts.NoShorterScript | pkg/swarm/graph_entity.go:171-182 | no sequence of insertions, deletions and substitutions is shorter than the distance |
| EditScripts.OptimalScript | pkg/swarm/graph_entity.go:171-182 | and one is as short |
| EditScripts.DistZero | cmd/polaris/migrate_openclaw_memory.go:478-482 | the distance is zero exactly for equal rune strings |
| EditScripts.DistSymmetric | cmd/polaris/migrate_openclaw_memory.go:461-487 | the distance is symmetric |
| EditScripts.DistTriangle | cmd/polaris/migrate_openclaw_memory.go:461-487 | the distance obeys the triangle inequality |
| EditScripts.DistBounds | cmd/polaris/migrate_openclaw_memory.go:464-469 | the distance lies between the difference of the lengths and the longer length |
| MigrateMemory.Similarity | cmd/polaris/migrate_openclaw_memory.go:438-459 | lies in [0,1], is 1 exactly for equal runes, and is one minus the distance over the longer byte length, of what the cut at 500 bytes leaves |
| MigrateMemory.CutKeepsRunesExactly | cmd/polaris/migrate_openclaw_memory.go:442-449 | on valid UTF-8 without U+FFFD the cut keeps the first 500 runes if and only if there is nothing to cut or the kept bytes are ASCII |
| MigrateMemory.CutLosesRunes | cmd/polaris/migrate_openclaw_memory.go:442-449 | of 300 accented letters 250 are compared |
| MigrateMemory.Min3 | cmd/polaris/migrate_openclaw_memory.go:489-500 | the least of the three |
| GraphEntity.MinInt | pkg/swarm/graph_entity.go:185-190 | the lesser of the two |
| GoStrings.RunesOfEncode | pkg/swarm/graph_entity.go:158 | decoding gives back the runes of valid UTF-8 |
| GoStrings.EncodeRunes | pkg/swarm/graph_entity.go:158 | a string whose runes include no replacement rune is the encoding of its runes |
| GoStrings.DecodeExactly | pkg/swarm/graph_entity.go:158 | decoding takes the valid encoding at the front of a string if there is one, and one byte for U+FFFD otherwise |
| StringDistance.ZeroOnValidStrings | pkg/swarm/graph_entity.go:157-183 | on valid UTF-8 the distance is zero exactly for equal strings |
| StringDistance.AloneExactly | pkg/swarm/graph_entity.go:157-183 | everything at distance zero from a string equals it if and only if it is valid UTF-8 without U+FFFD |
| StringDistance.BrokenBytesCollide | pkg/swarm/graph_entity.go:157-183 | two invalid strings, and an invalid and a valid one, at distance zero |
| Trajectory.TrajectoryStats.AddEmbedding | pkg/swarm/logic_collapse_trigger.go:55-87 | the first embedding makes every coordinate exact (batch mean and sum of squared deviations over all inputs); later ones keep a coordinate they have as exact as it was, and one they lack exact if and only if its mean is zero |
| Trajectory.TrajectoryStats.UpdateCoordinates | pkg/swarm/logic_collapse_trigger.go:70-80 | one streaming step on every coordinate the embedding has, the others unchanged, m2 never negative |
| Trajectory.TrajectoryStats.SlideWindow | pkg/swarm/logic_collapse_trigger.go:82-86 | the window holds the last fifty embeddings |
| Trajectory.WindowIsLatest | pkg/swarm/logic_collapse_trigger.go:82-86 | the window is the latest inputs, all of them up to fifty |
| Trajectory.TrajectoryStats.MeanVariance | pkg/swarm/logic_collapse_trigger.go:91-104 | never negative; while all coordinates are exact the average sample variance per coordinate, and then zero exactly for fewer than two inputs or constant ones |
| BatchStatistics.WelfordStep | pkg/swarm/logic_collapse_trigger.go:76-79 | after one streaming step a coordinate agrees with the batch definition exactly if it did before |
| BatchStatistics.DeviationZero | pkg/swarm/logic_collapse_trigger.go:79-100 | m2 is never negative, and zero exactly for constant inputs |
| Trajectory.MissedCoordinate | pkg/swarm/logic_collapse_trigger.go:71-75 | a coordinate the embedding lacks stays exact if and only if its mean is zero |
| Trajectory.ShortEmbeddingSpoils | pkg/swarm/logic_collapse_trigger.go:71-75 | two embeddings after which a coordinate is not exact |
| Markov.ProbabilitiesSumToOne | pkg/swarm/surprise_markov.go:57-68 | for every source the smoothed probabilities over the vocabulary sum to 1 |
| Markov.ProbExactly | pkg/swarm/surprise_markov.go:57-68 | the probability is one more than the count of the step over the departures of its source plus the size of the vocabulary, and one half without data |
| Markov.UnseenSource | pkg/swarm/surprise_markov.go:57-68 | an unseen source spreads evenly over the vocabulary |
| Markov.SameAfterAnyOrder | pkg/swarm/surprise_markov.go:36-53 | the matrix does not depend on the order of updates |
| Transitions.RowSumIsTotal | pkg/swarm/surprise_markov.go:45-52 | a source's total is the sum of its row |
| Transitions.PairsAre | pkg/swarm/surprise_markov.go:45-47 | the pairs counted are the neighbours in the sequence |
| Transitions.OrderIrrelevant | pkg/swarm/surprise_markov.go:36-53 | permuted histories count every transition equally often |
| Markov.MarkovMatrix.Update | pkg/swarm/surprise_markov.go:36-53 | the maps count exactly the adjacent pairs of all sequences so far |
| Markov.MarkovMatrix.TotalTransitions | pkg/swarm/surprise_markov.go:116-124 | the number of adjacent pairs seen |

## Left out

- DagExecutors.DAGExecutor.FindReadyNodes: the order in which the goroutines of a wave are launched; the model launches them in any order, so what is proved holds for the sorted one too.
- DagExecutors.DAGExecutor.ReportResult: what happens inside `executeNode` (retries, backoff, timeouts, the surprise index, replay); each node has any one result. Which error becomes `firstErr` is not modelled either.
- DagExecutors.DAGExecutor.RunCompensation: the clock behind the 30 s deadline, which may pass before any turn, and the outcome of the compensating calls; a failed one does not stop the others.
- DagTopology.ValidateDAGTopology: `plan.Edges`, which the source never reads.
- Blackboard.SQLiteBlackboard.StartExecution: between its UPDATE and its SELECT the table may become anything, which is more than the other methods can do to it.
- Blackboard.SQLiteBlackboard.PostTask: priority, session, timestamps, suspend reasons, subscribers and cancel functions, which no transition reads; `Reaper.Phase2`, which deletes old tasks; the texts in which times are stored (instants are integers).
- DatabaseWriters.DatabaseWriter.FlushBatch: the error that `flushBatch` returns to its ticker, the ticker itself, result channels that are full, and writers other than the bus on the versioned tables.
- DatabaseWriters.ExecuteInsertEvent: a failing read of the last hash, which the source ignores and which would start a new chain; in the model a database fault fails the intent.
- SqlStore.EventsStayWritten: the in-place UPDATE of topic, salience and layer by the staging promotion (cmd/polaris/process_staging.go:245), which concerns rows of the import only, and neither their order nor any hash.
- OutboxRetries.RetriesAreBounded: runs with crashes or lost writes, in which a handler may run more often (the source promises no more than at-least-once there), and clocks beyond 3.5 * 10^18 ms.
- AuditTrails.AuditTrail.Record: records are values, so a caller that changes a record after handing it over is not modelled; SHA-256 is any function, JSON serialization is the record itself.
- AuditTrails.AuditTrail.RecoverOnStartup: the failing query and undecodable rows, which the source skips. `epochID` is not restored, so epoch links are claimed from each start on; the archive directory is only its sealed-system test.
- Rollout.SQLiteRolloutStore.AdvanceGate: between SELECT and UPDATE the table may become anything (the transition system restricts it to other calls); database errors, the metadata columns, and a clock that runs backwards within a call.
- Dbscan.Cluster: float rounding; similarities are reals and the square root is any function that is positive on positive numbers.
- Trajectory.TrajectoryStats.MeanVariance: the square root behind it, float rounding, and the collapse trigger.
- Markov.MarkovMatrix.Update: counts are natural numbers instead of floats; `Surprise`, which takes logarithms.
- Csv.SplitCSVLine: the splitting of a file into lines by its caller.
- UnifiedDiff.ComputeUnifiedDiff: the `has_diff` flag of the tool around it.
- The in-memory blackboard, the orchestrator and the workers, k-means, circuit breaker, kill switch, scorers, routers, budget modes and configuration: easier machines, or heuristics without an exact promise.
- Providers, prompts, sandboxes, network, CLI, web and generated protobuf code: no logic of their own to prove.

# Chord task system: a verified model

This project models the distributed core of a Chord-based task platform and proves what it is for: the
ring protocol finds owners and repairs itself, the replicated task store behaves like one dictionary, the
scheduler's two tables agree and its retries are bounded, and the local job worker and the placement
scorer keep their limits.

Run `dafny verify dfyconfig.toml` to check everything.

## What is modelled

**The ring** (`RingMath`, `ChordNode`, `Lookup`, `Protocol`, `Convergence`, `Stabilization`,
`Interleaving`, `LookupRuns`). The circle has
2^M points for any M > 0. `ChordNode` is the node object with its critical sections; `Protocol` is the
join-only system as interleaved steps. `stabilize` is split where the code releases its lock or makes a
call, and a message, once sent, may be delivered late, repeatedly or never. The main results are:
lookups are correct from any fingers and end from any pointers; a lookup takes at most M delegations
when the fingers are right; every run of joins, stabilizations, notifications and finger repairs keeps
every pointer on a member and every successor between its node and the bootstrap node, so there is one
cycle and everybody reaches it; every pointer change lowers a measure; a ring that no stabilize can
change is exactly the ideal ring; lookups that run hop by hop among all other steps name the owner once
successors are correct, so joins take the next member and repairs make fingers correct; and after any joins the overlapping calls of all nodes reach the ideal
ring within a bounded number of rounds, which no later step but a join disturbs.

**The store** (`Network`, `Replication`, `Chains`, `Schema`, `TaskStore`, `WriteQuorum`). Each call over the network is
answered or not as an arbitrary oracle decides. Operations of `TaskService` are methods on the node
stores. On an ideal, answering ring any sequence of operations from any entry nodes gives the answers of
one dictionary. `Handoff` and `Leave` treat records when nodes join and leave.

**The scheduler** (`Recovery`, `Scheduler`, `Rebalance`, `LockedQueue`, `Placement`). HT1 is a map of
result records, HT2 a map from workers to queues. `Recovery.Tables` holds both and has the handlers and
recovery attempts as methods; `Scheduler` interleaves them with worker processes; `LockedQueue` goes
below the level of a queue update and interleaves its lock, read, write and release.

**The ring walk and the job worker** (`RingWalk`, `JobWorker`).

## Where the code does less than it promises

- A node asked for its own id can answer wrongly, even with all fingers correct. It does so exactly when
  its successor is another node and its last finger is itself (`LookupCorrect`, `OwnIdLookupCanFail`).
- `COMPLETE` does not always mean a quorum of copies: a primary write that is retried may land on a
  replica that is written anyway. It does mean one if the writing node is the primary, or every new
  lookup of the key names the primary again, or k is at most 2 (`WriteTask`); without these, for every
  k >= 3, a registration can be COMPLETE with fewer copies (`MissedQuorum`).
- Stabilization needs the nodes to take turns: any number of calls of each node, made in the wrong order,
  can leave a wrong successor (`CountingCallsIsNotEnough`). Rounds in which everybody completes a call
  are enough (`InterleavedConvergence`).
- An answer to a finger repair that was found before successors were correct, and is wrong, can undo the
  repairs made since (`WrongAnswerSpoils`); without such answers one repair of each finger is enough
  (`FingersConverge`).
- A graceful leave writes the leaver's whole store into its successor, so a stale copy can replace the
  current record (`LeaveKeepsOwnerValue` has the exact condition, `StaleCopyReplaces` an instance).
- Nothing ever sets `timed_out` on a result record: the worker reports it inside `result`, and the server
  stores it there. `createTask` does not set `retry_on_failure` either. So over the whole life of a record
  the detector for timed-out tasks never fires (`NeverTimedOut`), and a reported failure is final unless
  the record was waiting for a retry after a crash (`ReportedFailureIsFinal`, `FailureRetriedIff`).
- A worker process remembers the ids it has claimed, so it never runs a task that comes back to it. A
  retry is lost in this way exactly if the process of the worker it goes to has claimed the task before,
  whoever else is live (`RetryIsRunIff`; `RetryCanBeLost` is a run with two live workers). A claim counts
  even if the record could not be fetched, when it is made at start-up.
- A retry whose store calls fail half way leaves HT1 and HT2 in disagreement, unless all three failed
  (`RetryAgreesIff`).
- A rollback of `createTask` that fails leaves an HT1 record without a queue entry. When its
  idempotency read fails, an existing task is overwritten, or deleted by the rollback (`CreateTask`).
- Rebalancing a record whose worker is not live leaves its old queue entry behind (`AgreesAfterPass` has
  the exact condition, `OrphanIsQueuedTwice` an instance).
- Timed-out jobs do not follow the retry budget of the job worker, as the documentation says they do. The
  budget holds, with any timeouts, as long as no run that slept takes back a retry that was counted
  meanwhile (`BudgetHoldsIfRequeuesRaise`); such a write is exactly what overdraws it (`CreditFallsIff`),
  and then a job can run more than `MAX_JOB_RETRIES + 1` times (`TimeoutExceedsBudget`). A late run can
  also change a finished job (`FinalIffNoLeftover` has the exact condition, `TimeoutLeavesRun` an
  instance).

## Model

| member | source | states |
|---|---|---|
| RingMath.InRangeIsSpan | chord/node.py:27-37 | in_range compares clockwise distances, and means the whole circle when both ends are equal |
| RingMath.NextOwnsArc | chord/node.py:150-156 | if no member lies between a node and its successor, the successor owns every key of that arc |
| ChordNodes.ClosestPicksHighest | chord/node.py:161-170 | the walk returns the highest finger strictly before the key, or the node itself if there is none |
| ChordNodes.LookupStepMeaning | chord/node.py:145-170 | a local lookup names the successor or a finger strictly nearer to the key; when it names the successor without the key lying before it |
| ChordNodes.ChordNode.ClosestPrecedingNode | chord/node.py:161-170 | the loop over the fingers, from the last to the first, computes the specified finger |
| ChordNodes.ChordNode.FindSuccessor | chord/node.py:145-160 | the local part of a lookup, as used in the ring-wide lookup |
| ChordNodes.ChordNode.Join | chord/node.py:174-190 | a join forgets the predecessor and sets the successor, to the node itself when nobody is known |
| ChordNodes.ChordNode.StabilizeSnapshot | chord/node.py:213-226 | first critical section of stabilize: adopt, return or ask |
| ChordNodes.ChordNode.StabilizeAdopt | chord/node.py:223-226 | a node alone takes the predecessor it saw as successor |
| ChordNodes.ChordNode.StabilizeApply | chord/node.py:232-241 | the answer is compared with the successor as it is now; the resulting successor is notified |
| ChordNodes.ChordNode.Notify | chord/node.py:268-278 | a candidate becomes predecessor if there is none or it is nearer |
| Lookup.StepAt | chord/node.py:145-170 | in any pointer state each delegation goes to a member and lowers the distance to the key |
| Lookup.FindSuccessor | chord/node.py:145-160 | in any pointer state the delegation chain ends, at a member |
| Lookup.LookupCorrect | chord/node.py:145-170 | with correct successors and any other fingers, a lookup returns the first member at or after the key unless a node whose successor is another node is asked for its own id and its last finger is itself; and exactly then it does not |
| Lookup.LookupsAgree | chord/node.py:145-170 | two nodes agree on the owner of a key |
| Lookup.OwnIdLookupCanFail | chord/node.py:161-170 | a two-node ring with correct fingers in which a node misroutes its own id |
| Lookup.FingerReach | chord/node.py:133-143 | a correct finger i precedes the key exactly when its reach of 2^i stays before the key's last preceding member |
| Lookup.DelegationHalves | chord/node.py:145-170 | each delegation halves the bound on the distance to that member |
| Lookup.HopBound | chord/node.py:133-170 | with correct fingers a lookup for a key other than the asked node's id makes at most M delegations |
| Lookup.RepairCorrects | chord/node.py:280-303 | on a ring with correct successors fix_fingers makes its finger correct, whatever the other fingers are, and breaks no correct one |
| Lookup.RepairsGiveHopBound | chord/node.py:280-303 | one such repair of each finger of each node, in any order, makes all fingers correct, and then every lookup keeps that bound |
| Protocol.NewMember | chord/node.py:174-190 | a node of the protocol is what the constructor and join leave of a node object |
| Protocol.HopKeepsInv | chord/node.py:145-160 | in any pointer state a lookup on behalf of a joiner ends between the joiner and the bootstrap node |
| Protocol.StabilizeKeepsInv | chord/node.py:213-241 | each critical section of stabilize keeps the invariant, with any steps of others in between |
| Protocol.StepKeepsInv | chord/node.py:174-303 | every step of join, stabilize, notify and fix_fingers keeps the invariant |
| Protocol.JoinOnlySafety | chord/node.py:145-303 | after every run every pointer names a member and every node but the bootstrap node has its successor in (n, boot] |
| Convergence.EveryNodeReachesBoot | chord/node.py:145-303 | following successors from any node leads to the bootstrap node |
| Convergence.OneCycle | chord/node.py:145-303 | any cycle of successors is the one through the bootstrap node |
| Convergence.CycleWindsOnce | chord/node.py:145-303 | that cycle meets its nodes in id order |
| Convergence.StepLowersMeasure | chord/node.py:194-278 | with joins stopped no step raises the measure, and each change of a successor or predecessor lowers it |
| Convergence.ChangesBounded | chord/node.py:194-278 | a run without joins changes pointers at most 2 * 2^M * N times |
| Stabilization.StabilizeIsRun | chord/node.py:194-278 | an undisturbed stabilize call with its notify is the run of its critical sections |
| Stabilization.NoArcSkips | chord/node.py:194-278 | where every node is its successor's predecessor no successor arc passes over a member |
| Stabilization.SettledIsIdeal | chord/node.py:194-278 | a ring of the protocol in which every node is its successor's predecessor, or alone, is the ideal ring |
| Stabilization.QuiescentIffIdeal | chord/node.py:194-278 | a ring of the protocol that no stabilize call can change is exactly the ideal ring |
| Interleaving.IdealIsStable | chord/node.py:194-303 | in the ideal ring no step but a join changes a successor or predecessor, with stabilize calls half done and messages late or repeated |
| Interleaving.IdealStays | chord/node.py:194-303 | nor does any run without joins |
| Interleaving.StillStabilizes | chord/node.py:194-278 | a stabilize call that is completed, with its notify handled, while no pointer changes leaves its node settled, whatever is interleaved |
| Interleaving.RoundsConverge | chord/node.py:194-303 | a run in rounds, in each of which every node completes a call, reaches the ideal ring within as many rounds as the measure is high, and never leaves it |
| Interleaving.RoundsExist | chord/node.py:194-278 | from every state of the protocol, with calls half done, any number of such rounds can be made |
| Interleaving.InterleavedConvergence | chord/node.py:174-303 | after any run of the protocol, with calls half done and messages under way, a run without joins ends in the ideal ring, which no later step but a join disturbs, if it can be cut into more than 2 * 2^M * N rounds, in each of which every node both starts and completes a stabilize call; the calls may overlap in any way |
| Interleaving.JoinBoth | chord/node.py:174-190 | a run of joins from one bootstrap node to the three-node ring of the next row |
| Interleaving.CountingCallsIsNotEnough | chord/node.py:194-278 | there any number of calls of node 1, then of node 2, then of node 0 leave a wrong successor, though the last calls change nothing: rounds are needed, not numbers of calls |
| LookupRuns.HopMeaning | chord/node.py:145-160 | in any pointer state a hop answers what the whole lookup gives, or passes the query on to a nearer member from which it gives the same; with correct successors that is the owner of the key |
| LookupRuns.HopsPromise | chord/node.py:145-160 | while the ring stays as it is, every answer of a run of hops is that of the whole lookup for some query under way at the start |
| LookupRuns.HopsEnd | chord/node.py:145-160 | and enough hops of a query end with that answer |
| LookupRuns.JoinRun | chord/node.py:174-190 | start of a join, hops and its end give the joiner what the lookup at the known node gives, which is the next member if successors are correct |
| LookupRuns.FixRun | chord/node.py:280-303 | start of a repair, hops and its end are one whole repair |
| LookupRuns.AnswersAreOwners | chord/node.py:145-160 | with correct successors every answer sent names the owner of the key, whatever stabilizations, repairs and other lookups go on in between |
| LookupRuns.JoinEnds | chord/node.py:174-190 | so a joiner that is answered then gets the next member as successor |
| LookupRuns.FixEnds | chord/node.py:280-303 | and a finger repaired from such an answer is correct |
| LookupRuns.FingersConverge | chord/node.py:280-303 | with correct successors and no wrong answer to a repair under way, any run in which each finger is repaired once makes all fingers correct, and lookups keep the hop bound |
| LookupRuns.WrongAnswerSpoils | chord/node.py:280-303 | while one that is wrong is under way, any such run can be followed by a step that leaves its finger wrong |
| Replication.ReplicationManager.GetSuccessorChain | storage/replication.py:25-53 | the walk ends with a non-empty, duplicate-free, successor-linked list of at most k nodes starting at the primary; complete when all answer |
| Replication.QuorumIsHalf | storage/replication.py:14-16 | the quorum is half of k, rounded up |
| Replication.ReplicationManager.PutWithRetry | storage/replication.py:55-83 | the replica is written, once, exactly if it answers one of three attempts |
| Replication.ReplicationManager.ReplicateWrite | storage/replication.py:85-124 | exactly the reported replicas get the record; COMPLETE means primary plus written replicas reach ceil(k/2) |
| Replication.ReplicationManager.DeleteReplicas | storage/replication.py:144-176 | exactly the reported replicas lose the record: every one on the walk that answers all the time, none that is silent, and all of the chain when all answer |
| Replication.ReplicationManager.ReadFromReplicas | storage/replication.py:178-187 | the copy of the first replica along the chain that answers with one, however many before it are silent; nothing exactly if no replica answers with a copy |
| Chains.ChainOf | storage/replication.py:25-53 | on a fixed answering ring the chain is unique |
| Chains.IdealChainLength | storage/replication.py:25-53 | on an ideal ring the chain has min(k, N) nodes |
| Chains.IdealChainOrder | storage/replication.py:25-53 | and they are the first ones clockwise from the primary |
| Chains.CompleteSurvivesCrashes | storage/replication.py:14-16 | a COMPLETE write whose primary part landed on the primary has ceil(k/2) holders, so fewer crashes leave a copy |
| Chains.CompleteWhenLandedElsewhere | storage/task_service.py:44-76 | how many copies there are when the primary write landed elsewhere: a quorum exactly when that node is not a written replica or enough replicas were written |
| Schema.TaskKeyInjective | storage/schema.py:32-36 | different trimmed ids have different keys |
| Schema.SameKeyIff | storage/schema.py:32-36 | two ids share a key exactly if they differ in surrounding white space only |
| Schema.CreateMeaning | storage/schema.py:44-136 | which inputs are refused; otherwise each field of the record, and of the record with its replicas, is the given one, and version, flag and replication factor are set |
| Schema.UpdateMeaning | storage/schema.py:145-185 | which patches are refused; an accepted one sets the fields it names and no other, raises the deleted flag exactly with the status DELETED, and is idempotent but for the version |
| TaskStore.WriteRepresents | storage/replication.py:85-124 | writing one task to its whole chain is one dictionary update |
| TaskStore.DeleteRepresents | storage/replication.py:144-176 | deleting it from its whole chain is one dictionary removal and leaves no copy there |
| TaskStore.TaskService.OwnerForKey | storage/task_service.py:40-42 | on an ideal ring the node found is the owner, for keys other than the asked node's id |
| TaskStore.TaskService.PutOnNode | storage/task_service.py:44-76 | the write lands on the first node that answers among the given one and those that new lookups name, or nowhere; on the given one if lookups are stable |
| TaskStore.LandingMeaning | storage/task_service.py:44-76 | three attempts: the given node, then the node of a new lookup, then that of another |
| TaskStore.TaskService.GetTask | storage/task_service.py:122-162 | a read returns the copy of the owner that the lookup names, or, if it is silent or has none, the first copy a replica behind it answers with; on a settled ring the first copy along the key's chain, which is the dictionary's record |
| TaskStore.TaskService.WriteTask | storage/task_service.py:112-114 | primary write, then replicas; a failed write changes nothing; COMPLETE means ceil(k/2) copies if this node is the primary, or lookups are stable, or k is at most 2 |
| WriteQuorum.MissedQuorum | storage/task_service.py:44-76 | for every k of at least 3 and every ring in which the primary's chain has ceil(k/2) nodes or more, a registration in which none of the three holds and COMPLETE is reported with fewer copies: the lookup names the primary, and after the failed put a replica |
| TaskStore.TaskService.RegisterTask | storage/task_service.py:88-120 | register as on a dictionary: conflict, invalid input, or the record with its replicas; failures change no store; under a fresh id also the lookup, the walk and the write behind the answer, when calls fail |
| TaskStore.TaskService.UpdateTask | storage/task_service.py:193-213 | update as on a dictionary: unknown, deleted or invalid patch, or the patched record on the whole chain; a record written is some node's copy, patched, even when calls fail |
| TaskStore.TaskService.HardDelete | storage/task_service.py:172-180 | a hard delete succeeds exactly if the primary answers, and removes the task from it and from the replicas that answer; on a settled ring it leaves no copy on the chain |
| TaskStore.TaskService.DeregisterTask | storage/task_service.py:164-191 | soft and hard deregister as on a dictionary; which nodes lost the task when calls fail |
| TaskStore.TrimmedMeansTheSame | storage/schema.py:32-36 | stripping white space twice is stripping once, and a request means the same stripped or not, unless its id is blank, which is refused |
| TaskStore.DictOpMeaning | storage/task_service.py:88-213 | each operation touches one task; updates and soft deletes raise the version by one and keep the identity; registrations start anew with the fields of the input |
| TaskStore.DictOpOutcome | storage/task_service.py:88-213 | when each operation succeeds, with what record, and which error it gives otherwise; a soft delete raises the flag and keeps the other fields |
| TaskStore.RegisterRequest | storage/schema.py:60-106 | a registration stores what the request asked for, stripped of white space, and a blank id, job id or type is refused |
| TaskStore.RunAll | storage/task_service.py:88-213 | any sequence of operations at any entry nodes gives the answers of one dictionary, and primary and replicas stay equal to it |
| Handoff.RankOnChain | storage/replication.py:25-53 | a node with b members between the key and it is the b-th node of the owner's chain, if b < k |
| Handoff.ReadAfterJoins | storage/task_service.py:122-162 | after joins without handoff a record is read if and only if fewer than k newcomers lie between its key and its old owner |
| Handoff.ReadSurvivesJoins | storage/task_service.py:122-162 | so up to k - 1 joins since the last write never hide a record |
| Handoff.GetAfterJoins | storage/task_service.py:122-162 | get_task, asked of any node of the grown ring, returns the record of the old owner under the same exact condition |
| Leaving.Deployment.Leave | chord/node.py:348-388 | pointers and stores after a leave, whichever of its calls fail |
| Leaving.LeaveMeaning | chord/node.py:348-388 | what each of the three calls does to each pointer and key, by itself |
| Leaving.LeaveKeepsIdeal | chord/node.py:348-388 | a graceful leave leaves the ideal ring on the remaining nodes, two nodes included |
| Leaving.OwnersAfterLeave | chord/node.py:348-388 | only the leaver's keys change owner, to its successor |
| Leaving.LeaveKeepsData | chord/node.py:360-371 | no key disappears, and every key of the leaver is at its new owner with the leaver's value |
| Leaving.LeaveKeepsOwnerValue | chord/node.py:412-417 | a key of the successor keeps its value if and only if the leaver has no other value for it |
| Leaving.StaleCopyReplaces | chord/node.py:363-371 | an ideal two-node ring on which a leave replaces the current value of a key |
| Recovery.Append | storage/worker_assignment.py:129-168 | one queue gets the task at its end, once; the others do not change |
| Recovery.WithoutKeepsOrder | storage/worker_assignment.py:191-192 | a removal takes the task out and leaves the others in their order |
| Recovery.WithoutKeepsDistinct | storage/worker_assignment.py:191-192 | filtering a queue keeps it free of duplicates |
| Recovery.Tables.AppendLocal | storage/worker_assignment.py:129-168 | append is idempotent on worker and task, and says whether it appended |
| Recovery.Tables.RemoveLocal | storage/worker_assignment.py:170-202 | remove drops every occurrence, keeps the order, and is idempotent |
| Recovery.Tables.CreateTask | chord/server.py:2383-2501 | both tables or neither, and a ghost record exactly when the queue write and the rollback fail; what a failed idempotency read does |
| Recovery.Tables.ResultComplete | chord/server.py:2626-2671 | a report leaves SUCCESS exactly if success was reported and FAILURE otherwise, sets the result and nothing else of this or any other record, and nothing if the write fails; cleanup is scheduled for successes that were written |
| Recovery.Tables.AttemptRecovery | chord/recovery.py:279-446 | one attempt, whichever of its store calls fail: the record as decided, the task out of the old queue and into the new one |
| Recovery.RetryAgreesIff | chord/recovery.py:409-446 | a retry keeps HT1 and HT2 in agreement on its task if and only if its three writes all land or none does |
| Recovery.Tables.DetectFailedTasks | chord/recovery.py:227-241 | a scan attempts recovery of exactly the failed records it saw |
| Recovery.AttemptMeaning | chord/recovery.py:54-91 | which failures are retried, waited for or given up, with every field of the record after it, and that a retry goes to the best live worker other than the current one, if there is one |
| Recovery.MoveMeaning | chord/recovery.py:421-432 | the queues after a retry, whichever of its two queue writes succeed |
| Recovery.RetryWaitingMeaning | chord/recovery.py:255-275 | a record whose wait is over is retried, waits again, or is given up, by the failure it waited for |
| Recovery.FailureHandledMeaning | chord/recovery.py:227-241 | which failed records a scan acts on, and that it retries those that ask for it and gives up the others |
| Recovery.AttemptLogsOnce | chord/recovery.py:339-446 | an attempt that changes anything enters one event, GIVE_UP exactly when that was chosen |
| Recovery.AttemptKeepsBudget | chord/recovery.py:54-91 | attempt_count stays within max_attempts and equals the number of retry entries; it rises exactly when the task moves; SUCCESS records do not change |
| Recovery.ScanKeepsClosed | chord/recovery.py:189-275 | no scan touches a given-up record or the status, result and worker of a SUCCESS record |
| Recovery.RecordRunsAreSafe | chord/recovery.py:189-446 | over a record's whole life, rebalancing moves included, attempt_count never falls, matches the history, and nothing is entered after GIVE_UP |
| Recovery.NeverTimedOut | chord/recovery.py:213-225 | over the whole life of a record that createTask wrote, rebalancing moves included, the timeout detector never fires |
| Recovery.ReportedFailureIsFinal | chord/recovery.py:227-241 | for records that createTask wrote, a failure that is not waiting can only be reported again or given up |
| Recovery.FailureRetriedIff | chord/recovery.py:189-275 | such a failed record can be retried by a scan if and only if it waits after a crash and has attempts left |
| Recovery.OrphanRetriedIff | chord/recovery.py:189-261 | and so can a record that has not failed, if and only if it has attempts left and does not wait for a failure that is not retried |
| Scheduler.RequeueMoves | chord/recovery.py:421-432 | a retry takes the task out of every other queue and puts it once into the new one |
| Scheduler.AttemptKeepsInv | chord/recovery.py:279-446 | attempts keep the tables in agreement, also when the detection was stale |
| Scheduler.ClaimKeepsInv | chord/task_runner.py:120-183 | a claim is recorded before the task runs, so a process runs it once |
| Scheduler.ReportMeaning | chord/server.py:2626-2671 | a report leaves the status it names in this record alone, and schedules a cleanup exactly for a success |
| Scheduler.CleanupClears | chord/server.py:2657-2671 | after its cleanup a finished task is in no queue |
| Scheduler.RunsOnlyPending | chord/task_runner.py:120-183 | the exact steps in which a task is executed: its record was fetched and is PENDING, and it was not claimed before |
| Scheduler.ClaimMeaning | chord/task_runner.py:120-183 | which tasks a process claims as it goes through its list |
| Scheduler.StepKeepsInv | chord/server.py:2383-2671 | every step of handlers, cleanups, recovery and workers keeps the invariant |
| Scheduler.TablesAgree | chord/server.py:2383-2671 | after every run a PENDING task is queued exactly once, under the worker its record names, and under no other |
| Scheduler.BoundedExecution | chord/task_runner.py:120-183 | over a whole run a task is executed at most 1 + attempt_count, so at most 1 + max_attempts times, never twice by one process |
| Scheduler.ClaimedIsNeverRerun | chord/task_runner.py:146-183 | a process never runs a task it has claimed before |
| Scheduler.CanStillRunIff | chord/task_runner.py:120-183 | some continuation lets the worker of a PENDING task run it if and only if the worker has no process yet, or one that has not claimed the task |
| Scheduler.RetryIsRunIff | chord/recovery.py:380-446 | a retry is lost, whoever else is live, if and only if the process of the worker it goes to has claimed the task before |
| Scheduler.RetryCanBeLost | chord/task_runner.py:120-183 | a run after which a task is lost although two workers are live |
| Scheduler.RetryOnSameWorkerIsLost | chord/recovery.py:388-392 | in particular when the only live worker is the task's own: the task is queued there and never run by that process |
| Rebalancing.TargetMeaning | chord/server.py:1939 | a load is within the target exactly if it is at most one or L times it is at most P |
| Rebalancing.LightestIsLow | chord/server.py:1941-1950 | the least loaded live worker is at or below the target, however tasks are spread |
| Rebalancing.MoveIsBalancing | chord/server.py:1950-1952 | so the guard against moves that do not balance never applies |
| Rebalancing.Consider | chord/server.py:1943-1968 | one turn of the loop leaves the record exactly if its worker is live with a load c such that c <= 1 or c * L <= P, and otherwise moves it to a worker with the smallest load |
| Rebalancing.Rebalance | chord/server.py:1909-1975 | every pending record ends on a live worker, the loads add up to P, each load c has c <= 2 or (c - 1) * L <= P, and the reported number of moves is right |
| Rebalancing.AgreesAfterPass | chord/server.py:1943-1962 | a pass keeps HT1 and HT2 in agreement on a record if and only if its worker was live |
| Rebalancing.OrphanIsQueuedTwice | chord/server.py:1943-1962 | a record on a worker that is not live, which a move leaves in two queues |
| RingWalk.Enqueue | chord/server.py:647-655 | the addresses added are the pointers of the node that are not visited |
| RingWalk.WalkIsComplete | chord/server.py:618-659 | when the worklist is empty the list is exactly what is reachable |
| RingWalk.ApiRing | chord/server.py:618-659 | the walk ends and lists each answering node reachable through answering nodes, once, and no other; in particular the successor and every finger of a listed node, if they answer |
| LockedQueue.StepKeepsInv | storage/worker_assignment.py:129-202 | each lock, read, write and release keeps the invariant |
| LockedQueue.Linearizable | storage/worker_assignment.py:129-202 | under any interleaving the record is the replay of the calls in lock order, and every call returned what it returns there, which tells whether the task was in the list before and gives the list after |
| LockedQueue.OrderRespectsTime | storage/worker_assignment.py:35-45 | that order respects real time |
| LockedQueue.NothingIsLost | storage/worker_assignment.py:63-82 | a task is in the list exactly if the last operation about it appended it; no duplicates; version counts the effective changes |
| LockedQueue.RetryIsHarmless | storage/worker_assignment.py:142-152 | a repeated append changes nothing exactly if the task was not removed since |
| LockedQueue.QueueIsExact | storage/worker_assignment.py:129-202 | the same for the stored record after every interleaving |
| Placement.Best | chord/worker_registry.py:222-229 | the head of the sorted list has the highest score of the live workers |
| Placement.BestIsFirst | chord/worker_registry.py:222-229 | of several best workers the first one is picked |
| Placement.WorkerRegistry.RecordCompletion | chord/worker_registry.py:45-56 | a report raises the finished tasks of its worker by one, and the successful or the failed ones |
| Placement.WorkerRegistry.PickLive | chord/server.py:2406-2409 | the worker picked is live and no live worker has a higher score; only its optimistic count changes |
| Placement.WorkerRegistry.Heartbeat | chord/worker_registry.py:89-122 | a heartbeat makes the worker live, refreshes its load, forgets the optimistic count and changes no other score |
| Placement.WorkerRegistry.PlaceTask | chord/server.py:2403-2437 | a task goes to the named worker, uncounted, or to a live worker with the highest score, counted; with nobody live and a worker spawned, to a worker with the highest score among all that are heard of in time, if any |
| Placement.ScoreOrder | chord/worker_registry.py:191-211 | one worker scores no higher than another exactly if 500 times its load plus 3 times its latency less 200 times its success rate is no lower |
| Placement.BetterScoresHigher | chord/worker_registry.py:191-211 | less load, less latency and a higher rate of successful tasks each raise the score |
| Placement.ScoreDrops | chord/worker_registry.py:191-207 | scores in a burst fall by the load weight for each task given |
| Placement.SharesAddUp | chord/server.py:2403-2437 | every task of a burst goes to exactly one live worker |
| Placement.BurstIsGreedy | chord/worker_registry.py:191-229 | a worker that received a task of a burst has, plus 0.5, at least the score of every live worker |
| Placement.EqualStartsShareEvenly | chord/worker_registry.py:191-229 | workers with equal starting scores receive numbers of tasks that differ by at most one |
| Placement.BurstIsOptimal | chord/worker_registry.py:191-229 | no other way to spread the same tasks makes the worst receiver better off |
| JobWorker.JobStore.TryClaim | chord/worker.py:109-125 | a claim succeeds exactly for PENDING jobs and changes no other job |
| JobWorker.JobStore.ReapTimedOut | chord/worker.py:46-91 | every job that runs too long is PENDING with one retry more, or FAILED if it had its retries, and no other changes |
| JobWorker.RunSucceeds | chord/worker.py:127-150 | a claimed job that succeeds undisturbed is RUNNING and then DONE |
| JobWorker.RunFails | chord/worker.py:160-206 | one that fails is PENDING with one retry more, or FAILED if it had its retries |
| JobWorker.RetriesAndClaimsBounded | chord/worker.py:46-206 | in every interleaving retry_count stays within MAX_JOB_RETRIES and each PENDING episode is claimed at most once |
| JobWorker.CreditFallsIff | chord/worker.py:163-187 | the one kind of step that overdraws the retry budget: a run that slept queues its job again with a retry count that does not pay for it |
| JobWorker.BudgetHoldsIfRequeuesRaise | chord/worker.py:46-206 | with any timeouts and any interleaving a job runs at most MAX_JOB_RETRIES + 1 times if no such step occurs |
| JobWorker.QuietRunsAreBounded | chord/worker.py:97-206 | without timeouts a job runs at most MAX_JOB_RETRIES + 1 times and DONE and FAILED are final |
| JobWorker.FinalIffNoLeftover | chord/worker.py:127-206 | with timeouts a finished job stays finished in every continuation if and only if no superseded run of it is still to write another status |
| JobWorker.TimeoutLeavesRun | chord/worker.py:46-91 | a run after which such a job exists |
| JobWorker.TimeoutExceedsBudget | chord/worker.py:160-187 | a run with timeouts in which a job is executed more than MAX_JOB_RETRIES + 1 times |

## Left out

- HTTP, Flask, gRPC, disk snapshots, subprocess execution, metrics, LLM agents, dashboards, deployment and the simulator: I/O or opaque libraries.
- SHA-1: any function from keys to the circle. Time stamps: not part of the records. Wall-clock time: an arbitrary non-decreasing number, so interleavings are not limited by how long steps take. Floats of the scorer: exact reals.
- Addresses of nodes are identified with their ids; ids are distinct. Fingers always have a value.
- Back-off of the transport: a call is answered, or has no effect.
- FindSuccessor: the fallback to the own successor when a remote lookup raises, which gives no owner in general, is not part of the model; the theorems are about lookups whose calls are answered.
- Protocol.StepKeepsInv: the branch of stabilize for a failed call, which jumps to a live finger and may leave (n, boot], is not among the steps.
- The ring under crashes: the fallback of stabilize to its furthest live finger, the fallback of a lookup to its own successor, and check_predecessor.
- Reads past a dead primary: the chain walk asks the primary first and stops there, so the model claims no such fallback; `ReadFromReplicas` says what is read when the walk gets further.
- Trimming of white space in worker ids.
- `storage/result_service.py`: HT1 is a map; its routing is that of the task store.
- The routed `WorkerAssignmentService.remove` for a remote primary, which takes no lock and writes no replicas: remove is the local locked form.
- RetryWaiting and the scans: the read of a record and the attempt on it are atomic in `Recovery`; `Scheduler` lets detections be stale, but not the record that `_retry_waiting_tasks` writes back.
- How a worker is spawned: the model has the outcome. Auto-spawning by the recovery manager only shortens the wait, which is arbitrary in the model.
- TablesAgree: the idempotency read of createTask, its rollback and the store calls of retries succeed (`CreateTask` and `RetryAgreesIff` say what happens when they do not), one worker process per worker name, each assignment reported at most once, no rebalancing in the same run.
- BoundedExecution: no worker restarts and no rebalancing, which both start executions that no attempt pays for.
- ApiRing: metrics of the nodes, and malformed answers.
- Promotion of job replicas after a node failure, and deletion of jobs.

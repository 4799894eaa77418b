# The task-DAG kernel, its scheduler and its protocols

An orchestrator keeps its plan of work in a task DAG. This project models, in Dafny, the code that holds
that DAG and the code that drives it, and proves what callers rely on:

- `Types`, `Graph`, `Validator`: the DAG's data, cycles over finite multigraphs, and the validator (Kahn's algorithm, file
  ownership, node ceiling, stub edges).
- `Mutations`, `Idempotence`, `Recovery`, `Safety`: the two implementations of the mutations (live and on replay), replay
  as a function of the log, and a step machine over memory, store and log with submit, close, refused close, open, and
  crashes at rest, between store write and truncation, and inside the store write.
- `Effects`: what every command and every log entry does to every field, and what each command is tested for.
- `Crc32`, `CrcPolynomial`, `WalFormat`, `Wal`: the checksum of section 8 of RFC 1952 bit by bit and as a polynomial
  remainder, the frame format, and the log object with its buffer.
- `Manager`: the manager object. Each of its methods is one step of the recovery machine.
- `TornLog`: a crash inside a log write.
- `Scheduling`, `DispatchEffects`, `Convergence`, `Allocator`: readiness, the dispatch pass and its effect in words, rounds
  of dispatching and reporting, and the allocator object that performs them.
- `Limiter`: the first-come-first-served admission limiter, as an object and as a machine of many clients.
- `Seqlock`: the shared store region, one writer and many readers interleaved byte by byte.
- `Plan`, `PlanFaults`, `PlanOutcome`: plan validation, the faults it looks for, the commit of a plan to the manager, and
  what becomes of it up to the end of the build.
- `EventStream`, `EventData`: the server-sent-event reader, and what it makes of lines and data fields.
- `BlockStream`, `BlockHomes`: the block machine on top of it, and which piece of a stream ends up in which block.
- `Capability`: capability tokens and agent generations.
- `Progress`: build progress by milestone.

Objects the program updates in place are classes here; loops of the program are loops with invariants, proved against
functions on values; the protocol theorems are about those functions. What such a function computes is stated a second
time, in its inputs and literal values, in `Effects`, `DispatchEffects`, `PlanFaults`, `EventData`, `BlockHomes` and
`CrcPolynomial`.

## Where a plain claim fails

Each of these is proved as an exact criterion or with a concrete input.

- Two managers that agree on everything but update times, modification time and the cached active count answer every
  command alike and stay in agreement (`SameContentIsBisimulation`); that is the equality used for recovery, because replay
  does not restore those three fields.
- Recovery loses nothing and doubles nothing over a run exactly when each of its steps is `Safe`, a condition on the state
  before the step, and for a write torn over an odd counter on what it leaves (`NothingLostNothingDoubled`,
  `StepCriterion`). The steps that can be unsafe are the next five.
- A crash between the store write and the truncation is harmless exactly for logs that replay twice, and while there is
  no node (`WindowCriterion`, `ReplayTwiceCriterion`). In one run it doubles a node (`CrashInCloseDoublesNode`).
- A stored DAG without nodes is ignored on start. Edges accepted before the first node are safe in the log and lost when a
  close or an opening stores the document while there is still no node (`StepCriterion`, `StoredDocumentCriterion`,
  `NodelessCloseLosesEdge`; internal/dag/manager.go:67-71, 586-594).
- `Close` truncates the log even when the store write was refused. That is harmless exactly when the log made no
  difference to what is stored (`RefusedCloseCriterion`, `ChangesNothing`); a single status change is lost
  (`RefusedCloseLosesUpdate`; internal/dag/manager.go:586-606).
- A crash inside the store write changes the parity of the seqlock counter, `NewManager` ignores the failed read, and
  recovery starts from an empty DAG and the log. That is harmless exactly when the log bulk-loads or no node was stored
  (`TornWriteCriterion`, `TornWriteLosesDocument`; internal/dag/manager.go:67-71, internal/dag/store.go:94-99).
- While that counter stays odd, every later close or opening that empties the log loses whatever DAG there is: whole
  writes keep the parity and nothing resets it (`StepCriterion`, `TornWriteFlipsParity`; internal/dag/store.go:72-83).
- `ActiveNodeCount` is wrong after recovery exactly when the last entry that decides it is a bulk load that carries a
  wrong count; bulk loads are logged before their count is computed (`OpenCountCriterion`, `CrashMiscountsLoad`;
  internal/dag/manager.go:489-499).
- The manager keeps the DAG well formed exactly when its callers are `Careful`: fresh names, existing endpoints, no
  revival at the ceiling, splits that leave every file one domain, bulk loads of well-formed graphs within the
  configured ceiling (`CommandKeepsWellFormed`).
- `AddNode` can close a cycle, exactly when edges accepted earlier already lead from the new name back to it
  (`AddNodeCycleCriterion`, `DanglingEdgesCloseACycle`).
- After a crash inside a log write the next opening succeeds exactly when none or all of the new frame is in the file, and
  then has the content before or after the command. Otherwise `NewManager` fails; it does not fall back on the whole
  frames before the tear (`TornAppendCriterion`, `Manager.NewManager`; internal/dag/manager.go:83-103).
- The comment on `GetReadyNodes` speaks of dependencies that are Done; the code, followed here, also accepts Failed
  (internal/dag/manager.go:518, 542).
- A DAG with unique names can be finished, by dispatching and accepted reports of live agents, exactly when every
  unfinished node without a live owner is pending, has a live agent for its domain and existing predecessors, and no such
  nodes form a cycle (`ConvergenceCriterion`). A split may leave a node in progress without an owner, whose reports are
  refused for good (`OwnerlessNodeStalls`; internal/dag/manager.go:297-309). A blocked node is no obstacle while its owner
  lives, because the manager checks the owner and not the status (`BlockedNodeFinishes`, `OwnerlessBlockedStalls`).
- The seqlock is safe exactly for a counter that starts even (`SafeIffEvenStart`).
- The plan validator compares trimmed names but commits them as written, and agents are started for the domains as
  written. An accepted plan can be finished exactly when every node writes its domain as the list of domains does and no
  edge leads from a name no node has as written to one that some node has (`AcceptedPlanCriterion`). A padded node name
  or a padded domain name stalls the build (`PaddedNameStalls`, `PaddedDomainStalls`; internal/coordinator/planner.go:191,
  internal/orchestrator/allocator.go:146-147).
- CRLF pairs are converted chunk by chunk; a cut inside a pair is the only thing that makes the converted text depend on the
  cuts, and it can merge two events (`UnixByChunkCriterion`, `CutPairMergesEvents`).

## Model

| member | source | states |
|---|---|---|
| Graph.AcyclicIffOrdered | internal/dag/validator.go:35-52 | No cycle exactly when the vertices have a topological order |
| Graph.FedSetHasCycle | internal/dag/validator.go:54-64 | A set in which every vertex has a predecessor lies entirely on or after cycles |
| Graph.AcyclicInWords | internal/dag/validator.go:13-33 | No cycle exactly when no edges, of whatever type, lead through existing nodes back to where they began |
| Validator.BuildAdjacency | internal/dag/validator.go:13-33 | In-degrees and adjacency lists count each parallel edge and skip edges with a missing endpoint |
| Validator.DecrementTargets | internal/dag/validator.go:44-51 | Each target loses one in-degree per edge and is queued exactly when it reaches zero |
| Validator.DrainQueue | internal/dag/validator.go:40-52 | Ends with the queue empty and an order to which no further vertex can be added; visited is its length |
| Validator.KahnVerdict | internal/dag/validator.go:54-64 | With the queue empty, the vertices of positive in-degree are exactly those on or after a cycle |
| Validator.ValidateCycles | internal/dag/validator.go:7-67 | Passes exactly the graphs without a cycle among existing nodes; a rejection names, once each, exactly the nodes on or reachable from a cycle |
| Validator.ValidateAssignments | internal/dag/validator.go:69-86 | Passes exactly when no file is targeted by two domains; a rejection names a file and two domains that do |
| Validator.ValidateNodeCeiling | internal/dag/validator.go:88-102 | Passes exactly when the nodes neither Done nor Failed are at most the ceiling |
| Validator.ValidateStubEdges | internal/dag/validator.go:104-124 | Passes exactly when both endpoints of every stub-contract edge exist; a rejection names a missing one |
| Validator.ValidateAll | internal/dag/validator.go:126-141 | Passes exactly the documents that all four checks admit; a cycle is reported before a file conflict, and each only when present |
| Mutations.ReplayMatchesLive | internal/dag/manager.go:105-502 | Replaying the entry an accepted command logged has the command's live effect, up to times and cached count |
| Mutations.ApplyRespectsContent | internal/dag/manager.go:105-209 | Replaying one entry onto equal contents gives equal contents |
| Mutations.SameContentIsBisimulation | internal/dag/manager.go:222-502 | Equal contents accept the same commands and stay equal: the ignored fields never influence an answer |
| Effects.CountActiveMeaning | internal/dag/manager.go:211-220 | The recount is the number of nodes whose status is neither 2 nor 3 |
| Effects.UpdateEffect | internal/dag/manager.go:311-343 | An update changes the first node of the name only: status and update time, the task when Done, and all four figures or none; the header gets the true count |
| Effects.MetricsEffect | internal/dag/manager.go:323-328 | Start, completion and both token figures are each the one reported |
| Effects.ReplayedUpdate | internal/dag/manager.go:115-140 | The replayed update does the same with the time of the log entry |
| Effects.AssignEffect | internal/dag/manager.go:346-381 | Binding changes the agent and the update time of the first node of the name |
| Effects.AddEffect | internal/dag/manager.go:222-265 | A new node keeps every field, is created when it says or else now, and counts as updated then |
| Effects.SplitEffect | internal/dag/manager.go:440-474 | A split finishes the first parent, empties its task and appends the sub-nodes with every field kept but their times |
| Effects.ReplayedSplit | internal/dag/manager.go:180-199 | The replayed split finishes the same parent and appends the logged sub-nodes as they are |
| Effects.EdgeEffects | internal/dag/manager.go:142-163 | An added edge comes last; a removal drops exactly the edges of those endpoints; nodes and count stay |
| Effects.ReplayedMisses | internal/dag/manager.go:105-209 | Replay passes over names it does not find and entries of an unknown kind, except that the time is set and sub-nodes are added |
| Effects.BulkLoadEffect | internal/dag/manager.go:477-502 | A loaded document gets version 1, its true count and the configured ceiling; its log entry carries the count the caller sent |
| Effects.EntriesLogged | internal/dag/manager.go:222-502 | Each command logs its own kind of entry with the values it applies |
| Effects.OnlyTheOwnerReports | internal/dag/manager.go:297-309 | When the owner is enforced, an update is accepted exactly from the agent the node is assigned to, blanks around the names aside |
| Effects.AddAccepted | internal/dag/manager.go:229-240 | A node is accepted exactly while the unfinished nodes leave room for it, every file has one domain, and no other domain owns one of its files |
| Effects.SplitAccepted | internal/dag/manager.go:410-437 | A split is accepted exactly when the parent exists and the unfinished nodes of other names leave room for the sub-nodes |
| Effects.BulkLoadAccepted | internal/dag/manager.go:477-483 | A document is accepted exactly without a cycle, with one domain per file, room by its own limit and real endpoints of its stub edges |
| Idempotence.NodesClosedForm | internal/dag/manager.go:105-209 | Replayed without additions, each node holds the last value written to each field by an entry that names it first |
| Idempotence.EdgesClosedForm | internal/dag/manager.go:142-163 | Replay leaves the old edges no entry removes, then the added edges no later entry removes, in order |
| Idempotence.HeaderClosedForm | internal/dag/manager.go:105-209 | Without a bulk load the header keeps its limits; the count is right once any entry has recounted, else untouched |
| Idempotence.GrowthClosedForm | internal/dag/manager.go:105-209 | Without a bulk load, replay leaves the old nodes and then the added ones in order, each with the last value written to each field since it came in, by an entry that names it first |
| Idempotence.ReplayTwiceCriterion | internal/dag/manager.go:83-209 | Replaying a log over its own result changes nothing exactly when it bulk-loads, or adds no node and removes every edge it adds |
| Idempotence.ChangesNothingCriterion | internal/dag/manager.go:83-209 | A log leaves a document's content as it is exactly when the closed forms of nodes, edges and limits, taken behind its last bulk load if it has one, give back the document |
| Idempotence.FreshStartCriterion | internal/dag/manager.go:67-103 | Replayed onto an empty DAG instead of a stored one, a log gives the same content exactly when it bulk-loads or no node was stored |
| Idempotence.CountAfterReplay | internal/dag/manager.go:105-220 | From a right count, replay ends with a right count exactly when the last deciding entry is not a bulk load with a wrong one |
| Recovery.StoredDocumentCriterion | internal/dag/manager.go:67-71 | A stored document comes back with its content exactly when it has a node or nothing to lose |
| Recovery.FreshOpening | internal/dag/types.go:119-129 | The first opening starts with no node and no edge, version 1 and the configured ceiling |
| Recovery.StepCriterion | internal/dag/manager.go:67-103 | A step from a state that loses nothing leaves one exactly when it is safe; submitting always is, closing and opening exactly when the store alone can give the content back |
| Recovery.NothingLostNothingDoubled | internal/dag/manager.go:67-209 | After every step of a run, memory and what would be recovered have the content of a manager that never stops, exactly when each step is safe |
| Recovery.SameAnswersAsIdeal | internal/dag/manager.go:222-502 | After any run of safe steps, the recovered manager accepts exactly what a manager that never stopped would accept |
| Recovery.WindowCriterion | internal/dag/manager.go:586-606 | With a readable store, a crash between store write and truncation is harmless exactly for logs that replay twice, and while there is no node |
| Recovery.NodelessCloseLosesEdge | internal/dag/manager.go:67-71 | One run in which a close without a node loses an accepted edge |
| Recovery.CrashInCloseDoublesNode | internal/dag/manager.go:586-606 | One run in which a crash between store write and truncation brings a node back twice |
| Recovery.CrashMiscountsLoad | internal/dag/manager.go:489-499 | One run in which a crash after a bulk load leaves a wrong active count |
| TornLog.TornAppendCriterion | internal/dag/wal.go:167-239 | After a death inside a log write the log can be read exactly when none or all of the frame is there, and recovery gives the content before or after the command |
| Recovery.RefusedCloseCriterion | internal/dag/manager.go:586-606 | A close whose store write is refused is harmless exactly when the log made no difference to the stored document |
| Recovery.RefusedCloseLosesUpdate | internal/dag/manager.go:586-606 | One run in which such a close loses an accepted status change |
| Recovery.TornWriteCriterion | internal/dag/manager.go:67-103 | After a death inside the store write the log alone is left to recover from, which is harmless exactly when it bulk-loads or no node was readable |
| Recovery.TornWriteLosesDocument | internal/dag/store.go:142-173 | One run in which a death inside the second store write loses an accepted node |
| Safety.CommandKeepsWellFormed | internal/dag/manager.go:222-502 | An accepted command keeps unique names, real endpoints, acyclicity, one domain per file and the ceiling exactly when its caller was careful |
| Safety.CarvingKeepsOwners | internal/dag/manager.go:410-474 | Sub-nodes that keep the parent's domain and share out its files never give a file a second domain |
| Safety.CommandKeepsCount | internal/dag/manager.go:211-220 | Every command, careful or not, keeps the cached count equal to the true one |
| Safety.MemoryIsWellFormed | internal/dag/manager.go:67-502 | The DAG in memory is well formed after every run of safe steps with careful callers, crashes and reopenings included |
| Safety.OpenCountCriterion | internal/dag/manager.go:67-103 | Reopening restores an exact active count exactly when the log's last recount is not a miscounted bulk load |
| Safety.MemoryCountIsExact | internal/dag/manager.go:211-220 | Over every run whose reopenings meet no such log, and whose torn writes leave no miscounted document readable, the cached count is the true one |
| Safety.UpdateCeilingCriterion | internal/dag/manager.go:282-343 | A status update keeps the ceiling exactly unless it revives a finished node with every place taken |
| Safety.AddNodeCycleCriterion | internal/dag/manager.go:222-265 | Adding a node keeps acyclicity exactly when no waiting edges lead from the new name back to it |
| Safety.DanglingEdgesCloseACycle | internal/dag/manager.go:384-407 | Two edges and then their two endpoints, all accepted, form a cycle |
| Crc32.TableForm | internal/dag/wal.go:181 | One lookup of the low byte and one shift equal eight bitwise steps of the reflected polynomial |
| Crc32.BurstDetected | internal/dag/wal.go:229-233 | Any change confined to four consecutive bytes changes the checksum, whatever surrounds them |
| CrcPolynomial.RegisterIsRemainder | internal/dag/wal.go:181 | The bitwise register is the bit-reversed remainder of the message, behind its initial value, divided over GF(2) by the generator of section 8 of RFC 1952 |
| CrcPolynomial.ChecksumIsRemainder | internal/dag/wal.go:181 | The checksum is the complement of that remainder for an initial register of ones |
| CrcPolynomial.RemainderIsUnique | internal/dag/wal.go:181 | A polynomial has only one remainder, so that these statements determine register and checksum |
| CrcPolynomial.CheckValue | internal/dag/wal.go:181 | The checksum of the bytes of "123456789" is CBF43926 |
| WalFormat.FrameBytes | internal/dag/wal.go:167-192 | Byte by byte, a frame is the length lowest byte first, the payload, and the checksum lowest byte first |
| WalFormat.DecodeWhole | internal/dag/wal.go:195-247 | A whole log file reads back as exactly the entries written, without error |
| WalFormat.CutLog | internal/dag/wal.go:195-247 | Any prefix reads back as exactly its whole frames in order, with an error exactly when the cut is inside a frame |
| WalFormat.CutFrame | internal/dag/wal.go:209-227 | A torn frame is reported by the part it is torn in: length, payload or checksum |
| WalFormat.DamageDetected | internal/dag/wal.go:229-233 | Damage to up to four consecutive payload bytes yields the entries before that frame and a checksum error naming it |
| WalFormat.ChecksumDamageDetected | internal/dag/wal.go:229-233 | Any other four bytes in place of a checksum yield the entries before that frame and a checksum error naming it |
| WalFormat.ForeignFrameReported | internal/dag/wal.go:235-239 | A sound frame whose payload is no entry yields the entries before it and an error naming it |
| WriteAheadLog.Wal.Append | internal/dag/wal.go:94-117 | Appends to the buffer only, stamping an entry without a time; refused exactly when closed |
| WriteAheadLog.Wal.AppendSync | internal/dag/wal.go:120-134 | On return the entry and everything before it are in the file in order; refused exactly when closed, with nothing changed |
| WriteAheadLog.Wal.Flush | internal/dag/wal.go:137-164 | The whole buffer is in the file, in append order |
| WriteAheadLog.Wal.WriteEntry | internal/dag/wal.go:167-192 | The file grows by exactly one frame |
| WriteAheadLog.Wal.Replay | internal/dag/wal.go:195-247 | Reads any file, whole, cut or damaged, as the format's reader does |
| WriteAheadLog.Wal.Truncate | internal/dag/wal.go:271-286 | The file is empty and what is still buffered stays buffered |
| WriteAheadLog.Wal.Close | internal/dag/wal.go:250-268 | Everything appended is in the file; later appends are refused |
| WriteAheadLog.Wal.FileThenBuffer | internal/dag/wal.go:94-247 | At every moment the decoded file followed by the buffer is what was appended since the last truncation |
| WriteAheadLog.Wal.SurvivingPart | internal/dag/wal.go:195-247 | Whatever prefix of the file survives a crash reads back as the first of the appended entries |
| DagManager.FilterInPlace | internal/dag/manager.go:157-163 | The in-place edge filter leaves exactly the other edges in order, though reading and writing share the array |
| DagManager.Manager.NewManager | internal/dag/manager.go:38-81 | Opening, be the store readable or not, is the open step of the recovery machine; it fails exactly on an unreadable log or a store too small for the outcome, and then changes neither |
| DagManager.Manager.ReplayEntries | internal/dag/manager.go:83-103 | Applies the entries in order, stores the outcome and empties the log; a failed store write keeps the log |
| DagManager.Manager.ApplyMutation | internal/dag/manager.go:105-209 | The second implementation has exactly the effect the recovery theorems are about |
| DagManager.Manager.AddNode | internal/dag/manager.go:222-265 | One submit step: accepted exactly under ceiling and file ownership, logged before applied, else nothing changes |
| DagManager.Manager.UpdateNode | internal/dag/manager.go:282-343 | One submit step: first node of the name only, owner enforced when asked; says which refusal is returned |
| DagManager.Manager.AssignNode | internal/dag/manager.go:346-381 | One submit step: binds the first node of the name |
| DagManager.Manager.AddEdge | internal/dag/manager.go:384-407 | One submit step: refused exactly when the edge closes a cycle among existing nodes |
| DagManager.Manager.SplitNode | internal/dag/manager.go:410-474 | One submit step: ceiling tested with every node of the parent's name done, while only the first is finished |
| DagManager.Manager.BulkLoad | internal/dag/manager.go:477-502 | One submit step: admitted against the caller's limit, then stored under the configured one |
| DagManager.Manager.GetReadyNodes | internal/dag/manager.go:519-553 | Returns exactly the ready nodes in DAG order |
| DagManager.Manager.Close | internal/dag/manager.go:586-606 | The close step when the store takes the document; when it does not, the refused close that still empties the log |
| Scheduling.ReadyMeaning | internal/dag/manager.go:519-553 | With unique names a node is ready exactly when it is pending and every predecessor exists and is Done or Failed |
| DispatchEffects.ReadyInWords | internal/dag/manager.go:519-553 | Whatever the names, a node is ready exactly when its status is 0 and, for every edge into it, the last node of the name it comes from has status 2 or 3 |
| Scheduling.SomethingIsReady | internal/dag/manager.go:519-553 | If every unfinished node is pending with existing predecessors, and pending nodes form no cycle, some node is ready |
| Scheduling.SortedPositions | internal/orchestrator/allocator.go:530-533 | Stable sorting by priority orders the ready nodes by priority and then DAG position, dropping none |
| Scheduling.DispatchStartsChosen | internal/orchestrator/allocator.go:513-557 | A pass starts exactly the ready nodes that are least in (priority, position) of a domain whose agent is live and idle; every other node is untouched |
| Scheduling.IdleAgentGetsWork | internal/orchestrator/allocator.go:538-557 | An idle live agent with a ready node in its domain gets one |
| Scheduling.DispatchKeepsOneTaskPerAgent | internal/orchestrator/allocator.go:517-557 | A pass never gives an agent a second node in progress |
| DispatchEffects.DispatchInWords | internal/orchestrator/allocator.go:513-557 | In progress comes exactly the most urgent startable node of each domain whose agent is live and works on no node, by assignment or, unassigned, by domain; it is assigned to that agent and nothing else changes |
| DispatchEffects.NobodyWorksTwice | internal/orchestrator/allocator.go:513-557 | No two nodes in progress after a pass are assigned to one agent if none were before |
| Convergence.DispatchKeepsCanFinish | internal/orchestrator/allocator.go:513-557 | A dispatch pass neither makes nor breaks the ability to finish |
| Convergence.ReportKeepsCanFinish | internal/dag/manager.go:282-343 | An accepted report of a live agent, whatever its status and that of the node, neither makes nor breaks it |
| Convergence.RunKeepsCanFinish | internal/orchestrator/allocator.go:469-510 | Over any run of dispatching and accepted reports, the ability to finish is there at the end exactly when it was at the start |
| Convergence.SomebodyWorks | internal/orchestrator/allocator.go:513-557 | Until convergence, every pass over a DAG that can finish leaves some unfinished node with a live owner |
| Convergence.ConvergesInTime | internal/orchestrator/allocator.go:469-510 | With unique names, every run of rounds that each complete a node and revive none is at most as long as the number of unfinished nodes, and one of that length has converged |
| Convergence.RoundsEndAtConvergence | internal/orchestrator/allocator.go:469-510 | Any run over a DAG that can finish, whatever was reported, can be continued by such a round exactly until it has converged |
| Convergence.ConvergenceCriterion | internal/orchestrator/allocator.go:469-510 | Some run of accepted reports converges exactly when every unfinished node without a live owner is pending, with a live agent for its domain, existing predecessors and no cycle among such nodes |
| Convergence.OwnerlessNodeStalls | internal/dag/manager.go:297-309 | Of a node in progress without an owner every report is refused, and its DAG never converges |
| Convergence.BlockedNodeFinishes | internal/dag/manager.go:296-318 | A blocked node can still be finished by its live owner |
| Convergence.OwnerlessBlockedStalls | internal/dag/manager.go:297-309 | A blocked node without an owner never converges |
| Allocation.SortStable | internal/orchestrator/allocator.go:530-533 | Computes the stable sort |
| Allocation.Allocator.DispatchReadyTasks | internal/orchestrator/allocator.go:513-557 | The loop over the manager performs exactly the dispatch pass of the scheduling theorems |
| Allocation.Allocator.CheckConvergence | internal/orchestrator/allocator.go:496-510 | True exactly for a non-empty DAG all of whose nodes are Done or Failed |
| Allocation.Allocator.Tick | internal/orchestrator/allocator.go:475-492 | One tick: dispatch, then the test on the resulting DAG |
| Limiter.GatewayLimiter.GrantLocked | internal/orchestrator/inference_gateway.go:1363-1371 | Grants exactly the first waiters that fit, in order, and no other |
| Limiter.GatewayLimiter.Enter | internal/orchestrator/inference_gateway.go:1306-1316 | Admits at once exactly when nobody waits and there is room, else queues last and grants what fits |
| Limiter.GatewayLimiter.Leave | internal/orchestrator/inference_gateway.go:1321-1336 | A cancellation that lost the race keeps its slot; otherwise exactly this request leaves the queue |
| Limiter.GatewayLimiter.SetCapacity | internal/orchestrator/inference_gateway.go:1353-1361 | Sets the capacity, at least one, and grants what then fits |
| Limiter.Release.Call | internal/orchestrator/inference_gateway.go:1339-1351 | The first call frees one slot; later calls change nothing |
| Limiter.StepKeepsOrderly | internal/orchestrator/inference_gateway.go:1306-1371 | Every step of every client keeps queue order, exact accounting, no overtaking, and nobody waiting while there is room |
| Limiter.ReachableIsOrderly | internal/orchestrator/inference_gateway.go:1306-1371 | The same for every interleaving of acquire, cancel, release and resize |
| Limiter.AdmissionIsFair | internal/orchestrator/inference_gateway.go:1306-1371 | When a request is admitted, every earlier one has been admitted or withdrawn |
| Limiter.StepRespectsCapacity | internal/orchestrator/inference_gateway.go:1363-1371 | No step raises the slots in use above the current capacity |
| Limiter.CapacityIsLastResize | internal/orchestrator/inference_gateway.go:1353-1361 | After any run the capacity is that of the last resize, or one if that was not positive |
| Limiter.ResizeAdmits | internal/orchestrator/inference_gateway.go:1353-1371 | A resize admits exactly as many waiters as there is room for, or all, from the front and in order |
| Limiter.ArrivalDecides | internal/orchestrator/inference_gateway.go:1306-1316 | A newcomer is admitted exactly when nobody waits and there is room, and else queues last |
| Limiter.EventTakesEffect | internal/orchestrator/inference_gateway.go:1318-1371 | What each event leaves of slots, queue and phases, before the grants that follow |
| Limiter.PhasesOnlyAdvance | internal/orchestrator/inference_gateway.go:1318-1351 | A request is admitted or withdrawn once and released once |
| Limiter.ReleaseFreesOneSlot | internal/orchestrator/inference_gateway.go:1339-1351 | A release always finds a slot, frees exactly one, and repeating it changes nothing |
| Limiter.DrainedMeansServed | internal/orchestrator/inference_gateway.go:1306-1371 | When all admitted requests have released, nobody waits |
| SeqlockStore.StepKeepsConsistent | internal/dag/store.go:94-173 | Every step of every interleaving keeps memory, writer and readers consistent |
| SeqlockStore.ReadIsCurrent | internal/dag/store.go:94-139 | A read that returns gives the bytes of the last write completed at that moment, or the empty DAG if there was none |
| SeqlockStore.EvenStartIsSafe | internal/dag/seqlock.go:44-76 | From an even counter every read of every run is current and the region check never fires |
| SeqlockStore.EvenStartReadsWhole | internal/dag/store.go:94-173 | From an even counter, every read of every run that returns gives back the last completed write of less than 2^32 bytes as a whole; an empty or missing write reads as the empty DAG |
| SeqlockStore.WriteFits | internal/dag/store.go:142-159 | A write of less than 2^32 bytes can start exactly when no other is under way and the region holds it |
| SeqlockStore.OddStartIsUnsafe | internal/dag/seqlock.go:44-76 | From an odd counter some run makes a read return an unfinished write |
| SeqlockStore.TornWriteFlipsParity | internal/dag/store.go:161-169 | A writer that dies inside a write leaves the counter with the other parity; whole writes leave it as it was |
| SeqlockStore.SafeIffEvenStart | internal/dag/seqlock.go:44-76 | The protocol is safe exactly for regions whose counter starts even |
| SeqlockStore.ReadBegin | internal/dag/seqlock.go:59-71 | Returns the first even value among the bounded loads, and contention exactly when all are odd |
| SeqlockStore.SpinStep | internal/dag/seqlock.go:59-71 | The machine's reader begins and gives up at the same loads as ReadBegin |
| Planning.ValidatePlanResponse | internal/coordinator/planner.go:146-237 | Accepts exactly the plans with usable distinct names, known domains and endpoints, no cycle and one domain per file |
| PlanFaults.ValidPlanCriterion | internal/coordinator/planner.go:146-237 | A plan is accepted exactly when it has domains and nodes, none of its domains, nodes or edges has one of the listed faults, its edges form no cycle and no two domains share a file |
| Planning.CommitPlan | internal/orchestrator/buildspec_workflow.go:406-439 | Adds nodes then edges, each accepted, until the first refusal, and records exactly what was added |
| Planning.ValidPlanCommits | internal/orchestrator/buildspec_workflow.go:414-439 | On an empty DAG an accepted plan is committed whole exactly when it fits the ceiling; otherwise it stops there without an edge; the DAG then holds exactly the plan's nodes and edges in order |
| PlanOutcome.CommittedInWords | internal/orchestrator/buildspec_workflow.go:406-439 | A plan committed whole leaves node by node its names, domain, task, files and priority, pending and unassigned, and edge by edge a dependency |
| PlanOutcome.CommittedPlanCriterion | internal/coordinator/planner.go:179-215 | A committed plan has distinct names, no cycle and one domain per file; its edges all have real endpoints exactly when the nodes they name carry no surrounding blanks |
| PlanOutcome.AcceptedPlanCriterion | internal/orchestrator/allocator.go:469-587 | With an agent for each of its domains, an accepted plan within the ceiling can be finished exactly when every node's domain is written as in its list of domains and no edge leads from a name that is no node's as written to one that is |
| PlanOutcome.AcceptedPlanFinishes | internal/orchestrator/allocator.go:469-587 | Such a plan is finished in at most one round per node when each round completes a node and revives none, and such rounds can go on exactly until then |
| PlanOutcome.PaddedNameStalls | internal/coordinator/planner.go:180-215 | An accepted plan with a padded node name has a dangling edge and a node that never becomes ready |
| PlanOutcome.PaddedDomainStalls | internal/coordinator/planner.go:191 | An accepted plan with a padded domain name is left untouched by every dispatch pass and never finishes |
| EventStream.ReadSSE | install/pi/extensions/aion-gateway-provider.ts:680-705 | Yields, in order, exactly the payloads of the converted text, its unterminated end included |
| EventStream.DrainMore | install/pi/extensions/aion-gateway-provider.ts:683-697 | Text that arrives later is read from where the earlier text left off, with nothing yielded twice |
| EventStream.BlocksPartition | install/pi/extensions/aion-gateway-provider.ts:685-696 | The events glued with blank lines give back the text, none contains a blank line, and the payloads are theirs |
| EventData.EventEnds | install/pi/extensions/aion-gateway-provider.ts:685-696 | A blank line ends an event, and reading goes on behind it |
| EventData.PayloadsOfBlocks | install/pi/extensions/aion-gateway-provider.ts:685-704 | The payloads are those of the blocks in order; the unterminated last block is read with what the decoder held back, and a block without data yields none |
| EventData.LinesGlued | install/pi/extensions/aion-gateway-provider.ts:688-692 | Splitting a block into lines loses nothing |
| EventData.DataLineKept | install/pi/extensions/aion-gateway-provider.ts:688-692 | A line that starts with data: yields its value without the blanks before it, in its place |
| EventData.OtherLineDropped | install/pi/extensions/aion-gateway-provider.ts:688-692 | Any other line yields nothing |
| EventData.TwoPayloadLines | install/pi/extensions/aion-gateway-provider.ts:688-692 | The values of two data lines are joined by a line feed |
| EventData.JsSpaceCodes | install/pi/extensions/aion-gateway-provider.ts:691 | The blanks trimmed here are those Go trims, with the byte order mark and without the next-line character |
| EventData.TrimMeaning | internal/coordinator/planner.go:162 | The trim of names cuts the blanks off both ends and nothing else |
| EventStream.UnixByChunkCriterion | install/pi/extensions/aion-gateway-provider.ts:684 | Converting chunk by chunk equals converting the whole exactly when no cut falls inside a CRLF pair |
| EventData.PairBecomesLinefeed | install/pi/extensions/aion-gateway-provider.ts:684 | Conversion turns every CRLF pair into a line feed and goes on behind it |
| EventData.NoPairsUnchanged | install/pi/extensions/aion-gateway-provider.ts:684 | Text without such a pair stays as it is |
| EventStream.CutIndependence | install/pi/extensions/aion-gateway-provider.ts:680-705 | Without such a cut the payloads depend on the text only |
| EventStream.CutPairMergesEvents | install/pi/extensions/aion-gateway-provider.ts:684-696 | One such cut makes two events arrive as fewer |
| BlockStream.StreamConsumer.Consume | install/pi/extensions/aion-gateway-provider.ts:529-616 | The loop adds exactly the chunks up to the first that does not parse or breaks off inside its tool calls, and closes the last block only if none did |
| BlockStream.ConsumeOpenAIStream | install/pi/extensions/aion-gateway-provider.ts:495-617 | Reader and consumer together compute the streamed output of the theorems below |
| BlockStream.StreamIsFaithful | install/pi/extensions/aion-gateway-provider.ts:495-617 | An observer of the events alone finds them well bracketed with consecutive indices and rebuilds every block; per kind, all pieces sent are kept in order, and adjacent blocks differ in kind unless they are tool calls |
| BlockHomes.StreamIsHoused | install/pi/extensions/aion-gateway-provider.ts:545-614 | Every piece sent has its home among the blocks: with the piece before it exactly when it belongs there, else in the next block; each block is its own pieces, their texts in order, with the first id and name given and the stream index of its first delta |
| BlockHomes.NamedCallIsHome | install/pi/extensions/aion-gateway-provider.ts:576-590 | A tool delta that names an index is in a tool block of that index |
| BlockHomes.SameCallSameBlock | install/pi/extensions/aion-gateway-provider.ts:576-601 | Two deltas for one index share a block exactly when no reasoning, content or other index came between |
| BlockHomes.ParallelCallsApart | install/pi/extensions/aion-gateway-provider.ts:576-601 | Deltas for different indices never share a block |
| BlockHomes.WholeStreamParses | install/pi/extensions/aion-gateway-provider.ts:529-534 | Payloads that are neither empty nor the closing mark are all read; if they parse, the stream is their chunks |
| BlockHomes.BrokenPayloadEnds | install/pi/extensions/aion-gateway-provider.ts:529-534 | One that does not parse ends the stream there |
| BlockStream.BrokenStreamIsFaithful | install/pi/extensions/aion-gateway-provider.ts:529-615 | A stream that breaks off leaves a well bracketed beginning that tells the content so far |
| BlockStream.OutputIndependentOfCuts | install/pi/extensions/aion-gateway-provider.ts:495-705 | The whole output is the same however the text was cut, as long as no cut falls inside a CRLF pair |
| BlockStream.LinefeedOnlyOutput | install/pi/extensions/aion-gateway-provider.ts:495-705 | For text without carriage returns the output is independent of every cut |
| BlockStream.StreamedIsFaithful | install/pi/extensions/aion-gateway-provider.ts:495-705 | From raw chunks to events: well bracketed, telling exactly the content, nothing left open after a complete stream |
| Capabilities.AgentCapabilityRegistry.IssuePolicy | internal/orchestrator/agent_capability.go:42-67 | Issues for a named agent only; the two tables stay inverse and hold exactly each agent's last token since the last clear |
| Capabilities.AgentCapabilityRegistry.ResolvePolicy | internal/orchestrator/agent_capability.go:74-84 | Finds a policy exactly for an agent's current token, and the policy it was issued with |
| Capabilities.AgentCapabilityRegistry.Clear | internal/orchestrator/agent_capability.go:86-91 | Afterwards no token resolves |
| Capabilities.ResolvesIffLastIssued | internal/orchestrator/agent_capability.go:42-91 | With fresh tokens, a token resolves to a policy exactly when it is the last one issued to its agent since the last clear, and was issued with that policy |
| Capabilities.OneTokenPerAgent | internal/orchestrator/agent_capability.go:42-91 | No two tokens are the last one issued to the same agent, so at most one resolves for it |
| Capabilities.GenerationFile.Launch | internal/supervisor/agent.go:283-284 | A process is started only with the generation that is stored by then |
| Capabilities.AgentSupervisor.SpawnAgent | internal/supervisor/agent.go:233-290 | Every attempt uses up a generation, and what is stored and launched depends on where it ends |
| Capabilities.SpawnsCount | internal/orchestrator/agent_capability.go:42-67 | A spawn uses up the next generation, launches only that one, and issues a token for the trimmed names and that generation once its environment is prepared |
| Capabilities.SupervisorContinues | internal/orchestrator/allocator.go:167-174 | A new supervisor goes on from the stored generation |
| Capabilities.StepKeepsFleet | internal/supervisor/agent.go:233-290 | Spawns, failed spawns, respawns, restarts and clears keep launched, stored and live generations in order |
| Capabilities.LaunchesIncrease | internal/orchestrator/allocator.go:167-272 | Launched generations strictly increase over every run, daemon restarts included |
| Capabilities.OutlivedTokensAreDead | internal/orchestrator/agent_capability.go:42-91 | A token that resolves belongs to a generation no older than any launched one |
| Progress.CoordinatorSeeds | internal/orchestrator/build_progress.go:167-198 | Claims exactly the known listed nodes, each once and under the first named milestone that lists it |
| Progress.FallbackSeeds | internal/orchestrator/build_progress.go:200-218 | One seed per class, holding exactly the unclaimed nodes of that class |
| Progress.SortSeeds | internal/orchestrator/build_progress.go:228 | The same seeds with the same contents, ascending by name |
| Progress.ProgressMilestoneSeeds | internal/orchestrator/build_progress.go:158-230 | For any milestones and snapshot, the seeds hold every listed name once and every other name as often as the snapshot, each where it belongs; with unique names that is a partition |
| Progress.ComputeMilestoneProgress | internal/orchestrator/build_progress.go:232-267 | Counts the seed's known nodes and the Done ones among them |
| Progress.ComputeBuildProgress | internal/orchestrator/build_progress.go:126-156 | The totals count every listed name once and every other node by itself, as Done when the last node of its name is; with unique names they are the DAG's node count and Done count |
| Progress.CountDoneMeaning | internal/orchestrator/build_progress.go:126-156 | The Done count is the number of nodes with status 2 |

## Left out

- The JSON codecs of log entries, plans, stored documents and stream chunks: values stand for their encodings. The log is
  parametrised by a codec; an entry is assumed to survive it and to encode in less than 2^32 bytes (`Encodable`).
- I/O failures other than a store too small for the document and a store that cannot be read: short writes, failed
  flushes, mmap, msync, fsync, temporary files and renames.
- Clocks: every reading of the clock is an input (`Times`). Timers and tickers are steps of their own.
- The width of the active count (uint32); counts are unbounded here.
- Aliasing with the caller's memory: `SplitNode` stamps the caller's slice in place and `BulkLoad` keeps the caller's
  pointer; here the DAG is a value that the manager owns, and only the edge filter of replay works on an array.
- Locks of the manager and the allocator: each method is one atomic step, and a dispatch pass has no other mutation between
  its snapshot and its calls.
- A change of the configured ceiling between two openings of the same files.
- Delivery of the dispatched task to the agent process, status events and log lines (internal/orchestrator/allocator.go:559-586).
- SortStable: does not model the library's sorting algorithm; a stable insertion sort stands for it, as for the two sorts of
  build progress.
- Unspecified map iteration order: an arbitrary order where it can be seen.
- StepKeepsConsistent: does not model memory weaker than sequential consistency; the 32-bit length is stored in one step,
  data bytes one by one in any order, and fewer than 2^64 counter steps happen during one read (`NotLapped`).
- UTF-8 decoding: chunks are decoded text, and `flush` is what the decoder holds back at the end.
- Consume: does not model response id, model name, usage, stop reason and the parsed tool arguments; a tool call carries
  its raw argument text.
- ConsumeOpenAIStream: leaves out the same fields.
- Token generation and hashing: tokens are fresh names and stand for their hashes. A policy keeps agent, domain and
  generation. Agents are told apart by their trimmed names.
- The supervisor without an isolation engine, and everything after the launch of the process: supervision, stop, crash
  detection.
- `IsProjectScanExcluded`, `fallbackMilestoneForNode` and the byte order of strings are the parameters `excluded`, `classify`
  and `less`.
- ConvergenceCriterion: takes the set of live agents to stay the same, and nothing but dispatching and agents' reports to
  change the DAG.
- Titles, weights, warnings, percentages, statuses and the lists of failed, blocked and active nodes in build progress.
- ValidatePlanResponse: does not say which of several faults of a plan is reported.
- CommitPlan: does not model the final write of the attempt's file (internal/orchestrator/buildspec_workflow.go:441).
- AcceptedPlanCriterion: takes an agent to be live for each domain of the plan; prompts that are missing and agents that
  fail to start are not modelled.
- SpawnAgent: its steps outside the model are inputs that say whether they succeed.
- SplitNode: does not model the in-place stamping of the caller's sub-nodes.
- Dashboard, command line, RPC dispatch, HTTP proxying, provider authentication, process isolation, semantic memory, project
  scanning, lock manager and stub registry: input and output, or properties of a single branch.

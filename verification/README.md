# Verified model of the manager's capacity, evidence, rate-limit and HA logic

The project models five parts of the virtualization manager, each of which keeps
state under a lock or folds over an unbounded list, and proves what each keeps
over whole runs.

- **Capacity and live migration** (`Capacity`, `CapacityProtocol`, `ManagerProtocol`,
  `MigrationTruth`, with sums over sets in `SetSums`). The manager checks a host's
  free CPUs and memory against a listing of the VM rows plus the claims of
  in-flight migrations. `Capacity` is the manager as a class whose `table` and
  `migrations` its methods update; `CapacityProtocol` interleaves any number of
  callers step by step, with commits, rollbacks, status writes and deletions
  outside the lock. `ManagerProtocol` shows each method to be a run of those steps.
  No host is ever over-committed. `MigrationTruth` settles when a row that says
  "running" is right about where its VM is: always for back-to-back calls, and for
  overlapping calls exactly when every claim rests on a row that is right at that moment.
- **Evidence hash chain** (`RecordEncoding`, `ProfileJSON`, `EvidenceChain`). Six
  fields, one of them the profile's JSON, are concatenated without separators and hashed
  with SHA-256 (FIPS 180-4). The text can be taken apart in one way only, and so can the
  JSON. The verifier accepts exactly the runs of consecutive records. An untouched store
  verifies exactly when the clock did not step back between its records.
- **Rate limiter** (`RateLimiting`). Deleting idle buckets is unobservable exactly
  when the rate is at least one per second and the cleaner's interval at least one
  second, and under just these settings the bound on calls in a window holds. The
  cleaner ticks at any times. What a client is owed is bounded from below as well.
- **Failover scheduler** (`Scheduling`, `BatchScheduling`). What decides between two
  hosts, and a greedy placer whose batch-wide memory, CPU and anti-affinity guarantees
  come from per-VM checks on a working copy; it fails only when no host takes the next VM.
- **HA control loop** (`HealthMonitor`, `HealthProtocol`, `Failover`, `FailoverProtocol`,
  `RestartPolicy`). The missed-heartbeat machine, its reports and its timing with
  heartbeats landing inside a check, the failover
  pipeline with its bounded history, the two guards against overlapping failovers
  under any interleaving of goroutines, and the sliding-window restart limit.

Where the source updates fields, maps or slices in place, the model is a class or
an array method proved against a specification function, and the theorems are
lemmas about runs of that function. Protocols with several threads are transition
systems in which each lock-protected section is one step.

Where code and documentation differ, the model follows the code:

- The comment on `MigrateVM` (`internal/manager/manager.go:926-934`) says a failed
  agent call leaves the VM on its source host with its status restored. The row is read
  before the claim is taken, and after a claim on a row that has gone wrong meanwhile a
  failed call puts "running" back on a host the VM is not on (`WrongRowCanLie`). Reading
  the row again under the lock would be enough (`RereadingKeepsRowsHonest`), and nothing
  less than a right row is (`ClaimIsSafeIff`).
- `SetThresholds` (`internal/ha/controller.go:333-344`) promises new thresholds at
  runtime but changes only the controller's copy; the heartbeat processor keeps the ones
  it was built with (`Monitor.SetThresholds`, `Monitor.Reconcile`). What it does differs
  for some node unless the two are equal (`SettingTakesEffectIff`).
- Detection is documented as offlineThreshold intervals without a heartbeat
  (`internal/ha/health.go:207-213`). A heartbeat that lands inside a check, stamped less
  than an interval before that check, can cost one of them, and no other heartbeat can
  (`OfflineEarlyIff`).
- The restart limit counts a window open at its start; with both ends counted it holds up
  to twice the limit (`ClosedWindowLimit`, `ClosedWindowMayHoldTwice`).
- `CanRestart`, `RecordRestart` and `GetAutoRestartVMs` are not called by the
  failover pipeline, which reads only a VM's HA mode; they are modelled on their own.
- The evidence comment (`internal/compliance/compliance.go:464`) lists violations
  among the hashed fields; only their number is hashed (`EditedRecordRecomputesIff`).

## Model

| member | source | states |
|---|---|---|
| Capacity.CheckHostCapacity | internal/manager/manager.go:671-692 | succeeds exactly when both resources fit next to every listed VM of the host, and returns what remains; a refusal names the lacking resource, CPU first, and what was free |
| Capacity.Manager.WithPendingMigrations | internal/manager/manager.go:1066-1089 | appends exactly the claims whose row is not at the target yet, each once |
| Capacity.Manager.AllocateVM | internal/manager/manager.go:647-666 | inserts a row exactly when the listing and the insert succeed and the VM fits next to everything listed and claimed, and then returns what remains free; a refusal names the lacking resource and what was free; changes nothing else |
| Capacity.Manager.ReserveMigration | internal/manager/manager.go:1035-1057 | claims the target exactly when the VM is unclaimed and fits there next to rows and claims |
| Capacity.Manager.ReleaseMigration | internal/manager/manager.go:1060-1064 | drops the VM's claim and no other |
| Capacity.Manager.UpdateVM | internal/db/repositories.go:403-420 | writes one row; a missing row stays missing |
| Capacity.Manager.MigrateVM | internal/manager/manager.go:935-1030 | goes ahead exactly when the VM runs elsewhere, is unclaimed, the listing succeeded and it fits by true load; each result occurs exactly under its faults, with the row and the VM's location written out for each: without a fault the row names the target and is running and the VM is there, a failed agent with a good rollback leaves all as it was; the claims are as before the call |
| Capacity.Manager.Transfer | internal/manager/manager.go:996-1021 | mark, agent call, rollback or commit: row and location after each result, as `ResultsExplained` spells out |
| Capacity.ResultsExplained | internal/manager/manager.go:996-1030 | for every row, claim table and combination of faults the result occurs if and only if its faults do and the call is possible, and row and location are then the stated ones |
| Capacity.Manager.DeleteVM | internal/manager/manager.go:823-859 | exact success condition; the row goes only after the agent destroyed the VM; a failed call marks it stopped exactly if it was running and placed and both the agent's stop and the status write worked, and else changes nothing |
| Capacity.CountedIsLoad | internal/manager/manager.go:1066-1089 | what the check counts is exactly the rows on the host plus claims at it not yet arrived, each VM once |
| Capacity.RowsStayTruthful | internal/manager/manager.go:926-1030 | over any run of back-to-back calls with any faults a row is wrong about its VM only while "migrating" |
| Capacity.MigratingIsFinal | internal/manager/manager.go:948-950 | once a row is "migrating" every further call refuses and neither row nor VM moves |
| CapacityProtocol.StaleNeverUnderstates | internal/manager/manager.go:647-666 | a listing gone stale under the lock never shows less load than the table now carries, because claims are counted |
| CapacityProtocol.OthersNeverRaise | internal/manager/manager.go:1013-1018 | commits, rollbacks, deletes, releases and status writes, lock or no lock, raise no host's load |
| CapacityProtocol.InsertStaysWithin | internal/manager/manager.go:647-666 | an insert decided on a stale listing keeps every host within capacity |
| CapacityProtocol.ClaimStaysWithin | internal/manager/manager.go:1035-1057 | a claim decided on a stale listing keeps every host within capacity |
| CapacityProtocol.StepKeepsInv | internal/manager/manager.go:641-666 | every step of every caller keeps the invariant on lock, listings, claims and capacity |
| CapacityProtocol.NoHostOverCommitted | internal/manager/manager.go:641-645 | in every state reached by any interleaving of any number of callers, rows plus claims fit every host in CPUs and memory |
| CapacityProtocol.RowsFit | internal/manager/manager.go:641-645 | so do the rows alone, as a listing would show them |
| CapacityProtocol.NoClaimLeftBehind | internal/manager/manager.go:991-994 | when every caller has returned no claim is left and the lock is free |
| ManagerProtocol.MigrateInProtocol | internal/manager/manager.go:935-1030 | the manager's migration, run without interference, takes a legal run of the protocol's steps from claim to release that reaches its table, claims and locations, or none if it refuses; so the protocol's steps can do what the code does |
| ManagerProtocol.AllocateInProtocol | internal/manager/manager.go:647-666 | the allocation takes exactly the protocol's locked listing and insert, or no step, and inserts exactly if listing, capacity and insert allow |
| ManagerProtocol.DeleteInProtocol | internal/manager/manager.go:823-859 | a deletion is one protocol deletion if it succeeds, and else at most one status write |
| ManagerProtocol.CallIsRun | internal/manager/manager.go:935-1030 | for every result the protocol steps of a whole migration are enabled one after the other and end in that result's row and location, with claim and lock gone |
| MigrationTruth.PrudentClaimsKeepRowsHonest | internal/manager/manager.go:926-1030 | if every claim rests on a row that is right at that moment, then under any interleaving of creates, moves and deletes, any faults and any other status write that does not set a wrong or claimed row running, a row that says "running" names its VM's host |
| MigrationTruth.RereadingKeepsRowsHonest | internal/manager/manager.go:944-991 | if every claim finds its row gone or still "running", no interleaving ever makes a row lie |
| MigrationTruth.StartedIsRight | internal/manager/manager.go:715-728 | a VM created in the run, once an agent has started it, may be set running and then has a right row |
| MigrationTruth.WrongRowCanLie | internal/manager/manager.go:1000-1011 | in every state, after a claim on a row that is not right, the agent's failure and the rollback leave the row "running" on a host the VM is not on |
| MigrationTruth.ClaimIsSafeIff | internal/manager/manager.go:944-991 | in every state where the invariants hold, a claim is safe, however things go on, if and only if the row is right then; a row that still says "running" or is gone is right |
| MigrationTruth.StaleClaimCanLoseTheVM | internal/manager/manager.go:944-1018 | the wrong case arises: two overlapping calls both return with the row "running" on a host its VM has left |
| RecordEncoding.UniquelyDecodable | internal/compliance/compliance.go:464-473 | equal texts mean equal previous hash, profile, violation count, verdict, second and checker |
| RecordEncoding.FiveDigitYearCollidesIff | internal/compliance/compliance.go:966-977 | a record with a five-digit year shares its text with one of a four-digit year if and only if the year is below 20000 and there are violations, and then with its twin alone, a passed record with violations |
| RecordEncoding.TwinSharesText | internal/compliance/compliance.go:971-976 | whether the record passed or failed, that twin has the same text |
| RecordEncoding.RFC3339Injective | internal/compliance/compliance.go:971-976 | four-digit-year timestamps are told apart by their text |
| ProfileJSON.MarshalIsObject | internal/compliance/compliance.go:36-53 | whatever its strings hold, a profile's JSON is one object whose first brace closes only at the last character |
| ProfileJSON.ProfilesArePrefixFree | internal/compliance/compliance.go:445-448 | no profile's JSON is a proper prefix of another's |
| ProfileJSON.MarshalIsInjective | internal/compliance/compliance.go:445-448 | different profiles have different JSON |
| ProfileJSON.ProfilesDecodable | internal/compliance/compliance.go:464-473 | equal texts of two records mean equal profiles, field by field, and equal everything else that is hashed |
| EvidenceChain.VerifyChainPure | internal/compliance/compliance.go:934-962 | valid exactly when all neighbours link; otherwise the first broken link with the hash expected, the hash found and both check IDs |
| EvidenceChain.HashesAreDistinct | internal/compliance/compliance.go:436-473 | in a genuine chain no two records have the same hash |
| EvidenceChain.LinkedMeansNext | internal/compliance/compliance.go:436-473 | two records of a genuine chain link exactly when the second follows the first |
| EvidenceChain.AcceptsExactlyTheRuns | internal/compliance/compliance.go:932-962 | of all selections from a genuine chain, repeats allowed, the verifier accepts exactly the runs of consecutive records, and else reports the first position that does not follow |
| EvidenceChain.SameHashSameFields | internal/compliance/compliance.go:964-977 | sealed records with one hash agree on every hashed field |
| EvidenceChain.EditedRecordRecomputesIff | internal/compliance/compliance.go:964-977 | a record edited outside its two hashes recomputes if and only if profile, number of violations, verdict, second and checker are unchanged |
| EvidenceChain.SameEndSameTail | internal/compliance/compliance.go:964-977 | two linking lists that recompute and end in one hash agree counting back from the end |
| EvidenceChain.SameEndSameHistory | internal/compliance/compliance.go:964-977 | two genuine chains that end in one hash are equally long and agree record by record |
| EvidenceChain.EvidenceStore.GenerateEvidence | internal/compliance/compliance.go:426-493 | appends one record with the input's IDs, profile, violations, verdict and time, chained to the latest stored one and sealed; a failed insert appends nothing |
| EvidenceChain.EvidenceStore.VerifyEvidenceChain | internal/compliance/compliance.go:770-807 | the verdict on the rows in created_at order, naming the two rows of the first broken link by row ID |
| EvidenceChain.SteadyClockIsGenuine | internal/compliance/compliance.go:426-473 | generation under a clock that never steps back yields a genuine chain in reading order |
| EvidenceChain.UntouchedStoreVerifiesIff | internal/compliance/compliance.go:283-289 | an untouched store verifies if and only if the clock never stepped back between its records |
| RateLimiting.RateLimiter.constructor | internal/security/middleware.go:242-253 | a limiter starts with no buckets |
| RateLimiting.RateLimiter.Allow | internal/security/middleware.go:256-284 | the answer and the one bucket that changes, for a new or known client |
| RateLimiting.RateLimiter.Cleanup | internal/security/middleware.go:287-299 | exactly the buckets idle for more than two intervals go |
| RateLimiting.TokensStayBounded | internal/security/middleware.go:256-284 | with a rate of at least one, tokens stay between zero and burst in every run |
| RateLimiting.TokensBoundedIff | internal/security/middleware.go:242-284 | they do so in every run if and only if the rate is at least one |
| RateLimiting.StaleRefillsToFresh | internal/security/middleware.go:270-293 | a bucket the cleaner would delete answers and continues exactly as a fresh one |
| RateLimiting.EvictionObservable | internal/security/middleware.go:287-299 | with a rate below one or an interval below a second, a concrete run tells the two limiters apart |
| RateLimiting.EvictionUnobservableIff | internal/security/middleware.go:256-299 | deletion changes no answer of any run if and only if rate >= 1 and interval >= one second |
| RateLimiting.BudgetBounds | internal/security/middleware.go:270-281 | admissions in a window cost at most a burst and the refill since one second before it |
| RateLimiting.WindowBound | internal/security/middleware.go:242-299 | with a rate and an interval of at least one second, in any window of L seconds one client is admitted at most burst + rps*(L+1) times, cleaner included |
| RateLimiting.FloodsOutdoBound | internal/security/middleware.go:287-299 | with any shorter interval some run exceeds that bound |
| RateLimiting.WindowBoundIff | internal/security/middleware.go:242-299 | the bound holds for all clients, windows and runs if and only if rate >= 1 and interval >= one second |
| RateLimiting.SilenceEarns | internal/security/middleware.go:270-281 | in every run, cleaner or not, a client silent for k whole seconds is then admitted at one instant as often as it calls, up to k times the rate and to twice the rate |
| RateLimiting.PacedNeverRefused | internal/security/middleware.go:256-284 | with a rate of at least one, a call with none of the client's other calls less than a second from it is admitted |
| RateLimiting.NeverStarved | internal/security/middleware.go:270-281 | in every run and whatever the client did before, it is admitted after any instant as often as it calls from a second later on, up to the rate, however often it calls in between |
| RateLimiting.SteadyClientServed | internal/security/middleware.go:270-281 | a client that calls at least rate times on each of L instants a second apart, and as it likes in between, is admitted at least rate * L times in those L seconds |
| Scheduling.Host.AvailableMemory | internal/ha/scheduler.go:40-46 | never negative; a positive result and the used memory make up the total |
| Scheduling.ScoreHost | internal/ha/scheduler.go:200-258 | -1 if the host does not fit, else the merits less 100 per conflicting pair; what the merits prefer is `ScoresAddUp` |
| Scheduling.EligibleScoresAreMerits | internal/ha/scheduler.go:200-290 | for eligible hosts neither sentinel nor penalty ever shows, and with nonnegative weights the score is at least 0 |
| Scheduling.ScoresAddUp | internal/ha/scheduler.go:200-258 | two eligible hosts differ in score by the sum of what six traits are worth, given as differences: half a point per VM fewer below 100 under "spread", 0.3 per CPU under "binpack", the remaining memory's share by weight, NUMA by weight for a strict VM, 15 for preference, 5 per label |
| Scheduling.ScoresDifferByAdvantage | internal/ha/scheduler.go:200-258 | eligible hosts alike but for one trait differ in score by just what that trait is worth |
| Scheduling.ChosenIsUndominated | internal/ha/scheduler.go:126-156 | no eligible host that is otherwise like the chosen one is better in any one trait |
| Scheduling.UndominatedMeans | internal/ha/scheduler.go:200-258 | so of such hosts the choice has the fewest VMs (below 100) under "spread", the most CPUs under "binpack", the most memory left, NUMA nodes for a strict VM, the VM's preference and the most matching labels |
| Scheduling.FilterHosts | internal/ha/scheduler.go:261-290 | keeps exactly the hosts that fit and run no listed VM, in order |
| Scheduling.SelectTarget | internal/ha/scheduler.go:126-156 | an eligible host that no eligible host outscores, and with a positive memory size none otherwise alike is better in any trait; fails exactly when none is eligible |
| BatchScheduling.ByMemorySorts | internal/ha/scheduler.go:166-171 | the batch is sorted largest first and is a permutation of the input |
| BatchScheduling.ChargePlacement | internal/ha/scheduler.go:182-193 | charges the first host with the target's ID, in place; what the charges amount to is `StatesExact` |
| BatchScheduling.StatesExact | internal/ha/scheduler.go:182-193 | each host of the working copy is the caller's host with its used memory raised by what was placed there and its CPU count lowered by it, floored at zero, and nothing else but the VM list and its length changed |
| BatchScheduling.TakesIff | internal/ha/scheduler.go:40-65 | the working copy's host is eligible for a VM if and only if the caller's host is open, has the memory next to what was placed, half the CPUs asked for are left, and no listed VM runs or was placed there |
| BatchScheduling.GreedyIsTaken | internal/ha/scheduler.go:174-193 | each VM goes to a host that takes it by what was placed before |
| BatchScheduling.StuckIsNoneTakes | internal/ha/scheduler.go:174-181 | when no host of the working copy is eligible, none of the caller's hosts takes the VM by what was placed |
| BatchScheduling.GreedyIsUndominated | internal/ha/scheduler.go:126-181 | each placement goes to a host of the working copy that no otherwise like one betters in any trait |
| BatchScheduling.SelectTargets | internal/ha/scheduler.go:159-197 | on success the returned map assigns exactly the batch's VMs, respects every receiving host's memory and twice its CPUs, and keeps the batch apart; every placement went to a host that took the VM by what had been placed; a failure names the next VM of the sorted batch and no host of the caller's list takes it: each is closed, short of memory or of CPUs by what was placed, or runs a listed VM |
| BatchScheduling.AssignedIsTrail | internal/ha/scheduler.go:179-179 | with distinct VM IDs the returned map sends each VM where it was placed |
| BatchScheduling.StatesRunPlaced | internal/ha/scheduler.go:182-193 | the working copy runs what it ran plus what the batch put there, each counted once |
| BatchScheduling.BatchRespectsCapacity | internal/ha/scheduler.go:40-65 | a host that receives VMs ends within its memory and receives at most twice its original CPUs, although the count is floored at zero |
| BatchScheduling.BatchKeepsApart | internal/ha/scheduler.go:261-290 | the host a VM is sent to runs nothing the VM lists, there at first or placed before it |
| BatchScheduling.SortKeepsOrder | internal/ha/scheduler.go:166-171 | of two VMs the larger, or of equals the one given earlier, is placed first |
| BatchScheduling.BatchFits | internal/ha/scheduler.go:159-197 | over the caller's batch and the returned map, what each receiving host is sent fits its memory and twice its original CPUs |
| BatchScheduling.BatchIsApart | internal/ha/scheduler.go:159-197 | over the caller's batch and the returned map, no VM shares a host with a listed VM that runs there or was placed before it |
| BatchScheduling.NoConflictingPairTogether | internal/ha/scheduler.go:159-197 | so two VMs of the batch that list each other never share a host |
| HealthMonitor.NodeHealth.UpdateHeartbeat | internal/ha/health.go:132-147 | the whole state after a heartbeat |
| HealthMonitor.NodeHealth.MissHeartbeat | internal/ha/health.go:150-171 | the whole state after a miss |
| HealthMonitor.HeartbeatProcessor.RegisterNode | internal/ha/health.go:251-262 | adds a new online node and leaves a known one alone |
| HealthMonitor.HeartbeatProcessor.UnregisterNode | internal/ha/health.go:265-269 | removes the node only |
| HealthMonitor.HeartbeatProcessor.ProcessHeartbeat | internal/ha/health.go:272-296 | rejects an invalid heartbeat unchanged; otherwise the node, new or known, is as the heartbeat says |
| HealthMonitor.HeartbeatProcessor.CheckAll | internal/ha/health.go:300-343 | run without interference: every node is checked once and exactly the nodes whose state changed are reported, once each, with both states, their VMs and the time |
| HealthMonitor.Monitor.SetThresholds | internal/ha/controller.go:333-344 | invalid thresholds are refused; valid ones change the controller's copy only |
| HealthMonitor.Monitor.Reconcile | internal/ha/controller.go:153-164 | a tick goes by the thresholds the processor was built with |
| HealthMonitor.SettingTakesEffectIff | internal/ha/controller.go:333-344 | checks with the processor's thresholds and with the ones set since agree on every node if and only if the thresholds are equal |
| HealthMonitor.HealthFollowsMissedCount | internal/ha/health.go:149-171 | in every reachable state health is the function of the missed count the thresholds give; a node never heard from is online |
| HealthMonitor.RecordsLatestBeat | internal/ha/health.go:132-147 | in every reachable state a node's heartbeat time, sequence and VMs are those of its latest accepted heartbeat |
| HealthMonitor.ChecksCountEveryNode | internal/ha/health.go:300-343 | in every run, checks that each come an interval or more after a node's last heartbeat raise its missed count by one apiece, set its state by that count and its first-missed time by the first of them, and leave the heartbeat's fields alone |
| HealthMonitor.ChecksSpareOthers | internal/ha/health.go:318-323 | a check less than an interval after a node's last heartbeat, or of a node never heard from, leaves it as it is |
| HealthProtocol.VisitIsSequential | internal/ha/health.go:306-339 | a check with nothing landing in between does and reports what the sequential CheckAll does |
| HealthProtocol.NodesStayOk | internal/ha/health.go:131-171 | for any interleaving of heartbeats with read, miss and re-read the state follows the count, and what was read relates to it |
| HealthProtocol.TransitionsMoveOneStage | internal/ha/health.go:306-338 | an undisturbed check reports one stage down; one that a heartbeat overtook reports online, or suspect if one miss is enough for that, and never offline |
| HealthProtocol.ExactlyOneFailoverPerOutage | internal/ha/controller.go:183-192 | since its last heartbeat a node was reported offline at most once, and between checks exactly if it is offline |
| HealthProtocol.OneFailoverPerOutage | internal/ha/controller.go:183-192 | between two offline reports of one registration a heartbeat lands |
| HealthProtocol.MissesTakeTime | internal/ha/health.go:318-323 | with checks at least an interval apart each counted miss stands for an interval of silence, but for one if the heartbeat cut a check short |
| HealthProtocol.OfflineNeverEarly | internal/ha/controller.go:135-149 | with checks at least an interval apart, offline means offlineThreshold intervals since the last heartbeat, one fewer if that heartbeat landed inside a check and is stamped less than an interval before it |
| HealthProtocol.CutCostsAnInterval | internal/ha/health.go:306-322 | after every run that ends with such a heartbeat, some silent continuation is offline too soon |
| HealthProtocol.OfflineEarlyIff | internal/ha/health.go:300-343 | after any run that ends with a heartbeat, a silent node can be found offline before offlineThreshold intervals if and only if that heartbeat landed inside a check and is stamped less than an interval before it |
| HealthProtocol.GapCostsAnInterval | internal/ha/health.go:306-322 | for all thresholds such a run exists and exactly one interval is lost |
| HealthProtocol.OfflineNeverLate | internal/ha/controller.go:135-149 | with checks at most an interval apart, a silent node is found offline before offlineThreshold + 1 intervals, wherever in a check its heartbeat landed |
| Failover.HistoryIsLogSuffix | internal/ha/orchestrator.go:377-382 | the bounded history always is the last maxHistory entries of the unbounded log, and a query the matching suffix |
| Failover.Orchestrator.GetFailoverHistory | internal/ha/orchestrator.go:330-339 | the last `limit` entries, or all for a limit out of range |
| Failover.Orchestrator.CompleteFailover | internal/ha/orchestrator.go:342-355 | the finished record, out of the active map and in the history |
| Failover.Orchestrator.FailFailover | internal/ha/orchestrator.go:358-368 | the failed record, out of the active map and in the history |
| Failover.Orchestrator.RestartVM | internal/ha/orchestrator.go:294-315 | writes the host, then starts; fails at the first that fails |
| Failover.Orchestrator.RestartAll | internal/ha/orchestrator.go:255-273 | moves each VM in turn to its own assigned host, as `MovesFollow` spells out; counts every VM once as restarted or failed; the no-target branch is never taken |
| Failover.Orchestrator.Schedule | internal/ha/orchestrator.go:242-249 | either every VM gets a healthy host, or none is assigned |
| Failover.Orchestrator.Relocate | internal/ha/orchestrator.go:218-275 | a listing or scheduling failure moves nothing, and each occurs under its stated condition; success gives every VM a healthy host and moves it there |
| Failover.Orchestrator.Recover | internal/ha/orchestrator.go:162-291 | the steps after the guard: when each outcome arises, and what a completed run did with every automatic VM |
| Failover.Orchestrator.HandleHostFailure | internal/ha/orchestrator.go:143-291 | refused exactly if active, else one terminal record; says when the VM listing, the host listing or the targets fail it, and of a scheduling failure that no target takes some VM; once complete a VM has moved to a host exactly if it is automatic, its host update succeeded and the host is the one the scheduler assigned to it, and what was sent to a host fits its memory and twice its CPUs and is kept apart from listed VMs; restarted + failed = count, with distinct VM IDs every VM moved at most once; no move unless complete |
| Failover.AssignedAreHealthy | internal/ha/orchestrator.go:225-245 | the scheduler sends VMs only to online hosts other than the failed one and not in maintenance |
| Failover.AutoVMsAre | internal/ha/orchestrator.go:177-196 | the automatic VMs are exactly the failed node's VMs whose policy is neither manual nor never, each as often as listed |
| Failover.TargetsAre | internal/ha/orchestrator.go:225-240 | the targets are exactly the listed hosts that are neither the failed node nor in maintenance |
| Failover.MovesFollow | internal/ha/orchestrator.go:255-273 | a move of a VM to a host was made if and only if the VM is in the list, its update succeeded and the host is the one assigned to it |
| Failover.MovesAreSafe | internal/ha/orchestrator.go:255-273 | with distinct VM IDs each VM moves at most once, automatic ones only, each to a healthy host |
| Failover.MovesFit | internal/ha/orchestrator.go:242-273 | if the assignment fits every host's memory and twice its CPUs, so do the moves made |
| Failover.MovesStayApart | internal/ha/orchestrator.go:242-273 | if the assignment keeps listed VMs apart, so do the moves made |
| Failover.CarryOver | internal/ha/orchestrator.go:242-273 | the moves of a completed failover follow the scheduler's assignment, and its capacity and anti-affinity promises hold of them on the hosts listed |
| Failover.RestartedCountIs | internal/ha/orchestrator.go:255-273 | with distinct VM IDs the number restarted is that of the VMs whose host update succeeded and, with a restarter, whose start did |
| Failover.Controller.BeginFailover | internal/ha/controller.go:217-225 | succeeds exactly if the node was not in flight |
| Failover.Controller.EndFailover | internal/ha/controller.go:227-231 | releases the node only |
| Failover.FindLastIs | internal/ha/controller.go:271-279 | the search returns the latest record of the node that started no earlier |
| Failover.Controller.FindFailoverRecord | internal/ha/controller.go:271-279 | the backward search finds that record, or none |
| Failover.Controller.TriggerFailover | internal/ha/controller.go:234-267 | run alone: refused exactly if in flight, one record added, the node released, and a completed run reports its own record |
| FailoverProtocol.HandleInProtocol | internal/ha/orchestrator.go:143-291 | the orchestrator's method takes exactly the protocol's Enter and Finish steps, with the record it logs |
| FailoverProtocol.TriggerInProtocol | internal/ha/controller.go:234-267 | the controller's TriggerFailover is one goroutine's run of the protocol, skipped at the guard or taken to the end, and a completed one reports its own record |
| FailoverProtocol.OneFailoverPerNode | internal/ha/controller.go:217-239 | under any interleaving the active nodes are in flight, no two goroutines hold one node, and no failover is refused as already in progress |
| FailoverProtocol.OneRecordPerRun | internal/ha/orchestrator.go:341-369 | a finished run has exactly one log entry, terminal and for its node; any other run none |
| FailoverProtocol.ReportsOwnRecord | internal/ha/controller.go:259-279 | the record found is the run's own, or none if maxHistory later failovers pushed it out |
| FailoverProtocol.NothingLeftBehind | internal/ha/controller.go:227-239 | when all goroutines have returned nothing is in flight or active |
| RestartPolicy.PolicyManager.RecordRestart | internal/ha/policy.go:190-194 | appends the instant to the VM's list |
| RestartPolicy.PolicyManager.CanRestart | internal/ha/policy.go:197-222 | the answer and the pruned list; without a policy or a limit always yes, and nothing changes; what the answer counts is `AnswersCountRestarts` |
| RestartPolicy.PolicyManager.GetAutoRestartVMs | internal/ha/policy.go:157-187 | every ID whose policy is neither manual nor never as often as given, no other, in nondecreasing priority number |
| RestartPolicy.AutoRestartedAre | internal/ha/policy.go:157-187 | the automatic IDs are exactly those whose policy is neither manual nor never, each as often as given |
| RestartPolicy.AnswersCountRestarts | internal/ha/policy.go:197-222 | in every run a call answers yes if and only if the VM has no policy, or no limit, or fewer restarts recorded within its window than the limit |
| RestartPolicy.ExchangeSort | internal/ha/policy.go:173-180 | the in-place sort orders by priority and keeps every element |
| RestartPolicy.SwapKeepsBag | internal/ha/policy.go:177-177 | a swap keeps the bag of elements and of IDs |
| RestartPolicy.PruningUnobservable | internal/ha/policy.go:210-221 | with fixed policies the pruned lists answer as the full logs would, in every run |
| RestartPolicy.WindowLimit | internal/ha/policy.go:196-222 | any window (t, t + RestartWindow] of any run holds at most MaxRestarts restarts |
| RestartPolicy.ClosedWindowLimit | internal/ha/policy.go:210-221 | with both ends counted, a window [t, t + RestartWindow] of any run holds at most twice MaxRestarts restarts |
| RestartPolicy.ClosedWindowMayHoldTwice | internal/ha/policy.go:215-215 | for every policy and every such window some run attains that |

## Left out

- AcceptsExactlyTheRuns: dropping records from either end leaves a run and is accepted; the verifier compares links only and does not recompute hashes.
- UniquelyDecodable: violations' contents, VM ID, check ID and fractions of a second are not hashed, so nothing is claimed about them.
- MarshalIsObject: strings are sequences of valid characters, so replacement of invalid UTF-8 and the escapes for U+2028 and U+2029 are not modelled, and the pinning bytes appear as their base64 text.
- BatchRespectsCapacity: a host already over its memory stays so; the bound is for hosts that receive VMs, of the one batch, relative to the host list passed in.
- RowsStayTruthful: covers calls one after another; overlapping calls are `ClaimIsSafeIff`. A start, stop or restart that writes "running" on a wrong row or a row being migrated is outside both, and an agent that starts a second copy of a VM that another host runs is not modelled.
- OfflineNeverLate: assumes the node's last heartbeat is stamped no earlier than the check before it, on the same clock.
- WindowLimit: the window is open at its start, because the code keeps only timestamps strictly after the cutoff; `ClosedWindowLimit` is the other case.
- SelectTarget: `sort.Slice` is unstable, so which of several best-scoring hosts comes first is left open.
- ScoreHost: floating point is modelled by reals, and the memory ratio of a host with no memory at all is 0 where Go gives NaN or an infinity.
- CheckAll: its method is sequential; heartbeats that land while it runs are `HealthProtocol`, which follows one node record from registration to removal and omits the callback and the separate reading of the VM list.
- UnregisterNode: a heartbeat that looked its node up before the removal lands on the dropped record; no record of a later registration sees it.
- SelectTargets: two working copies may share the array behind a host's VM list in Go; here lists are values.
- VerifyEvidenceChain: rows with equal created_at are read in insertion order.
- HashesAreDistinct: SHA-256 is a parameter assumed free of collisions on the records at hand, since no function to 64 hex digits is so on all texts.
- Pointers to buckets, failover records and policies are modelled as map values, so aliasing between a map entry and a local pointer is not captured.
- Machine integers: token counts, CPU counts, memory sizes and times are unbounded; Go's overflow is not modelled.
- Whole seconds come from exact integer division, not from the rounding of `Duration.Seconds`.
- `NewRateLimiter` panics on a non-positive interval and a negative history size panics; neither is modelled.
- The REST insert of a VM and the HA host update bypass the allocation lock and are outside the capacity theorems.
- Store writes happen in full or not at all; partial database failures, timeouts and cancelled contexts are not modelled.
- One tenant and fixed host sizes; host edits while callers run are not modelled.
- Fencing: its outcome changes nothing in the pipeline, so no freedom from split brain is claimed.
- Capacity across two failovers running at once: each schedules from its own host list.
- HANA profile validation, RBAC, libvirt XML, VM import, migration job tracking, events, metrics, logging, HTTP handlers and configuration parsing: branch-by-branch facts or I/O.

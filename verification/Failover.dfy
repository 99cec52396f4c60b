/**
 internal/ha/orchestrator.go and the failover half of internal/ha/controller.go:
 the failover pipeline, its bounded history, and the controller's guard.
 */
module Failover {
  import opened Wrappers
  import opened Scheduling
  import opened BatchScheduling
  import RestartPolicy

  datatype RecordState = Detecting | Fencing | SchedulingVMs | Restarting | Complete | Failed

  datatype FailoverRecord = FailoverRecord(
    nodeID: string,
    state: RecordState,
    vmCount: nat,
    vmRestarted: nat,
    vmFailed: nat,
    startedAt: int,
    completedAt: Option<int>)
  {
    predicate Terminal() { (state == Complete || state == Failed) && completedAt.Some? }
  }

  function Detected(nodeID: string, now: int): FailoverRecord {
    FailoverRecord(nodeID, Detecting, 0, 0, 0, now, None)
  }

  // ---------- The bounded history ----------

  /** The last n elements, or all of them if there are fewer. */
  function LastN<T>(s: seq<T>, n: nat): (r: seq<T>)
    ensures |r| == if |s| <= n then |s| else n
  {
    if |s| <= n then s else s[|s| - n..]
  }

  lemma {:induction false} LastNAt<T>(s: seq<T>, n: nat, j: nat)
    requires j < |LastN(s, n)|
    ensures LastN(s, n)[j] == s[|s| - |LastN(s, n)| + j]
  {
  }

  function AddToHistory<T>(history: seq<T>, record: T, maxHistory: nat): seq<T> {
    var longer := history + [record];
    if |longer| > maxHistory then longer[|longer| - maxHistory..] else longer
  }

  /** GetFailoverHistory: a limit of zero or less, or beyond the length, means everything. */
  function Recent<T>(history: seq<T>, limit: int): seq<T> {
    LastN(history, if limit <= 0 || limit > |history| then |history| else limit)
  }

  /** Appending to the bounded history is appending to the whole log and cutting. */
  lemma {:induction false} HistoryStep<T>(log: seq<T>, record: T, maxHistory: nat)
    ensures AddToHistory(LastN(log, maxHistory), record, maxHistory) == LastN(log + [record], maxHistory)
  {
    var h := LastN(log, maxHistory);
    assert log == log[..|log| - |h|] + h;
    assert log + [record] == log[..|log| - |h|] + (h + [record]);
  }

  /** Every finished failover recorded in order. */
  function Recorded<T>(records: seq<T>, maxHistory: nat): seq<T> {
    if records == [] then []
    else AddToHistory(Recorded(records[..|records| - 1], maxHistory), records[|records| - 1], maxHistory)
  }

  /**
   The bounded history always is the last maxHistory entries of the unbounded
   log, and a query for the last `limit` entries returns that much of the log.
   */
  lemma {:induction false} HistoryIsLogSuffix<T>(log: seq<T>, maxHistory: nat, limit: int)
    ensures Recorded(log, maxHistory) == LastN(log, maxHistory)
    ensures Recent(Recorded(log, maxHistory), limit)
        == LastN(log, if 0 < limit <= maxHistory then limit else maxHistory)
  {
    RecordedIsLastN(log, maxHistory);
    if 0 < limit <= maxHistory {
      assert LastN(LastN(log, maxHistory), limit) == LastN(log, limit);
    }
  }

  lemma {:induction false} RecordedIsLastN<T>(log: seq<T>, maxHistory: nat)
    ensures Recorded(log, maxHistory) == LastN(log, maxHistory)
  {
    if log != [] {
      var front := log[..|log| - 1];
      RecordedIsLastN(front, maxHistory);
      HistoryStep(front, log[|log| - 1], maxHistory);
      assert front + [log[|log| - 1]] == log;
    }
  }

  // ---------- Searching the history ----------

  predicate Matches(r: FailoverRecord, nodeID: string, since: int) {
    r.nodeID == nodeID && r.startedAt >= since
  }

  /** The latest matching record. */
  function FindLast(history: seq<FailoverRecord>, nodeID: string, since: int): Option<FailoverRecord> {
    if history == [] then None
    else if Matches(history[|history| - 1], nodeID, since) then Some(history[|history| - 1])
    else FindLast(history[..|history| - 1], nodeID, since)
  }

  lemma {:induction false} FindLastIs(history: seq<FailoverRecord>, nodeID: string, since: int, k: nat)
    requires k < |history| && Matches(history[k], nodeID, since)
    requires forall j | k < j < |history| :: !Matches(history[j], nodeID, since)
    ensures FindLast(history, nodeID, since) == Some(history[k])
  {
    if k < |history| - 1 {
      FindLastIs(history[..|history| - 1], nodeID, since, k);
    }
  }

  lemma {:induction false} FindLastNone(history: seq<FailoverRecord>, nodeID: string, since: int)
    requires forall j | 0 <= j < |history| :: !Matches(history[j], nodeID, since)
    ensures FindLast(history, nodeID, since) == None
  {
    if history != [] {
      FindLastNone(history[..|history| - 1], nodeID, since);
    }
  }

  // ---------- The pipeline ----------

  /**
   What the providers answer during one failover: the VMs on the failed host,
   each VM's HA mode (absent when the lookup fails), the host list, and for
   which VMs the host update and the start succeed.
   */
  datatype Answers = Answers(
    vms: Option<seq<VM>>,
    modes: map<string, RestartPolicy.HAMode>,
    hosts: Option<seq<Host>>,
    updates: set<string>,
    starts: set<string>,
    hasRestarter: bool)
  {
    predicate Restarts(vm: VM) { vm.id in updates && (hasRestarter ==> vm.id in starts) }
  }

  datatype Outcome = Done | AlreadyInProgress | GetVMsFailed | ListHostsFailed | NoTargets | ScheduleFailed

  /** A host update that reached the database. */
  datatype Move = Move(vm: string, host: string)

  function AutoVMs(vms: seq<VM>, modes: map<string, RestartPolicy.HAMode>): seq<VM> {
    if vms == [] then []
    else
      var front, last := vms[..|vms| - 1], vms[|vms| - 1];
      AutoVMs(front, modes)
      + (if last.id in modes && (modes[last.id] == RestartPolicy.Auto || modes[last.id] == RestartPolicy.MaxOne)
         then [last] else [])
  }

  /** Just the VMs whose policy was found and is neither manual nor never, each as often as given. */
  lemma {:induction false} AutoVMsAre(vms: seq<VM>, modes: map<string, RestartPolicy.HAMode>, vm: VM)
    ensures multiset(AutoVMs(vms, modes))[vm]
         == if vm.id in modes && modes[vm.id] != RestartPolicy.Manual && modes[vm.id] != RestartPolicy.Never
            then multiset(vms)[vm] else 0
  {
    if vms != [] {
      AutoVMsAre(vms[..|vms| - 1], modes, vm);
      assert vms == vms[..|vms| - 1] + [vms[|vms| - 1]];
    }
  }

  lemma {:induction false} AutoMembers(vms: seq<VM>, modes: map<string, RestartPolicy.HAMode>)
    ensures forall vm :: vm in AutoVMs(vms, modes) <==>
              vm in vms && vm.id in modes && modes[vm.id] != RestartPolicy.Manual && modes[vm.id] != RestartPolicy.Never
  {
    forall vm
      ensures vm in AutoVMs(vms, modes) <==>
                vm in vms && vm.id in modes && modes[vm.id] != RestartPolicy.Manual
                    && modes[vm.id] != RestartPolicy.Never
    {
      AutoVMsAre(vms, modes, vm);
      assert vm in AutoVMs(vms, modes) <==> vm in multiset(AutoVMs(vms, modes));
      assert vm in vms <==> vm in multiset(vms);
    }
  }

  predicate IsTarget(h: Host, nodeID: string) { h.id != nodeID && !h.maintenance }

  function Targets(hosts: seq<Host>, nodeID: string): seq<Host> {
    if hosts == [] then []
    else
      var front, last := hosts[..|hosts| - 1], hosts[|hosts| - 1];
      Targets(front, nodeID) + (if IsTarget(last, nodeID) then [last] else [])
  }

  lemma {:induction false} TargetsAre(hosts: seq<Host>, nodeID: string)
    ensures forall h :: h in Targets(hosts, nodeID) <==> h in hosts && h.id != nodeID && !h.maintenance
    ensures DistinctIDs(hosts) ==> DistinctIDs(Targets(hosts, nodeID))
  {
    if hosts != [] {
      var front, last := hosts[..|hosts| - 1], hosts[|hosts| - 1];
      TargetsAre(front, nodeID);
      assert forall h :: h in hosts <==> h in front || h == last by { assert hosts == front + [last]; }
      if DistinctIDs(hosts) {
        forall i | 0 <= i < |Targets(front, nodeID)| ensures Targets(front, nodeID)[i].id != last.id {
          assert Targets(front, nodeID)[i] in front;
          var k :| 0 <= k < |front| && front[k] == Targets(front, nodeID)[i];
          assert hosts[k].id != last.id;
        }
      }
    }
  }

  /** The moves of the restart loop: each VM in turn to its assigned host, unless the update fails. */
  function Moves(vms: seq<VM>, assignments: map<string, Host>, a: Answers): seq<Move>
    requires forall vm | vm in vms :: vm.id in assignments
  {
    if vms == [] then []
    else
      var front, last := vms[..|vms| - 1], vms[|vms| - 1];
      Moves(front, assignments, a) + (if last.id in a.updates then [Move(last.id, assignments[last.id].id)] else [])
  }

  function RestartedCount(vms: seq<VM>, a: Answers): (n: nat)
    ensures n <= |vms|
  {
    if vms == [] then 0
    else RestartedCount(vms[..|vms| - 1], a) + (if a.Restarts(vms[|vms| - 1]) then 1 else 0)
  }

  /** A healthy host of the list that is neither the failed node nor in maintenance. */
  predicate Healthy(hosts: seq<Host>, nodeID: string, id: string) {
    exists h | h in hosts :: h.id == id && IsTarget(h, nodeID) && (h.status == "online" || h.status == "active")
  }

  lemma {:induction false} PlaceKeepsIdentity(states: seq<Host>, vm: VM, id: string, i: nat)
    requires i < |states|
    ensures var h := Place(states, vm, id)[i];
            h.id == states[i].id && h.status == states[i].status && h.maintenance == states[i].maintenance
  {
    if states[0].id != id && i > 0 {
      PlaceKeepsIdentity(states[1..], vm, id, i - 1);
    }
  }

  lemma {:induction false} StatesKeepIdentity(hosts: seq<Host>, vms: seq<VM>, trail: seq<Host>, i: nat)
    requires |trail| <= |vms| && i < |hosts|
    ensures var h := StatesAfter(hosts, vms, trail)[i];
            h.id == hosts[i].id && h.status == hosts[i].status && h.maintenance == hosts[i].maintenance
    decreases |trail|
  {
    if trail != [] {
      var n := |trail| - 1;
      StatesKeepIdentity(hosts, vms, trail[..n], i);
      PlaceKeepsIdentity(StatesAfter(hosts, vms, trail[..n]), vms[n], trail[n].id, i);
    }
  }

  lemma {:induction false} ChosenIsHealthy(all: seq<Host>, nodeID: string, vms: seq<VM>, policy: Policy,
      trail: seq<Host>)
    requires 0 < |trail| <= |vms| && Greedy(Targets(all, nodeID), vms, policy, trail)
    ensures Healthy(all, nodeID, trail[|trail| - 1].id)
  {
    var hosts, n := Targets(all, nodeID), |trail| - 1;
    var states := StatesAfter(hosts, vms, trail[..n]);
    var i :| 0 <= i < |states| && states[i] == trail[n];
    StatesKeepIdentity(hosts, vms, trail[..n], i);
    TargetsAre(all, nodeID);
    assert hosts[i] in hosts;
  }

  /** Greedy placement assigns every VM a healthy host of the original list. */
  lemma {:induction false} AssignedAreHealthy(all: seq<Host>, nodeID: string, vms: seq<VM>, policy: Policy,
      trail: seq<Host>)
    requires |trail| <= |vms| && Greedy(Targets(all, nodeID), vms, policy, trail)
    ensures forall k | 0 <= k < |trail| :: vms[k].id in Assigned(vms, trail)
    ensures forall id | id in Assigned(vms, trail) :: Healthy(all, nodeID, Assigned(vms, trail)[id].id)
    decreases |trail|
  {
    if trail != [] {
      AssignedAreHealthy(all, nodeID, vms, policy, trail[..|trail| - 1]);
      ChosenIsHealthy(all, nodeID, vms, policy, trail);
    }
  }

  class Orchestrator {
    var activeFailovers: map<string, FailoverRecord>
    var history: seq<FailoverRecord>
    const maxHistory: nat
    const policy: Policy
    var moves: seq<Move>  // the host updates written so far

    constructor (maxHistory: nat, policy: Policy)
      ensures this.maxHistory == (if maxHistory == 0 then 100 else maxHistory) && this.policy == policy
      ensures activeFailovers == map[] && history == [] && moves == []
    {
      this.maxHistory := if maxHistory == 0 then 100 else maxHistory;
      this.policy := policy;
      activeFailovers, history, moves := map[], [], [];
    }

    method GetFailoverHistory(limit: int) returns (result: seq<FailoverRecord>)
      ensures result == Recent(history, limit)
    {
      var n := limit;
      if n <= 0 || n > |history| {
        n := |history|;
      }
      var start := |history| - n;
      result := history[start..];
    }

    method RecordFinished(record: FailoverRecord)
      modifies this`history
      ensures history == AddToHistory(old(history), record, maxHistory)
    {
      history := history + [record];
      if |history| > maxHistory {
        history := history[|history| - maxHistory..];
      }
    }

    method CompleteFailover(record: FailoverRecord, total: nat, restarted: nat, failed: nat, now: int)
      returns (done: FailoverRecord)
      modifies this`activeFailovers, this`history
      ensures done == record.(
                state := Complete, vmCount := total, vmRestarted := restarted, vmFailed := failed,
                completedAt := Some(now))
      ensures activeFailovers == old(activeFailovers) - {record.nodeID}
      ensures history == AddToHistory(old(history), done, maxHistory)
    {
      done := record.(state := Complete, vmCount := total, vmRestarted := restarted, vmFailed := failed,
          completedAt := Some(now));
      activeFailovers := activeFailovers - {record.nodeID};
      RecordFinished(done);
    }

    method FailFailover(record: FailoverRecord, now: int) returns (done: FailoverRecord)
      modifies this`activeFailovers, this`history
      ensures done == record.(state := Failed, completedAt := Some(now))
      ensures activeFailovers == old(activeFailovers) - {record.nodeID}
      ensures history == AddToHistory(old(history), done, maxHistory)
    {
      done := record.(state := Failed, completedAt := Some(now));
      activeFailovers := activeFailovers - {record.nodeID};
      RecordFinished(done);
    }

    method SelectAutoVMs(vms: seq<VM>, modes: map<string, RestartPolicy.HAMode>) returns (autoVMs: seq<VM>)
      ensures autoVMs == AutoVMs(vms, modes)
      ensures forall vm :: vm in autoVMs <==>
                vm in vms && vm.id in modes && modes[vm.id] != RestartPolicy.Manual
                    && modes[vm.id] != RestartPolicy.Never
    {
      autoVMs := [];
      for i := 0 to |vms|
        invariant autoVMs == AutoVMs(vms[..i], modes)
      {
        assert vms[..i + 1][..i] == vms[..i];
        if vms[i].id !in modes {
          continue;
        }
        var mode := modes[vms[i].id];
        if mode == RestartPolicy.Auto || mode == RestartPolicy.MaxOne {
          autoVMs := autoVMs + [vms[i]];
        }
      }
      assert vms[..|vms|] == vms;
      AutoMembers(vms, modes);
    }

    method SelectTargetHosts(hosts: seq<Host>, nodeID: string) returns (targets: seq<Host>)
      ensures targets == Targets(hosts, nodeID)
      ensures forall h :: h in targets <==> h in hosts && h.id != nodeID && !h.maintenance
    {
      targets := [];
      for i := 0 to |hosts|
        invariant targets == Targets(hosts[..i], nodeID)
      {
        assert hosts[..i + 1][..i] == hosts[..i];
        if hosts[i].id == nodeID {
          continue;
        }
        if hosts[i].maintenance {
          continue;
        }
        targets := targets + [hosts[i]];
      }
      assert hosts[..|hosts|] == hosts;
      TargetsAre(hosts, nodeID);
    }

    /** RestartVMs for one VM. */
    method RestartVM(vm: VM, target: Host, a: Answers) returns (ok: bool)
      modifies this`moves
      ensures ok == a.Restarts(vm)
      ensures moves == old(moves) + if vm.id in a.updates then [Move(vm.id, target.id)] else []
    {
      if vm.id !in a.updates {
        return false;
      }
      moves := moves + [Move(vm.id, target.id)];
      if a.hasRestarter {
        if vm.id !in a.starts {
          return false;
        }
      }
      return true;
    }

    /** Step 5 of the pipeline. Every VM has a target, so none is skipped. */
    method RestartAll(autoVMs: seq<VM>, assignments: map<string, Host>, a: Answers)
      returns (restarted: nat, failed: nat)
      requires forall vm | vm in autoVMs :: vm.id in assignments
      modifies this`moves
      ensures restarted == RestartedCount(autoVMs, a) && restarted + failed == |autoVMs|
      ensures moves == old(moves) + Moves(autoVMs, assignments, a)
    {
      restarted, failed := 0, 0;
      for i := 0 to |autoVMs|
        invariant restarted == RestartedCount(autoVMs[..i], a) && restarted + failed == i
        invariant moves == old(moves) + Moves(autoVMs[..i], assignments, a)
      {
        var vm := autoVMs[i];
        assert autoVMs[..i + 1][..i] == autoVMs[..i];
        if vm.id !in assignments {
          assert false;
        }
        var ok := RestartVM(vm, assignments[vm.id], a);
        if !ok {
          failed := failed + 1;
        } else {
          restarted := restarted + 1;
        }
      }
      assert autoVMs[..|autoVMs|] == autoVMs;
    }

    /** Step 4: a healthy host for every VM, or none for any. */
    method Schedule(nodeID: string, vms: seq<VM>, ghost all: seq<Host>, targets: seq<Host>)
      returns (assignments: Option<map<string, Host>>)
      requires targets == Targets(all, nodeID)
      ensures assignments.Some? ==> Relocated(vms, nodeID, all, assignments.value)
      ensures assignments.Some? ==> Scheduled(vms, targets, policy, assignments.value)
      ensures assignments == None && vms != [] && targets != [] ==> CannotPlace(vms, targets, policy)
    {
      var scheduled;
      ghost var trail;
      scheduled, trail := SelectTargets(vms, targets, policy);
      if !scheduled.Ok? {
        assert StuckAt(vms, targets, policy, trail);
        return None;
      }
      AllAssigned(all, nodeID, vms, policy, trail);
      return Some(scheduled.value);
    }

    /** Steps 4 and 5 on the target hosts. */
    method ScheduleAndRestart(rec: FailoverRecord, autoVMs: seq<VM>, ghost all: seq<Host>, targets: seq<Host>,
        finished: int, a: Answers)
      returns (r: Outcome, done: FailoverRecord, ghost assignments: map<string, Host>)
      requires targets == Targets(all, rec.nodeID)
      modifies this
      ensures r == Done || r == ScheduleFailed
      ensures activeFailovers == old(activeFailovers) - {rec.nodeID}
      ensures history == AddToHistory(old(history), done, maxHistory)
      ensures done.nodeID == rec.nodeID && done.startedAt == rec.startedAt && done.Terminal()
          && (done.state == Complete <==> r == Done)
      ensures r != Done ==> moves == old(moves)
      ensures r == Done ==> Accounted(done, autoVMs, a) && Relocated(autoVMs, rec.nodeID, all, assignments)
      ensures r == Done ==> Scheduled(autoVMs, targets, policy, assignments)
      ensures r == Done ==> moves == old(moves) + Moves(autoVMs, assignments, a)
      ensures r == ScheduleFailed && autoVMs != [] && targets != [] ==> CannotPlace(autoVMs, targets, policy)
    {
      assignments := map[];
      activeFailovers := activeFailovers[rec.nodeID := rec.(state := SchedulingVMs)];
      var scheduled := Schedule(rec.nodeID, autoVMs, all, targets);
      if scheduled == None {
        done := FailFailover(rec, finished);
        return ScheduleFailed, done, assignments;
      }

      activeFailovers := activeFailovers[rec.nodeID := rec.(state := Restarting)];
      assignments := scheduled.value;
      var restarted, failed := RestartAll(autoVMs, scheduled.value, a);
      if DistinctVMs(autoVMs) {
        RestartedCountIs(autoVMs, a);
      }
      done := CompleteFailover(rec, |autoVMs|, restarted, failed, finished);
      return Done, done, assignments;
    }

    /**
     Steps 3 to 5: list the hosts, schedule, restart. The node's record leaves
     the active map and enters the history whatever happens.
     */
    method Relocate(rec: FailoverRecord, autoVMs: seq<VM>, finished: int, a: Answers)
      returns (r: Outcome, done: FailoverRecord, ghost assignments: map<string, Host>)
      requires rec.vmCount == |autoVMs|
      modifies this
      ensures r == Done || r == ListHostsFailed || r == NoTargets || r == ScheduleFailed
      ensures activeFailovers == old(activeFailovers) - {rec.nodeID}
      ensures history == AddToHistory(old(history), done, maxHistory)
      ensures done.nodeID == rec.nodeID && done.startedAt == rec.startedAt && done.Terminal()
          && (done.state == Complete <==> r == Done)
      ensures r != Done ==> moves == old(moves)
      ensures r == Done ==> a.hosts.Some? && Accounted(done, autoVMs, a)
      ensures r == Done ==> Relocated(autoVMs, rec.nodeID, a.hosts.value, assignments)
      ensures r == Done ==> Scheduled(autoVMs, Targets(a.hosts.value, rec.nodeID), policy, assignments)
      ensures r == Done ==> moves == old(moves) + Moves(autoVMs, assignments, a)
      ensures r == ListHostsFailed <==> a.hosts == None
      ensures r == NoTargets <==> a.hosts.Some? && forall h | h in a.hosts.value :: h.id == rec.nodeID || h.maintenance
      ensures r == ScheduleFailed && autoVMs != [] ==>
                CannotPlace(autoVMs, Targets(a.hosts.value, rec.nodeID), policy)
    {
      assignments := map[];
      var nodeID := rec.nodeID;
      if a.hosts == None {
        done := FailFailover(rec, finished);
        return ListHostsFailed, done, assignments;
      }
      var targets := SelectTargetHosts(a.hosts.value, nodeID);
      if |targets| == 0 {
        done := FailFailover(rec, finished);
        return NoTargets, done, assignments;
      }
      assert targets[0] in a.hosts.value && targets[0].id != nodeID && !targets[0].maintenance by {
        assert targets[0] in targets;
      }

      r, done, assignments := ScheduleAndRestart(rec, autoVMs, a.hosts.value, targets, finished, a);
    }

    /** Steps 1 to 5 for a node that has just been entered as active. */
    method Recover(rec: FailoverRecord, finished: int, a: Answers)
      returns (r: Outcome, done: FailoverRecord, ghost assignments: map<string, Host>)
      requires rec.state == Detecting && rec.vmCount == rec.vmRestarted == rec.vmFailed == 0
      modifies this
      ensures r != AlreadyInProgress
      ensures activeFailovers == old(activeFailovers) - {rec.nodeID}
      ensures history == AddToHistory(old(history), done, maxHistory)
      ensures done.nodeID == rec.nodeID && done.startedAt == rec.startedAt && done.Terminal()
          && (done.state == Complete <==> r == Done)
      ensures Recovered(r, done, a, policy, old(moves), moves, assignments)
    {
      assignments := map[];
      if a.vms == None {
        done := FailFailover(rec, finished);
        return GetVMsFailed, done, assignments;
      }
      if |a.vms.value| == 0 {
        done := CompleteFailover(rec, 0, 0, 0, finished);
        NothingToRestart(done, a, policy, moves, assignments);
        return Done, done, assignments;
      }
      var autoVMs := SelectAutoVMs(a.vms.value, a.modes);
      SomeAutoIff(a);
      var counted := rec.(vmCount := |autoVMs|);
      if |autoVMs| == 0 {
        done := CompleteFailover(counted, 0, 0, 0, finished);
        NothingToRestart(done, a, policy, moves, assignments);
        return Done, done, assignments;
      }

      // A fencing failure is logged and the failover goes on.
      var fencing := counted.(state := Fencing);
      activeFailovers := activeFailovers[rec.nodeID := fencing];
      r, done, assignments := Relocate(fencing, autoVMs, finished, a);
      if r == Done {
        WhatWasDone(done, a, policy, old(moves), moves, assignments);
      }
    }

    /**
     The whole failover of one node. A node already being failed over is refused
     and nothing changes. Otherwise exactly one terminal record is added, the
     node is no longer active, and Recovered says how it went.
     */
    method HandleHostFailure(nodeID: string, started: int, finished: int, a: Answers)
      returns (r: Outcome, ghost record: FailoverRecord, ghost assignments: map<string, Host>)
      modifies this
      ensures r == AlreadyInProgress <==> nodeID in old(activeFailovers)
      ensures r == AlreadyInProgress ==> unchanged(this)
      ensures activeFailovers == old(activeFailovers)
      ensures r != AlreadyInProgress ==> history == AddToHistory(old(history), record, maxHistory)
      ensures r != AlreadyInProgress ==>
                record.nodeID == nodeID && record.startedAt == started && record.Terminal()
                    && (record.state == Complete <==> r == Done)
      ensures r != AlreadyInProgress ==> Recovered(r, record, a, policy, old(moves), moves, assignments)
    {
      assignments := map[];
      if nodeID in activeFailovers {
        return AlreadyInProgress, Detected(nodeID, started), assignments;
      }
      var rec := Detected(nodeID, started);
      activeFailovers := activeFailovers[nodeID := rec];
      assert activeFailovers - {nodeID} == old(activeFailovers);
      r, record, assignments := Recover(rec, finished, a);
    }
  }

  /** How a completed failover with automatic VMs accounts for them and where it moved them. */
  ghost predicate Completed(record: FailoverRecord, a: Answers, policy: Policy, autoVMs: seq<VM>,
      made: seq<Move>, assignments: map<string, Host>) {
    && a.hosts.Some? && Relocated(autoVMs, record.nodeID, a.hosts.value, assignments)
    && made == Moves(autoVMs, assignments, a)
    && Carried(made, autoVMs, a, policy, assignments)
    && (DistinctVMs(autoVMs) ==> SafeMoves(made, autoVMs, record.nodeID, a.hosts))
  }

  /** When each outcome of a failover that was not refused arises, and what it leaves done. */
  ghost predicate Recovered(r: Outcome, record: FailoverRecord, a: Answers, policy: Policy,
      before: seq<Move>, after: seq<Move>, assignments: map<string, Host>) {
    && (r == GetVMsFailed <==> a.vms == None)
    && (r == ListHostsFailed <==> a.vms.Some? && SomeAuto(a) && a.hosts == None)
    && (r == NoTargets <==>
          && a.vms.Some? && SomeAuto(a) && a.hosts.Some?
          && forall h | h in a.hosts.value :: h.id == record.nodeID || h.maintenance)
    && (r == ScheduleFailed ==>
          && a.vms.Some? && SomeAuto(a) && a.hosts.Some?
          && CannotPlace(AutoVMs(a.vms.value, a.modes), Targets(a.hosts.value, record.nodeID), policy))
    && (r != Done ==> after == before)
    && (r == Done ==>
          && a.vms.Some?
          && var autoVMs := AutoVMs(a.vms.value, a.modes);
             && Accounted(record, autoVMs, a)
             && |before| <= |after| && after[..|before|] == before
             && (!SomeAuto(a) ==> after == before)
             && (SomeAuto(a) ==> Completed(record, a, policy, autoVMs, after[|before|..], assignments)))
  }

  lemma {:induction false} SomeAutoIff(a: Answers)
    requires a.vms.Some?
    ensures SomeAuto(a) <==> AutoVMs(a.vms.value, a.modes) != []
  {
    var autoVMs := AutoVMs(a.vms.value, a.modes);
    AutoMembers(a.vms.value, a.modes);
    assert autoVMs != [] ==> autoVMs[0] in autoVMs;
  }

  lemma {:induction false} NothingToRestart(record: FailoverRecord, a: Answers, policy: Policy, moves: seq<Move>,
      assignments: map<string, Host>)
    requires a.vms.Some? && AutoVMs(a.vms.value, a.modes) == []
    requires record.vmCount == record.vmRestarted == record.vmFailed == 0
    ensures Recovered(Done, record, a, policy, moves, moves, assignments)
  {
    SomeAutoIff(a);
    assert Restarted([], a) == {};
  }

  lemma {:induction false} WhatWasDone(record: FailoverRecord, a: Answers, policy: Policy,
      before: seq<Move>, after: seq<Move>, assignments: map<string, Host>)
    requires a.vms.Some? && a.hosts.Some?
    requires Relocated(AutoVMs(a.vms.value, a.modes), record.nodeID, a.hosts.value, assignments)
    requires Scheduled(AutoVMs(a.vms.value, a.modes), Targets(a.hosts.value, record.nodeID), policy, assignments)
    requires after == before + Moves(AutoVMs(a.vms.value, a.modes), assignments, a)
    ensures |before| <= |after| && after[..|before|] == before
    ensures Completed(record, a, policy, AutoVMs(a.vms.value, a.modes), after[|before|..], assignments)
  {
    var autoVMs := AutoVMs(a.vms.value, a.modes);
    assert after[|before|..] == Moves(autoVMs, assignments, a);
    CarryOver(a.vms.value, a, record.nodeID, policy, assignments);
    if DistinctVMs(autoVMs) {
      MovesAreSafe(autoVMs, assignments, a, record.nodeID, a.hosts.value);
    }
  }

  /** The scheduler's promises about an assignment, on the hosts it was given. */
  ghost predicate Scheduled(vms: seq<VM>, targets: seq<Host>, policy: Policy, assignments: map<string, Host>) {
    DistinctIDs(targets) && DistinctVMs(vms) ==>
      && (Positive(vms) ==> FitsBatch(vms, targets, assignments))
      && (policy.antiAffinityEnabled ==> ApartBatch(vms, targets, assignments))
  }

  /** After these placements, each on a host that took it, no host takes the next VM. */
  ghost predicate StuckAt(vms: seq<VM>, targets: seq<Host>, policy: Policy, trail: seq<Host>) {
    && |trail| < |ByMemory(vms)|
    && (DistinctIDs(targets) && Positive(vms) ==>
          && TakenInTurn(targets, ByMemory(vms), policy, trail)
          && NoneTakes(targets, ByMemory(vms), policy, trail, ByMemory(vms)[|trail|]))
  }

  ghost predicate CannotPlace(vms: seq<VM>, targets: seq<Host>, policy: Policy) {
    exists trail :: StuckAt(vms, targets, policy, trail)
  }

  /** The VMs whose host update succeeded and, if there is a restarter, whose start did too. */
  ghost function Restarted(autoVMs: seq<VM>, a: Answers): set<string> {
    set vm | vm in autoVMs && vm.id in a.updates && (a.hasRestarter ==> vm.id in a.starts) :: vm.id
  }

  lemma {:induction false} RestartedSnoc(front: seq<VM>, last: VM, a: Answers)
    ensures Restarted(front + [last], a) == Restarted(front, a) + Restarted([last], a)
    ensures Restarted([last], a)
         == if last.id in a.updates && (a.hasRestarter ==> last.id in a.starts) then {last.id} else {}
  {
    assert forall vm :: vm in front + [last] <==> vm in front || vm in [last];
    assert forall vm :: vm in [last] <==> vm == last;
  }

  lemma {:induction false} RestartedCountIs(autoVMs: seq<VM>, a: Answers)
    requires DistinctVMs(autoVMs)
    ensures RestartedCount(autoVMs, a) == |Restarted(autoVMs, a)|
  {
    if autoVMs != [] {
      var front, last := autoVMs[..|autoVMs| - 1], autoVMs[|autoVMs| - 1];
      assert autoVMs == front + [last];
      RestartedCountIs(front, a);
      RestartedSnoc(front, last, a);
      assert last.id !in Restarted(front, a);
    }
  }

  /** Every automatic VM is counted once, as restarted or as failed. */
  ghost predicate Accounted(record: FailoverRecord, autoVMs: seq<VM>, a: Answers) {
    && record.vmCount == |autoVMs| == record.vmRestarted + record.vmFailed
    && record.vmRestarted == RestartedCount(autoVMs, a)
    && (DistinctVMs(autoVMs) ==> record.vmRestarted == |Restarted(autoVMs, a)|)
  }

  /** Every automatic VM has a healthy host assigned. */
  predicate Relocated(autoVMs: seq<VM>, nodeID: string, hosts: seq<Host>, assignments: map<string, Host>) {
    forall vm | vm in autoVMs :: vm.id in assignments && Healthy(hosts, nodeID, assignments[vm.id].id)
  }

  lemma {:induction false} AllAssigned(all: seq<Host>, nodeID: string, vms: seq<VM>, policy: Policy, trail: seq<Host>)
    requires |trail| == |ByMemory(vms)| && Greedy(Targets(all, nodeID), ByMemory(vms), policy, trail)
    ensures Relocated(vms, nodeID, all, Assigned(ByMemory(vms), trail))
  {
    ByMemorySorts(vms);
    AssignedAreHealthy(all, nodeID, ByMemory(vms), policy, trail);
    forall vm | vm in vms ensures vm.id in Assigned(ByMemory(vms), trail) {
      assert vm in multiset(ByMemory(vms));
    }
  }

  // ---------- Each VM moves at most once ----------

  lemma {:induction false} AutoVMsStayDistinct(vms: seq<VM>, modes: map<string, RestartPolicy.HAMode>)
    requires DistinctVMs(vms)
    ensures DistinctVMs(AutoVMs(vms, modes)) && forall vm | vm in AutoVMs(vms, modes) :: vm in vms
  {
    if vms != [] {
      var front, last := vms[..|vms| - 1], vms[|vms| - 1];
      AutoVMsStayDistinct(front, modes);
      forall vm | vm in AutoVMs(front, modes) ensures vm.id != last.id && vm in vms {
        var k :| 0 <= k < |front| && front[k] == vm;
        assert vms[k] == vm;
      }
    }
  }

  /** The moves name each VM at most once, only VMs of the list, and send each to a healthy host. */
  ghost predicate SafeMoves(moves: seq<Move>, vms: seq<VM>, nodeID: string, hosts: Option<seq<Host>>) {
    && (forall i, j | 0 <= i < j < |moves| :: moves[i].vm != moves[j].vm)
    && (forall i | 0 <= i < |moves| :: Named(vms, moves[i].vm))
    && (forall i | 0 <= i < |moves| :: hosts.Some? && Healthy(hosts.value, nodeID, moves[i].host))
  }

  lemma {:induction false} MovesAreSafe(vms: seq<VM>, assignments: map<string, Host>, a: Answers, nodeID: string,
      hosts: seq<Host>)
    requires DistinctVMs(vms) && Relocated(vms, nodeID, hosts, assignments)
    ensures SafeMoves(Moves(vms, assignments, a), vms, nodeID, Some(hosts))
  {
    if vms != [] {
      var front, last := vms[..|vms| - 1], vms[|vms| - 1];
      MovesAreSafe(front, assignments, a, nodeID, hosts);
      var ms := Moves(front, assignments, a);
      assert forall vm | vm in front :: vm in vms;
      forall i | 0 <= i < |ms| ensures ms[i].vm != last.id && Named(vms, ms[i].vm) {
        assert Named(front, ms[i].vm);
      }
      assert last in vms;
    }
  }

  // ---------- The moves carry out the schedule ----------

  /** Some VM on the failed host restarts automatically. */
  predicate SomeAuto(a: Answers)
    requires a.vms.Some?
  {
    exists vm | vm in a.vms.value ::
      vm.id in a.modes && a.modes[vm.id] != RestartPolicy.Manual && a.modes[vm.id] != RestartPolicy.Never
  }

  /** The VM was moved to the host. */
  predicate Moved(moves: seq<Move>, vm: VM, host: string) { Move(vm.id, host) in moves }

  /** A move is made exactly for each VM whose host update succeeds, to the host assigned to that VM. */
  ghost predicate FollowsAssignment(moves: seq<Move>, vms: seq<VM>, a: Answers, assignments: map<string, Host>) {
    forall v, h :: Move(v, h) in moves <==>
      Named(vms, v) && v in a.updates && v in assignments && h == assignments[v].id
  }

  lemma {:induction false} MovesFollow(vms: seq<VM>, assignments: map<string, Host>, a: Answers)
    requires forall vm | vm in vms :: vm.id in assignments
    ensures FollowsAssignment(Moves(vms, assignments, a), vms, a, assignments)
  {
    if vms != [] {
      var front, last := vms[..|vms| - 1], vms[|vms| - 1];
      MovesFollow(front, assignments, a);
      assert forall vm :: vm in vms <==> vm in front || vm == last by { assert vms == front + [last]; }
      forall v ensures Named(vms, v) <==> Named(front, v) || v == last.id {
        assert last in vms;
      }
    }
  }

  /** What the VMs moved to one host ask of it. */
  function MovedTotal(vms: seq<VM>, moves: seq<Move>, host: string, size: Size): int {
    if vms == [] then 0
    else (if Moved(moves, vms[0], host) then Needs(vms[0], size) else 0) + MovedTotal(vms[1..], moves, host, size)
  }

  lemma {:induction false} MovedAtMostAssigned(
    vms: seq<VM>, moves: seq<Move>, r: map<string, Host>, host: string, size: Size)
    requires forall v, h | Move(v, h) in moves :: v in r && r[v].id == h
    requires Positive(vms)
    ensures 0 <= MovedTotal(vms, moves, host, size) <= AssignedTotal(vms, r, host, size)
    ensures MovedTotal(vms, moves, host, size) > 0 ==> exists vm | vm in vms :: Moved(moves, vm, host)
  {
    if vms != [] {
      assert forall vm | vm in vms[1..] :: vm in vms;
      assert vms[0] in vms;
      MovedAtMostAssigned(vms[1..], moves, r, host, size);
    }
  }

  /** What a failover sends to a host fits the host's memory and twice its CPUs. */
  ghost predicate FitsMoves(vms: seq<VM>, moves: seq<Move>, hosts: seq<Host>) {
    forall h | h in hosts ::
      && (MovedTotal(vms, moves, h.id, Memory) > 0 ==>
            h.memoryUsed + MovedTotal(vms, moves, h.id, Memory) <= h.memoryTotal)
      && (MovedTotal(vms, moves, h.id, CPUs) > 0 ==> MovedTotal(vms, moves, h.id, CPUs) <= 2 * h.cpuCount)
  }

  /** And it puts no VM beside a listed one that runs there or was placed before it. */
  ghost predicate ApartMoves(vms: seq<VM>, moves: seq<Move>, hosts: seq<Host>) {
    && (forall vm, h | vm in vms && h in hosts && Moved(moves, vm, h.id) :: !Conflicts(vm, h))
    && (forall j, k, host | 0 <= j < |vms| && 0 <= k < |vms| && PlacedFirst(vms, j, k)
                            && vms[j].id in vms[k].antiAffinity && Moved(moves, vms[j], host) ::
          !Moved(moves, vms[k], host))
  }

  /** The moves are the assignment's, and keep on all hosts what the scheduler promised on its own. */
  ghost predicate Carried(moves: seq<Move>, vms: seq<VM>, a: Answers, policy: Policy, assignments: map<string, Host>) {
    && FollowsAssignment(moves, vms, a, assignments)
    && (a.hosts.Some? && DistinctIDs(a.hosts.value) && DistinctVMs(vms) ==>
          && (Positive(vms) ==> FitsMoves(vms, moves, a.hosts.value))
          && (policy.antiAffinityEnabled ==> ApartMoves(vms, moves, a.hosts.value)))
  }

  lemma {:induction false} MovedToTarget(
    vms: seq<VM>, moves: seq<Move>, a: Answers, nodeID: string, assignments: map<string, Host>, vm: VM, h: Host)
    requires a.hosts.Some? && DistinctIDs(a.hosts.value) && h in a.hosts.value
    requires Relocated(vms, nodeID, a.hosts.value, assignments) && FollowsAssignment(moves, vms, a, assignments)
    requires vm in vms && Moved(moves, vm, h.id)
    ensures h in Targets(a.hosts.value, nodeID)
  {
    TargetsAre(a.hosts.value, nodeID);
    assert Healthy(a.hosts.value, nodeID, assignments[vm.id].id);
    var g :| g in a.hosts.value && g.id == h.id && IsTarget(g, nodeID);
    var i :| 0 <= i < |a.hosts.value| && a.hosts.value[i] == g;
    var j :| 0 <= j < |a.hosts.value| && a.hosts.value[j] == h;
    assert i == j;
  }

  lemma {:induction false} MovesFit(
    vms: seq<VM>, moves: seq<Move>, a: Answers, nodeID: string, assignments: map<string, Host>)
    requires a.hosts.Some? && DistinctIDs(a.hosts.value) && Positive(vms)
    requires Relocated(vms, nodeID, a.hosts.value, assignments) && FollowsAssignment(moves, vms, a, assignments)
    requires FitsBatch(vms, Targets(a.hosts.value, nodeID), assignments)
    ensures FitsMoves(vms, moves, a.hosts.value)
  {
    forall h, size: Size | h in a.hosts.value && MovedTotal(vms, moves, h.id, size) > 0
      ensures h in Targets(a.hosts.value, nodeID)
      ensures MovedTotal(vms, moves, h.id, size) <= AssignedTotal(vms, assignments, h.id, size)
    {
      MovedAtMostAssigned(vms, moves, assignments, h.id, size);
      var vm :| vm in vms && Moved(moves, vm, h.id);
      MovedToTarget(vms, moves, a, nodeID, assignments, vm, h);
    }
  }

  lemma {:induction false} MovesStayApart(
    vms: seq<VM>, moves: seq<Move>, a: Answers, nodeID: string, assignments: map<string, Host>)
    requires a.hosts.Some? && DistinctIDs(a.hosts.value)
    requires Relocated(vms, nodeID, a.hosts.value, assignments) && FollowsAssignment(moves, vms, a, assignments)
    requires ApartBatch(vms, Targets(a.hosts.value, nodeID), assignments)
    ensures ApartMoves(vms, moves, a.hosts.value)
  {
    forall vm, h | vm in vms && h in a.hosts.value && Moved(moves, vm, h.id) ensures !Conflicts(vm, h) {
      MovedToTarget(vms, moves, a, nodeID, assignments, vm, h);
    }
    forall j, k, host | 0 <= j < |vms| && 0 <= k < |vms| && PlacedFirst(vms, j, k)
                        && vms[j].id in vms[k].antiAffinity && Moved(moves, vms[j], host)
      ensures !Moved(moves, vms[k], host)
    {
      assert !Together(assignments, vms[j], vms[k]);
    }
  }

  lemma {:induction false} CarryOver(
    given: seq<VM>, a: Answers, nodeID: string, policy: Policy, assignments: map<string, Host>)
    requires a.hosts.Some? && Relocated(AutoVMs(given, a.modes), nodeID, a.hosts.value, assignments)
    requires Scheduled(AutoVMs(given, a.modes), Targets(a.hosts.value, nodeID), policy, assignments)
    ensures Carried(
              Moves(AutoVMs(given, a.modes), assignments, a), AutoVMs(given, a.modes), a, policy, assignments)
  {
    var vms := AutoVMs(given, a.modes);
    var moves := Moves(vms, assignments, a);
    MovesFollow(vms, assignments, a);
    TargetsAre(a.hosts.value, nodeID);
    if DistinctIDs(a.hosts.value) && DistinctVMs(vms) {
      if Positive(vms) {
        MovesFit(vms, moves, a, nodeID, assignments);
      }
      if policy.antiAffinityEnabled {
        MovesStayApart(vms, moves, a, nodeID, assignments);
      }
    }
  }

  // ---------- The controller's guard ----------

  class Controller {
    const orchestrator: Orchestrator
    var inFlight: set<string>

    /** Only the controller drives the orchestrator. */
    ghost predicate Valid()
      reads this, orchestrator
    {
      orchestrator.activeFailovers.Keys <= inFlight
    }

    constructor (o: Orchestrator)
      requires o.activeFailovers == map[]
      ensures Valid() && orchestrator == o && inFlight == {}
    {
      orchestrator, inFlight := o, {};
    }

    method BeginFailover(nodeID: string) returns (ok: bool)
      modifies this`inFlight
      ensures ok <==> nodeID !in old(inFlight)
      ensures inFlight == old(inFlight) + {nodeID}
    {
      if nodeID in inFlight {
        return false;
      }
      inFlight := inFlight + {nodeID};
      return true;
    }

    method EndFailover(nodeID: string)
      modifies this`inFlight
      ensures inFlight == old(inFlight) - {nodeID}
    {
      inFlight := inFlight - {nodeID};
    }

    method FindFailoverRecord(nodeID: string, since: int) returns (found: Option<FailoverRecord>)
      ensures found == FindLast(orchestrator.history, nodeID, since)
    {
      var history := orchestrator.GetFailoverHistory(0);
      assert history == orchestrator.history;
      var i := |history|;
      assert history[..i] == history;
      while i > 0
        invariant 0 <= i <= |history|
        invariant FindLast(history, nodeID, since) == FindLast(history[..i], nodeID, since)
      {
        assert history[..i][..i - 1] == history[..i - 1];
        i := i - 1;
        if history[i].nodeID == nodeID && !(history[i].startedAt < since) {
          return Some(history[i]);
        }
      }
      return None;
    }

    /**
     triggerFailover run without interference: skipped if the node is in
     flight; otherwise the orchestrator never refuses, the node is released,
     and a completed run reports its own record.
     */
    method TriggerFailover(nodeID: string, start: int, started: int, finished: int, a: Answers)
      returns (r: Outcome, found: Option<FailoverRecord>, ghost record: FailoverRecord)
      requires Valid() && start <= started && orchestrator.maxHistory > 0
      modifies this`inFlight, orchestrator
      ensures Valid() && inFlight == old(inFlight)
      ensures nodeID in old(inFlight) <==> r == AlreadyInProgress
      ensures orchestrator.activeFailovers == old(orchestrator.activeFailovers)
      ensures nodeID !in old(inFlight) ==>
                record.nodeID == nodeID && record.startedAt == started && record.Terminal()
                && (record.state == Complete <==> r == Done)
      ensures nodeID in old(inFlight) ==> unchanged(orchestrator)
      ensures nodeID !in old(inFlight) ==>
                orchestrator.history == AddToHistory(old(orchestrator.history), record, orchestrator.maxHistory)
      ensures r == Done ==> found == Some(record) && record.nodeID == nodeID && record.state == Complete
    {
      found := None;
      var ok := BeginFailover(nodeID);
      if !ok {
        return AlreadyInProgress, None, Detected(nodeID, started);
      }
      ghost var assignments;
      r, record, assignments := orchestrator.HandleHostFailure(nodeID, started, finished, a);
      if r == Done {
        found := FindFailoverRecord(nodeID, start);
        FindLastIs(orchestrator.history, nodeID, start, |orchestrator.history| - 1);
      }
      EndFailover(nodeID);
    }
  }
}

/**
 internal/ha/scheduler.go, a batch of VMs: SelectTargets places them largest
 memory first, charging each placement to a working copy of the host list.
 */
module BatchScheduling {
  import opened Scheduling

  // ---------- The order ----------

  /** sort.SliceStable by memory, largest first. */
  function InsertByMemory(vm: VM, sorted: seq<VM>): seq<VM> {
    if sorted == [] || vm.memory >= sorted[0].memory then [vm] + sorted
    else [sorted[0]] + InsertByMemory(vm, sorted[1..])
  }

  function ByMemory(vms: seq<VM>): (r: seq<VM>) {
    if vms == [] then [] else InsertByMemory(vms[0], ByMemory(vms[1..]))
  }

  predicate LargestFirst(vms: seq<VM>) {
    forall i, j | 0 <= i < j < |vms| :: vms[i].memory >= vms[j].memory
  }

  lemma {:induction false} InsertKeepsAll(vm: VM, sorted: seq<VM>)
    ensures multiset(InsertByMemory(vm, sorted)) == multiset{vm} + multiset(sorted)
  {
    if sorted != [] && vm.memory < sorted[0].memory {
      InsertKeepsAll(vm, sorted[1..]);
      assert sorted == [sorted[0]] + sorted[1..];
    }
  }

  lemma {:induction false} InsertStaysBelow(vm: VM, sorted: seq<VM>, memory: int)
    requires vm.memory <= memory && forall k | 0 <= k < |sorted| :: sorted[k].memory <= memory
    ensures forall k | 0 <= k < |InsertByMemory(vm, sorted)| :: InsertByMemory(vm, sorted)[k].memory <= memory
  {
    if sorted != [] && vm.memory < sorted[0].memory {
      InsertStaysBelow(vm, sorted[1..], memory);
    }
  }

  lemma {:induction false} InsertSorts(vm: VM, sorted: seq<VM>)
    requires LargestFirst(sorted)
    ensures LargestFirst(InsertByMemory(vm, sorted))
  {
    if sorted != [] && vm.memory < sorted[0].memory {
      InsertSorts(vm, sorted[1..]);
      InsertStaysBelow(vm, sorted[1..], sorted[0].memory);
    }
  }

  lemma {:induction false} ByMemorySorts(vms: seq<VM>)
    ensures LargestFirst(ByMemory(vms)) && multiset(ByMemory(vms)) == multiset(vms)
  {
    if vms != [] {
      ByMemorySorts(vms[1..]);
      InsertSorts(vms[0], ByMemory(vms[1..]));
      InsertKeepsAll(vms[0], ByMemory(vms[1..]));
      assert vms == [vms[0]] + vms[1..];
    }
  }

  /** A host charged with one more VM. */
  function Placed(h: Host, vm: VM): Host {
    h.(memoryUsed := h.memoryUsed + vm.memory,
       cpuCount := if h.cpuCount - vm.cpus < 0 then 0 else h.cpuCount - vm.cpus,
       vmCount := h.vmCount + 1,
       currentVMs := h.currentVMs + [vm.id])
  }

  /** The first host with that ID is charged. */
  function Place(states: seq<Host>, vm: VM, id: string): (r: seq<Host>)
    ensures |r| == |states|
  {
    if states == [] then []
    else if states[0].id == id then [Placed(states[0], vm)] + states[1..]
    else [states[0]] + Place(states[1..], vm, id)
  }

  /** The working copy after the first |trail| VMs went to the hosts of trail. */
  function StatesAfter(hosts: seq<Host>, vms: seq<VM>, trail: seq<Host>): (r: seq<Host>)
    requires |trail| <= |vms|
    ensures |r| == |hosts|
  {
    if trail == [] then hosts
    else
      var n := |trail| - 1;
      Place(StatesAfter(hosts, vms, trail[..n]), vms[n], trail[n].id)
  }

  /** Each VM in turn went to a chosen host of the working copy of the moment. */
  predicate Greedy(hosts: seq<Host>, vms: seq<VM>, policy: Policy, trail: seq<Host>)
    requires |trail| <= |vms|
  {
    trail == [] ||
    var n := |trail| - 1;
    Greedy(hosts, vms, policy, trail[..n]) && Chosen(vms[n], StatesAfter(hosts, vms, trail[..n]), policy, trail[n])
  }

  function Assigned(vms: seq<VM>, trail: seq<Host>): map<string, Host>
    requires |trail| <= |vms|
  {
    if trail == [] then map[]
    else
      var n := |trail| - 1;
      Assigned(vms, trail[..n])[vms[n].id := trail[n]]
  }

  predicate Named(vms: seq<VM>, id: string) {
    exists vm | vm in vms :: vm.id == id
  }

  /** A trail as long as the batch assigns exactly the batch's VM IDs. */
  lemma {:induction false} AssignedIDs(vms: seq<VM>, trail: seq<Host>)
    requires |trail| <= |vms|
    ensures forall id :: id in Assigned(vms, trail) <==> Named(vms[..|trail|], id)
    decreases |trail|
  {
    if trail != [] {
      var n := |trail| - 1;
      AssignedIDs(vms, trail[..n]);
      assert vms[..n + 1] == vms[..n] + [vms[n]];
      forall id ensures id in Assigned(vms, trail) <==> Named(vms[..n + 1], id) {
        assert Named(vms[..n + 1], id) <==> Named(vms[..n], id) || vms[n].id == id by {
          assert vms[n] in vms[..n + 1];
          assert forall vm :: vm in vms[..n + 1] <==> vm in vms[..n] || vm == vms[n];
        }
      }
    }
  }

  lemma {:induction false} SortedIsBatch(vms: seq<VM>)
    ensures |ByMemory(vms)| == |vms| && forall vm :: vm in ByMemory(vms) <==> vm in vms
  {
    ByMemorySorts(vms);
    assert |multiset(ByMemory(vms))| == |multiset(vms)|;
    assert forall vm :: vm in ByMemory(vms) <==> vm in multiset(ByMemory(vms));
  }

  /** So does the batch sorted by memory. */
  lemma {:induction false} SortedIDs(vms: seq<VM>, trail: seq<Host>)
    requires |trail| == |ByMemory(vms)|
    ensures forall id :: id in Assigned(ByMemory(vms), trail) <==> Named(vms, id)
  {
    SortedIsBatch(vms);
    AssignedIDs(ByMemory(vms), trail);
    assert ByMemory(vms)[..|trail|] == ByMemory(vms);
  }

  lemma {:induction false} GreedyExtends(hosts: seq<Host>, vms: seq<VM>, policy: Policy, longer: seq<Host>)
    requires 0 < |longer| <= |vms| && Greedy(hosts, vms, policy, longer[..|longer| - 1])
    requires Chosen(vms[|longer| - 1], StatesAfter(hosts, vms, longer[..|longer| - 1]), policy, longer[|longer| - 1])
    ensures Greedy(hosts, vms, policy, longer)
  {
  }

  /** One more placement. */
  lemma {:induction false} ExtendTrail(hosts: seq<Host>, vms: seq<VM>, policy: Policy, trail: seq<Host>, h: Host)
    requires |trail| < |vms| && Greedy(hosts, vms, policy, trail)
    requires Chosen(vms[|trail|], StatesAfter(hosts, vms, trail), policy, h)
    ensures Greedy(hosts, vms, policy, trail + [h])
    ensures StatesAfter(hosts, vms, trail + [h]) == Place(StatesAfter(hosts, vms, trail), vms[|trail|], h.id)
    ensures Assigned(vms, trail + [h]) == Assigned(vms, trail)[vms[|trail|].id := h]
  {
    assert (trail + [h])[..|trail|] == trail;
    GreedyExtends(hosts, vms, policy, trail + [h]);
  }

  /** The loop that charges a placement, left after the first host with the target's ID. */
  method ChargePlacement(hostStates: array<Host>, vm: VM, id: string)
    modifies hostStates
    ensures hostStates[..] == Place(old(hostStates[..]), vm, id)
  {
    ghost var before := hostStates[..];
    for i := 0 to hostStates.Length
      invariant hostStates[..] == before
      invariant Place(before, vm, id) == before[..i] + Place(before[i..], vm, id)
    {
      if hostStates[i].id == id {
        hostStates[i] := Placed(hostStates[i], vm);
        assert hostStates[..] == before[..i] + [Placed(before[i], vm)] + before[i + 1..];
        return;
      }
      assert before[..i + 1] == before[..i] + [before[i]] && before[i..][1..] == before[i + 1..];
    }
  }

  /** What a trail, finished or stuck, says of the caller's hosts. */
  lemma {:induction false} Explain(vms: seq<VM>, hosts: seq<Host>, policy: Policy, trail: seq<Host>)
    requires |trail| <= |ByMemory(vms)| && Greedy(hosts, ByMemory(vms), policy, trail)
    ensures DistinctIDs(hosts) && Positive(vms) ==> TakenInTurn(hosts, ByMemory(vms), policy, trail)
    ensures DistinctIDs(hosts) && Positive(vms) && |trail| < |ByMemory(vms)|
              && (forall h | h in StatesAfter(hosts, ByMemory(vms), trail) ::
                    !Eligible(ByMemory(vms)[|trail|], h, policy)) ==>
            NoneTakes(hosts, ByMemory(vms), policy, trail, ByMemory(vms)[|trail|])
  {
    var sorted := ByMemory(vms);
    SortedIsBatch(vms);
    if DistinctIDs(hosts) && Positive(vms) {
      GreedyIsTaken(hosts, sorted, policy, trail);
      if |trail| < |sorted| {
        assert sorted[|trail|] in sorted;
        if forall h | h in StatesAfter(hosts, sorted, trail) :: !Eligible(sorted[|trail|], h, policy) {
          StuckIsNoneTakes(hosts, sorted, policy, trail, sorted[|trail|]);
        }
      }
    }
  }

  /**
   Places the VMs largest first. On success every VM has a host; on failure the
   VMs up to the failing one were placed the same way and it fits nowhere.
   */
  method SelectTargets(vms: seq<VM>, hosts: seq<Host>, policy: Policy)
    returns (r: Result<map<string, Host>>, ghost trail: seq<Host>)
    ensures r.Ok? ==> forall id :: id in r.value <==> Named(vms, id)
    ensures r.NoHosts? <==> hosts == [] && vms != []
    ensures r.NoEligibleHost? ==> r.vm in vms
    ensures r.Ok? && DistinctIDs(hosts) && DistinctVMs(vms) && Positive(vms) ==> FitsBatch(vms, hosts, r.value)
    ensures r.Ok? && DistinctIDs(hosts) && DistinctVMs(vms) && policy.antiAffinityEnabled ==>
        ApartBatch(vms, hosts, r.value)
    ensures |trail| <= |ByMemory(vms)| && Greedy(hosts, ByMemory(vms), policy, trail)
    ensures r.Ok? ==> |trail| == |ByMemory(vms)| && r.value == Assigned(ByMemory(vms), trail)
    ensures !r.Ok? ==> |trail| < |ByMemory(vms)|
    ensures r.NoEligibleHost? ==> |trail| < |ByMemory(vms)| && r.vm == ByMemory(vms)[|trail|]
    ensures DistinctIDs(hosts) && Positive(vms) ==> TakenInTurn(hosts, ByMemory(vms), policy, trail)
    ensures !r.Ok? && DistinctIDs(hosts) && Positive(vms) ==>
        NoneTakes(hosts, ByMemory(vms), policy, trail, ByMemory(vms)[|trail|])
    ensures !r.Ok? ==> forall h | h in StatesAfter(hosts, ByMemory(vms), trail) ::
        !Eligible(ByMemory(vms)[|trail|], h, policy)
  {
    var assignments: map<string, Host> := map[];
    var hostStates := new Host[|hosts|](i requires 0 <= i < |hosts| => hosts[i]);
    assert hostStates[..] == hosts;
    var sortedVMs := ByMemory(vms);
    SortedIsBatch(vms);
    trail := [];
    for n := 0 to |sortedVMs|
      invariant |trail| == n && Greedy(hosts, sortedVMs, policy, trail)
      invariant hostStates[..] == StatesAfter(hosts, sortedVMs, trail)
      invariant assignments == Assigned(sortedVMs, trail)
    {
      var vm := sortedVMs[n];
      var target := SelectTarget(vm, hostStates[..], policy);
      if !target.Ok? {
        Explain(vms, hosts, policy, trail);
        return if target.NoHosts? then NoHosts else NoEligibleHost(vm), trail;
      }
      assignments := assignments[vm.id := target.value];
      ChargePlacement(hostStates, vm, target.value.id);
      ExtendTrail(hosts, sortedVMs, policy, trail, target.value);
      trail := trail + [target.value];
    }
    SortedIDs(vms, trail);
    Explain(vms, hosts, policy, trail);
    if DistinctIDs(hosts) && DistinctVMs(vms) {
      if Positive(vms) {
        BatchFits(hosts, vms, policy, trail);
      }
      if policy.antiAffinityEnabled {
        BatchIsApart(hosts, vms, policy, trail);
      }
    }
    return Ok(assignments), trail;
  }

  // ---------- What a batch guarantees ----------

  predicate DistinctIDs(hosts: seq<Host>) {
    forall i, j | 0 <= i < j < |hosts| :: hosts[i].id != hosts[j].id
  }

  lemma {:induction false} PlacePointwise(states: seq<Host>, vm: VM, id: string, i: nat)
    requires DistinctIDs(states) && i < |states|
    ensures Place(states, vm, id)[i] == if states[i].id == id then Placed(states[i], vm) else states[i]
  {
    if states[0].id != id && i > 0 {
      PlacePointwise(states[1..], vm, id, i - 1);
    }
  }

  function PlacedMemory(vms: seq<VM>, trail: seq<Host>, id: string): int
    requires |trail| <= |vms|
  {
    if trail == [] then 0
    else
      var n := |trail| - 1;
      PlacedMemory(vms, trail[..n], id) + if trail[n].id == id then vms[n].memory else 0
  }

  function PlacedCPUs(vms: seq<VM>, trail: seq<Host>, id: string): int
    requires |trail| <= |vms|
  {
    if trail == [] then 0
    else
      var n := |trail| - 1;
      PlacedCPUs(vms, trail[..n], id) + if trail[n].id == id then vms[n].cpus else 0
  }

  /** The VMs the batch put on one host, in order of arrival. */
  function PlacedIDs(vms: seq<VM>, trail: seq<Host>, id: string): seq<string>
    requires |trail| <= |vms|
  {
    if trail == [] then []
    else
      var n := |trail| - 1;
      PlacedIDs(vms, trail[..n], id) + if trail[n].id == id then [vms[n].id] else []
  }

  predicate Positive(vms: seq<VM>) {
    forall vm | vm in vms :: vm.cpus > 0 && vm.memory > 0
  }

  /** What one host of the working copy looks like, next to the host it started as. */
  ghost predicate Tracks(h0: Host, h: Host, memory: int, cpus: int) {
    && h.id == h0.id && h.status == h0.status && h.maintenance == h0.maintenance && h.memoryTotal == h0.memoryTotal
    && h.memoryUsed == h0.memoryUsed + memory
    && memory >= 0 && cpus >= 0
    && (cpus == 0 ==> memory == 0 && h.cpuCount == h0.cpuCount)
    && (cpus > 0 ==> h.memoryUsed <= h.memoryTotal && 0 <= h.cpuCount && 2 * h.cpuCount + cpus <= 2 * h0.cpuCount)
  }

  lemma {:induction false} StatesTrack(hosts: seq<Host>, vms: seq<VM>, policy: Policy, trail: seq<Host>)
    requires |trail| <= |vms| && Greedy(hosts, vms, policy, trail) && DistinctIDs(hosts) && Positive(vms)
    ensures forall i | 0 <= i < |hosts| ::
              Tracks(hosts[i], StatesAfter(hosts, vms, trail)[i], PlacedMemory(vms, trail, hosts[i].id),
                  PlacedCPUs(vms, trail, hosts[i].id))
  {
    if trail != [] {
      var n := |trail| - 1;
      var states := StatesAfter(hosts, vms, trail[..n]);
      StatesTrack(hosts, vms, policy, trail[..n]);
      forall i | 0 <= i < |hosts|
        ensures Tracks(hosts[i], StatesAfter(hosts, vms, trail)[i], PlacedMemory(vms, trail, hosts[i].id),
            PlacedCPUs(vms, trail, hosts[i].id))
      {
        assert Tracks(hosts[i], states[i], PlacedMemory(vms, trail[..n], hosts[i].id),
            PlacedCPUs(vms, trail[..n], hosts[i].id));
        PlacePointwise(states, vms[n], trail[n].id, i);
        if trail[n].id == hosts[i].id {
          var k :| 0 <= k < |states| && states[k] == trail[n];
          assert states[k].id == hosts[k].id;
          assert k == i;
          assert vms[n] in vms;
        }
      }
    }
  }

  /**
   Over the whole batch, a host that receives VMs ends within its memory, and no
   host receives more CPUs than twice the count it started with.
   */
  lemma {:induction false} BatchRespectsCapacity(hosts: seq<Host>, vms: seq<VM>, policy: Policy, trail: seq<Host>,
      i: nat)
    requires |trail| <= |vms| && Greedy(hosts, vms, policy, trail) && DistinctIDs(hosts) && Positive(vms) && i < |hosts|
    ensures PlacedMemory(vms, trail, hosts[i].id) > 0 ==>
        hosts[i].memoryUsed + PlacedMemory(vms, trail, hosts[i].id) <= hosts[i].memoryTotal
    ensures PlacedCPUs(vms, trail, hosts[i].id) > 0 ==> PlacedCPUs(vms, trail, hosts[i].id) <= 2 * hosts[i].cpuCount
  {
    StatesTrack(hosts, vms, policy, trail);
    assert Tracks(hosts[i], StatesAfter(hosts, vms, trail)[i], PlacedMemory(vms, trail, hosts[i].id),
        PlacedCPUs(vms, trail, hosts[i].id));
  }

  lemma {:induction false} GreedyPrefix(hosts: seq<Host>, vms: seq<VM>, policy: Policy, trail: seq<Host>, k: nat)
    requires k < |trail| <= |vms| && Greedy(hosts, vms, policy, trail)
    ensures Greedy(hosts, vms, policy, trail[..k])
    ensures Chosen(vms[k], StatesAfter(hosts, vms, trail[..k]), policy, trail[k])
    decreases |trail|
  {
    var n := |trail| - 1;
    if k < n {
      GreedyPrefix(hosts, vms, policy, trail[..n], k);
      assert trail[..n][..k] == trail[..k];
    }
  }

  /** A host of the working copy runs what it ran at first and what the batch put there, each counted once. */
  lemma {:induction false} StatesRunPlaced(hosts: seq<Host>, vms: seq<VM>, trail: seq<Host>, i: nat)
    requires |trail| <= |vms| && DistinctIDs(hosts) && i < |hosts|
    ensures var h := StatesAfter(hosts, vms, trail)[i];
            && h.id == hosts[i].id
            && h.currentVMs == hosts[i].currentVMs + PlacedIDs(vms, trail, hosts[i].id)
            && h.vmCount == hosts[i].vmCount + |PlacedIDs(vms, trail, hosts[i].id)|
    ensures DistinctIDs(StatesAfter(hosts, vms, trail))
    decreases |trail|
  {
    if trail != [] {
      var n := |trail| - 1;
      var states := StatesAfter(hosts, vms, trail[..n]);
      forall j | 0 <= j < |hosts| ensures states[j].id == hosts[j].id
          && StatesAfter(hosts, vms, trail)[j].id == hosts[j].id {
        StatesRunPlaced(hosts, vms, trail[..n], j);
        PlacePointwise(states, vms[n], trail[n].id, j);
      }
      StatesRunPlaced(hosts, vms, trail[..n], i);
      PlacePointwise(states, vms[n], trail[n].id, i);
    }
  }

  lemma {:induction false} PlacedAreThere(vms: seq<VM>, trail: seq<Host>, j: nat)
    requires j < |trail| <= |vms|
    ensures vms[j].id in PlacedIDs(vms, trail, trail[j].id)
    decreases |trail|
  {
    if j < |trail| - 1 {
      PlacedAreThere(vms, trail[..|trail| - 1], j);
    }
  }

  /** Twice these are the CPUs a host offers after the batch put `placed` CPUs on it. */
  function CPUsLeft(count: int, placed: int): int {
    if placed > 0 && placed > count then 0 else count - placed
  }

  /** A host of the working copy is the one it started as, less exactly what the batch put there. */
  lemma {:induction false} StatesExact(hosts: seq<Host>, vms: seq<VM>, trail: seq<Host>, i: nat)
    requires |trail| <= |vms| && DistinctIDs(hosts) && Positive(vms) && i < |hosts|
    ensures var h, memory, cpus := StatesAfter(hosts, vms, trail)[i],
                                   PlacedMemory(vms, trail, hosts[i].id), PlacedCPUs(vms, trail, hosts[i].id);
            && h == hosts[i].(memoryUsed := hosts[i].memoryUsed + memory,
                              cpuCount := CPUsLeft(hosts[i].cpuCount, cpus),
                              vmCount := h.vmCount, currentVMs := h.currentVMs)
            && memory >= 0 && cpus >= 0 && (cpus == 0 ==> memory == 0)
    decreases |trail|
  {
    if trail != [] {
      var n := |trail| - 1;
      StatesExact(hosts, vms, trail[..n], i);
      StatesRunPlaced(hosts, vms, trail[..n], i);
      PlacePointwise(StatesAfter(hosts, vms, trail[..n]), vms[n], trail[n].id, i);
      assert vms[n] in vms;
    }
  }

  /** The host still takes the VM after the batch put this memory, these CPUs and these VMs on it. */
  predicate Takes(h: Host, vm: VM, policy: Policy, memory: int, cpus: int, ids: seq<string>) {
    && !Closed(h)
    && h.memoryUsed + memory + vm.memory <= h.memoryTotal
    && vm.cpus <= 2 * CPUsLeft(h.cpuCount, cpus)
    && (policy.antiAffinityEnabled ==> forall u | u in vm.antiAffinity :: u !in h.currentVMs && u !in ids)
  }

  /** Host i takes the VM after the placements of the trail. */
  predicate TakesAfter(hosts: seq<Host>, vms: seq<VM>, policy: Policy, trail: seq<Host>, i: nat, vm: VM)
    requires |trail| <= |vms| && i < |hosts|
  {
    var id := hosts[i].id;
    Takes(hosts[i], vm, policy, PlacedMemory(vms, trail, id), PlacedCPUs(vms, trail, id), PlacedIDs(vms, trail, id))
  }

  lemma {:induction false} TakesIff(hosts: seq<Host>, vms: seq<VM>, policy: Policy, trail: seq<Host>, i: nat, vm: VM)
    requires |trail| <= |vms| && DistinctIDs(hosts) && Positive(vms) && i < |hosts| && vm.memory > 0
    ensures Eligible(vm, StatesAfter(hosts, vms, trail)[i], policy) <==> TakesAfter(hosts, vms, policy, trail, i, vm)
  {
    StatesExact(hosts, vms, trail, i);
    StatesRunPlaced(hosts, vms, trail, i);
    EligibleIff(vm, StatesAfter(hosts, vms, trail)[i], policy);
  }

  /** Each VM in turn went to a host of the caller's that still took it. */
  ghost predicate TakenInTurn(hosts: seq<Host>, vms: seq<VM>, policy: Policy, trail: seq<Host>)
    requires |trail| <= |vms|
  {
    forall k | 0 <= k < |trail| ::
      exists i | 0 <= i < |hosts| :: hosts[i].id == trail[k].id && TakesAfter(hosts, vms, policy, trail[..k], i, vms[k])
  }

  /** No host of the caller's takes the VM any more. */
  predicate NoneTakes(hosts: seq<Host>, vms: seq<VM>, policy: Policy, trail: seq<Host>, vm: VM)
    requires |trail| <= |vms|
  {
    forall i | 0 <= i < |hosts| :: !TakesAfter(hosts, vms, policy, trail, i, vm)
  }

  lemma {:induction false} GreedyIsTaken(hosts: seq<Host>, vms: seq<VM>, policy: Policy, trail: seq<Host>)
    requires |trail| <= |vms| && DistinctIDs(hosts) && Positive(vms) && Greedy(hosts, vms, policy, trail)
    ensures TakenInTurn(hosts, vms, policy, trail)
  {
    forall k | 0 <= k < |trail|
      ensures exists i | 0 <= i < |hosts| ::
                hosts[i].id == trail[k].id && TakesAfter(hosts, vms, policy, trail[..k], i, vms[k])
    {
      GreedyPrefix(hosts, vms, policy, trail, k);
      var states := StatesAfter(hosts, vms, trail[..k]);
      var i :| 0 <= i < |states| && states[i] == trail[k];
      StatesExact(hosts, vms, trail[..k], i);
      assert vms[k] in vms;
      TakesIff(hosts, vms, policy, trail[..k], i, vms[k]);
    }
  }

  lemma {:induction false} StuckIsNoneTakes(hosts: seq<Host>, vms: seq<VM>, policy: Policy, trail: seq<Host>, vm: VM)
    requires |trail| <= |vms| && DistinctIDs(hosts) && Positive(vms) && vm.memory > 0
    requires forall h | h in StatesAfter(hosts, vms, trail) :: !Eligible(vm, h, policy)
    ensures NoneTakes(hosts, vms, policy, trail, vm)
  {
    forall i | 0 <= i < |hosts| ensures !TakesAfter(hosts, vms, policy, trail, i, vm) {
      assert StatesAfter(hosts, vms, trail)[i] in StatesAfter(hosts, vms, trail);
      TakesIff(hosts, vms, policy, trail, i, vm);
    }
  }

  /** Nor was any host of the working copy better for it than the one it went to. */
  lemma {:induction false} GreedyIsUndominated(
    hosts: seq<Host>, vms: seq<VM>, policy: Policy, trail: seq<Host>, k: nat)
    requires k < |trail| <= |vms| && Positive(vms) && Greedy(hosts, vms, policy, trail)
    ensures Undominated(vms[k], StatesAfter(hosts, vms, trail[..k]), policy, trail[k])
  {
    GreedyPrefix(hosts, vms, policy, trail, k);
    assert vms[k] in vms;
    ChosenIsUndominated(vms[k], StatesAfter(hosts, vms, trail[..k]), policy, trail[k]);
  }

  /** The host a VM is sent to runs nothing the VM lists, first or placed before it. */
  lemma {:induction false} BatchKeepsApart(hosts: seq<Host>, vms: seq<VM>, policy: Policy, trail: seq<Host>, k: nat)
    returns (i: nat)
    requires k < |trail| <= |vms| && Greedy(hosts, vms, policy, trail) && DistinctIDs(hosts)
    requires policy.antiAffinityEnabled
    ensures i < |hosts| && hosts[i].id == trail[k].id
    ensures forall u | u in vms[k].antiAffinity ::
              u !in hosts[i].currentVMs && u !in PlacedIDs(vms, trail[..k], hosts[i].id)
  {
    GreedyPrefix(hosts, vms, policy, trail, k);
    var states := StatesAfter(hosts, vms, trail[..k]);
    i :| 0 <= i < |states| && states[i] == trail[k];
    StatesRunPlaced(hosts, vms, trail[..k], i);
  }

  predicate DistinctVMs(vms: seq<VM>) {
    forall i, j | 0 <= i < j < |vms| :: vms[i].id != vms[j].id
  }

  /** With distinct VM IDs the assignment of the batch is where each VM was placed. */
  lemma {:induction false} AssignedIsTrail(vms: seq<VM>, trail: seq<Host>, k: nat)
    requires k < |trail| <= |vms| && DistinctVMs(vms)
    ensures vms[k].id in Assigned(vms, trail) && Assigned(vms, trail)[vms[k].id] == trail[k]
    decreases |trail|
  {
    if k < |trail| - 1 {
      AssignedIsTrail(vms, trail[..|trail| - 1], k);
    }
  }

  // ---------- The caller's batch and the returned map ----------

  datatype Size = Memory | CPUs

  function Needs(vm: VM, size: Size): int { if size == Memory then vm.memory else vm.cpus }

  function ShareOf(vm: VM, r: map<string, Host>, id: string, size: Size): int {
    if vm.id in r && r[vm.id].id == id then Needs(vm, size) else 0
  }

  /** What the batch asks of one host under an assignment. */
  function AssignedTotal(vms: seq<VM>, r: map<string, Host>, id: string, size: Size): int {
    if vms == [] then 0 else ShareOf(vms[0], r, id, size) + AssignedTotal(vms[1..], r, id, size)
  }

  lemma {:induction false} AssignedTotalAppends(vms: seq<VM>, vm: VM, r: map<string, Host>, id: string, size: Size)
    ensures AssignedTotal(vms + [vm], r, id, size) == AssignedTotal(vms, r, id, size) + ShareOf(vm, r, id, size)
  {
    if vms == [] {
      assert vms + [vm] == [vm];
    } else {
      assert (vms + [vm])[0] == vms[0] && (vms + [vm])[1..] == vms[1..] + [vm];
      AssignedTotalAppends(vms[1..], vm, r, id, size);
    }
  }

  lemma {:induction false} InsertKeepsTotal(vm: VM, sorted: seq<VM>, r: map<string, Host>, id: string, size: Size)
    ensures AssignedTotal(InsertByMemory(vm, sorted), r, id, size)
         == ShareOf(vm, r, id, size) + AssignedTotal(sorted, r, id, size)
  {
    if sorted == [] || vm.memory >= sorted[0].memory {
      assert ([vm] + sorted)[1..] == sorted;
    } else {
      InsertKeepsTotal(vm, sorted[1..], r, id, size);
      assert ([sorted[0]] + InsertByMemory(vm, sorted[1..]))[1..] == InsertByMemory(vm, sorted[1..]);
    }
  }

  lemma {:induction false} SortingKeepsTotal(vms: seq<VM>, r: map<string, Host>, id: string, size: Size)
    ensures AssignedTotal(ByMemory(vms), r, id, size) == AssignedTotal(vms, r, id, size)
  {
    if vms != [] {
      SortingKeepsTotal(vms[1..], r, id, size);
      InsertKeepsTotal(vms[0], ByMemory(vms[1..]), r, id, size);
    }
  }

  lemma {:induction false} PlacedIsAssigned(vms: seq<VM>, trail: seq<Host>, r: map<string, Host>, id: string)
    requires |trail| <= |vms| && forall i | 0 <= i < |trail| :: vms[i].id in r && r[vms[i].id] == trail[i]
    ensures PlacedMemory(vms, trail, id) == AssignedTotal(vms[..|trail|], r, id, Memory)
    ensures PlacedCPUs(vms, trail, id) == AssignedTotal(vms[..|trail|], r, id, CPUs)
    decreases |trail|
  {
    if trail != [] {
      var n := |trail| - 1;
      PlacedIsAssigned(vms, trail[..n], r, id);
      assert vms[..n + 1] == vms[..n] + [vms[n]];
      AssignedTotalAppends(vms[..n], vms[n], r, id, Memory);
      AssignedTotalAppends(vms[..n], vms[n], r, id, CPUs);
    }
  }

  /** Where a VM goes when it is inserted at n. */
  function Shifted(i: nat, n: nat): nat { if i < n then i else i + 1 }

  /** The VM stands at n and the others keep their order around it. */
  ghost predicate InsertedAt(vm: VM, sorted: seq<VM>, n: nat) {
    var longer := InsertByMemory(vm, sorted);
    && n <= |sorted| && |longer| == |sorted| + 1 && longer[n] == vm
    && forall i | 0 <= i < |sorted| :: longer[Shifted(i, n)] == sorted[i]
  }

  lemma {:induction false} InsertedFurther(vm: VM, sorted: seq<VM>, n: nat)
    requires sorted != [] && vm.memory < sorted[0].memory && InsertedAt(vm, sorted[1..], n)
    ensures InsertedAt(vm, sorted, n + 1)
  {
    var shorter := InsertByMemory(vm, sorted[1..]);
    assert InsertByMemory(vm, sorted) == [sorted[0]] + shorter;
    forall i | 0 <= i < |sorted| ensures ([sorted[0]] + shorter)[Shifted(i, n + 1)] == sorted[i] {
      if i > 0 {
        assert shorter[Shifted(i - 1, n)] == sorted[1..][i - 1];
      }
    }
  }

  /** The stable sort puts a VM after the larger ones and before the others. */
  lemma {:induction false} InsertPosition(vm: VM, sorted: seq<VM>) returns (n: nat)
    requires LargestFirst(sorted)
    ensures InsertedAt(vm, sorted, n)
    ensures forall i | 0 <= i < |sorted| :: i < n <==> sorted[i].memory > vm.memory
  {
    if sorted == [] || vm.memory >= sorted[0].memory {
      n := 0;
    } else {
      var m := InsertPosition(vm, sorted[1..]);
      n := m + 1;
      InsertedFurther(vm, sorted, m);
      forall i | 0 <= i < |sorted| ensures i < n <==> sorted[i].memory > vm.memory {
        assert i > 0 ==> sorted[1..][i - 1] == sorted[i];
      }
    }
  }

  lemma {:induction false} SortedAt(vms: seq<VM>, j: nat) returns (i: nat)
    requires j < |vms|
    ensures i < |ByMemory(vms)| && ByMemory(vms)[i] == vms[j]
  {
    SortedIsBatch(vms);
    assert vms[j] in ByMemory(vms);
    i :| 0 <= i < |ByMemory(vms)| && ByMemory(vms)[i] == vms[j];
  }

  /** vms[j] is larger than vms[k], or as large and given earlier. */
  predicate PlacedFirst(vms: seq<VM>, j: nat, k: nat)
    requires j < |vms| && k < |vms|
  {
    vms[j].memory > vms[k].memory || (vms[j].memory == vms[k].memory && j < k)
  }

  lemma {:induction false} SortedShift(vms: seq<VM>, n: nat, i: nat)
    requires vms != [] && InsertedAt(vms[0], ByMemory(vms[1..]), n) && i < |ByMemory(vms[1..])|
    ensures |ByMemory(vms)| == |ByMemory(vms[1..])| + 1 && ByMemory(vms)[n] == vms[0]
    ensures ByMemory(vms)[Shifted(i, n)] == ByMemory(vms[1..])[i]
  {
  }

  lemma {:induction false} FirstKeepsOrder(vms: seq<VM>, x: nat) returns (n: nat, i: nat)
    requires 0 < x < |vms|
    ensures n < |ByMemory(vms)| && ByMemory(vms)[n] == vms[0] && i < |ByMemory(vms)| && ByMemory(vms)[i] == vms[x]
    ensures n < i <==> vms[0].memory >= vms[x].memory
    ensures n != i
  {
    var rest := vms[1..];
    ByMemorySorts(rest);
    n := InsertPosition(vms[0], ByMemory(rest));
    var k := SortedAt(rest, x - 1);
    SortedShift(vms, n, k);
    i := Shifted(k, n);
  }

  lemma {:induction false} SortKeepsOrder(vms: seq<VM>, j: nat, k: nat) returns (p: nat, q: nat)
    requires j < |vms| && k < |vms| && PlacedFirst(vms, j, k)
    ensures p < q < |ByMemory(vms)| && ByMemory(vms)[p] == vms[j] && ByMemory(vms)[q] == vms[k]
    decreases |vms|
  {
    if j == 0 {
      p, q := FirstKeepsOrder(vms, k);
    } else if k == 0 {
      q, p := FirstKeepsOrder(vms, j);
    } else {
      ByMemorySorts(vms[1..]);
      var n := InsertPosition(vms[0], ByMemory(vms[1..]));
      var i, l := SortKeepsOrder(vms[1..], j - 1, k - 1);
      SortedShift(vms, n, i);
      SortedShift(vms, n, l);
      p, q := Shifted(i, n), Shifted(l, n);
    }
  }

  lemma {:induction false} InsertKeepsDistinct(vm: VM, sorted: seq<VM>)
    requires DistinctVMs(sorted) && forall u | u in sorted :: u.id != vm.id
    ensures DistinctVMs(InsertByMemory(vm, sorted))
  {
    if sorted != [] && vm.memory < sorted[0].memory {
      var rest := InsertByMemory(vm, sorted[1..]);
      InsertKeepsDistinct(vm, sorted[1..]);
      InsertKeepsAll(vm, sorted[1..]);
      forall k | 0 <= k < |rest| ensures rest[k].id != sorted[0].id {
        assert rest[k] in multiset(rest);
        assert rest[k] == vm || rest[k] in multiset(sorted[1..]);
        assert sorted[0] in sorted;
      }
    }
  }

  lemma {:induction false} SortKeepsDistinct(vms: seq<VM>)
    requires DistinctVMs(vms)
    ensures DistinctVMs(ByMemory(vms))
  {
    if vms != [] {
      var rest := vms[1..];
      SortKeepsDistinct(rest);
      ByMemorySorts(rest);
      SortedIsBatch(rest);
      forall u | u in ByMemory(rest) ensures u.id != vms[0].id {
        assert u in rest;
      }
      InsertKeepsDistinct(vms[0], ByMemory(rest));
    }
  }

  /** Every host that is sent VMs can take them all: its memory, and twice its CPUs. */
  ghost predicate FitsBatch(vms: seq<VM>, hosts: seq<Host>, r: map<string, Host>) {
    forall h | h in hosts ::
      && (AssignedTotal(vms, r, h.id, Memory) > 0 ==>
          h.memoryUsed + AssignedTotal(vms, r, h.id, Memory) <= h.memoryTotal)
      && (AssignedTotal(vms, r, h.id, CPUs) > 0 ==> AssignedTotal(vms, r, h.id, CPUs) <= 2 * h.cpuCount)
  }

  /** The two VMs are assigned one host. */
  predicate Together(r: map<string, Host>, a: VM, b: VM) {
    a.id in r && b.id in r && r[a.id].id == r[b.id].id
  }

  /** Every VM avoids the listed VMs that run already and those of the batch placed before it. */
  ghost predicate ApartBatch(vms: seq<VM>, hosts: seq<Host>, r: map<string, Host>) {
    && (forall vm, h | vm in vms && h in hosts && vm.id in r && r[vm.id].id == h.id :: !Conflicts(vm, h))
    && (forall j, k | 0 <= j < |vms| && 0 <= k < |vms| && PlacedFirst(vms, j, k) && vms[j].id in vms[k].antiAffinity ::
          !Together(r, vms[j], vms[k]))
  }

  /** So two VMs that list each other never share a host, whichever is placed first. */
  lemma {:induction false} NoConflictingPairTogether(vms: seq<VM>, hosts: seq<Host>, r: map<string, Host>, j: nat,
      k: nat)
    requires ApartBatch(vms, hosts, r) && j < |vms| && k < |vms| && j != k
    requires vms[j].id in vms[k].antiAffinity && vms[k].id in vms[j].antiAffinity
    ensures !Together(r, vms[j], vms[k])
  {
    assert PlacedFirst(vms, j, k) || PlacedFirst(vms, k, j);
  }

  lemma {:induction false} BatchFits(hosts: seq<Host>, vms: seq<VM>, policy: Policy, trail: seq<Host>)
    requires DistinctIDs(hosts) && DistinctVMs(vms) && Positive(vms)
    requires |trail| == |ByMemory(vms)| && Greedy(hosts, ByMemory(vms), policy, trail)
    ensures FitsBatch(vms, hosts, Assigned(ByMemory(vms), trail))
  {
    var sorted := ByMemory(vms);
    var r := Assigned(sorted, trail);
    SortedIsBatch(vms);
    SortKeepsDistinct(vms);
    forall i | 0 <= i < |trail| ensures sorted[i].id in r && r[sorted[i].id] == trail[i] {
      AssignedIsTrail(sorted, trail, i);
    }
    forall h | h in hosts
      ensures AssignedTotal(vms, r, h.id, Memory) > 0 ==>
          h.memoryUsed + AssignedTotal(vms, r, h.id, Memory) <= h.memoryTotal
      ensures AssignedTotal(vms, r, h.id, CPUs) > 0 ==> AssignedTotal(vms, r, h.id, CPUs) <= 2 * h.cpuCount
    {
      var i :| 0 <= i < |hosts| && hosts[i] == h;
      BatchRespectsCapacity(hosts, sorted, policy, trail, i);
      PlacedIsAssigned(sorted, trail, r, h.id);
      assert sorted[..|trail|] == sorted;
      SortingKeepsTotal(vms, r, h.id, Memory);
      SortingKeepsTotal(vms, r, h.id, CPUs);
    }
  }

  /** The placement at position q of the sorted batch is apart from what it lists. */
  lemma {:induction false} PlacedApart(hosts: seq<Host>, sorted: seq<VM>, policy: Policy, trail: seq<Host>, q: nat)
    requires DistinctIDs(hosts) && DistinctVMs(sorted) && policy.antiAffinityEnabled
    requires q < |trail| == |sorted| && Greedy(hosts, sorted, policy, trail)
    ensures sorted[q].id in Assigned(sorted, trail)
    ensures forall h | h in hosts && Assigned(sorted, trail)[sorted[q].id].id == h.id :: !Conflicts(sorted[q], h)
    ensures forall p | 0 <= p < q && sorted[p].id in sorted[q].antiAffinity ::
              !Together(Assigned(sorted, trail), sorted[p], sorted[q])
  {
    var i := BatchKeepsApart(hosts, sorted, policy, trail, q);
    AssignedIsTrail(sorted, trail, q);
    forall h | h in hosts && trail[q].id == h.id ensures !Conflicts(sorted[q], h) {
      var m :| 0 <= m < |hosts| && hosts[m] == h;
      assert m == i;
    }
    forall p | 0 <= p < q && sorted[p].id in sorted[q].antiAffinity
      ensures !Together(Assigned(sorted, trail), sorted[p], sorted[q])
    {
      AssignedIsTrail(sorted, trail, p);
      if trail[p].id == trail[q].id {
        PlacedAreThere(sorted, trail[..q], p);
      }
    }
  }

  lemma {:induction false} BatchIsApart(hosts: seq<Host>, vms: seq<VM>, policy: Policy, trail: seq<Host>)
    requires DistinctIDs(hosts) && DistinctVMs(vms) && policy.antiAffinityEnabled
    requires |trail| == |ByMemory(vms)| && Greedy(hosts, ByMemory(vms), policy, trail)
    ensures ApartBatch(vms, hosts, Assigned(ByMemory(vms), trail))
  {
    var sorted := ByMemory(vms);
    var r := Assigned(sorted, trail);
    SortedIsBatch(vms);
    SortKeepsDistinct(vms);
    forall vm, h | vm in vms && h in hosts && vm.id in r && r[vm.id].id == h.id ensures !Conflicts(vm, h) {
      assert vm in sorted;
      var q :| 0 <= q < |sorted| && sorted[q] == vm;
      PlacedApart(hosts, sorted, policy, trail, q);
    }
    forall j, k | 0 <= j < |vms| && 0 <= k < |vms| && PlacedFirst(vms, j, k) && vms[j].id in vms[k].antiAffinity
      ensures !Together(r, vms[j], vms[k])
    {
      var p, q := SortKeepsOrder(vms, j, k);
      PlacedApart(hosts, sorted, policy, trail, q);
    }
  }
}

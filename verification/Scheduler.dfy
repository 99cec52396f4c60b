/**
 internal/ha/scheduler.go, one VM at a time: which hosts are eligible, how they
 score, and which of them SelectTarget picks.
 */
module Scheduling {
  import opened Wrappers

  datatype Host = Host(
    id: string,
    status: string,
    cpuCount: int,
    memoryTotal: int,
    memoryUsed: int,
    numaNodeCount: int,
    vmCount: int,
    labels: map<string, string>,
    maintenance: bool,
    currentVMs: seq<string>)
  {
    function AvailableMemory(): (r: int)
      ensures r >= 0
      ensures r > 0 ==> memoryUsed + r == memoryTotal
    {
      var avail := memoryTotal - memoryUsed;
      if avail < 0 then 0 else avail
    }

    predicate CanFit(cpu: int, memory: int) {
      if maintenance then false
      else if status != "online" && status != "active" then false
      else if AvailableMemory() < memory then false
      else cpu <= cpuCount * 2
    }
  }

  datatype VM = VM(
    id: string,
    cpus: int,
    memory: int,
    numaPolicy: Option<string>,
    antiAffinity: seq<string>,
    preferredHost: Option<string>,
    labels: map<string, string>)

  datatype Policy = Policy(policyType: string, loadBalanceWeight: real, numaAffinityWeight: real,
      antiAffinityEnabled: bool)

  datatype Result<T> = Ok(value: T) | NoHosts | NoEligibleHost(vm: VM)

  // ---------- Eligibility and score ----------

  /** The host runs a VM from vm's anti-affinity list. */
  predicate Conflicts(vm: VM, h: Host) {
    exists u | u in vm.antiAffinity :: u in h.currentVMs
  }

  predicate Eligible(vm: VM, h: Host, policy: Policy) {
    h.CanFit(vm.cpus, vm.memory) && !(policy.antiAffinityEnabled && Conflicts(vm, h))
  }

  function EligibleHosts(vm: VM, hosts: seq<Host>, policy: Policy): seq<Host> {
    if hosts == [] then []
    else
      EligibleHosts(vm, hosts[..|hosts| - 1], policy)
      + (if Eligible(vm, hosts[|hosts| - 1], policy) then [hosts[|hosts| - 1]] else [])
  }

  lemma {:induction false} EligibleHostsAre(vm: VM, hosts: seq<Host>, policy: Policy)
    ensures forall h :: h in EligibleHosts(vm, hosts, policy) <==> h in hosts && Eligible(vm, h, policy)
  {
    if hosts != [] {
      var front, last := hosts[..|hosts| - 1], hosts[|hosts| - 1];
      EligibleHostsAre(vm, front, policy);
      forall h ensures h in hosts <==> h in front || h == last {
        assert hosts == front + [last];
      }
    }
  }

  /** How often u occurs in s. */
  function Occurrences(u: string, s: seq<string>): nat {
    multiset(s)[u]
  }

  /** The number of (listed, running) pairs that are the same VM. */
  function ConflictPairs(listed: seq<string>, running: seq<string>): nat {
    if listed == [] then 0
    else ConflictPairs(listed[..|listed| - 1], running) + Occurrences(listed[|listed| - 1], running)
  }

  lemma {:induction false} NoConflictNoPairs(listed: seq<string>, running: seq<string>)
    ensures ConflictPairs(listed, running) == 0 <==> forall u | u in listed :: u !in running
  {
    if listed != [] {
      var front, last := listed[..|listed| - 1], listed[|listed| - 1];
      NoConflictNoPairs(front, running);
      assert forall u :: u in listed <==> u in front || u == last by { assert listed == front + [last]; }
      assert last in running <==> last in multiset(running);
    }
  }

  function MatchingLabels(vm: VM, h: Host): set<string> {
    set k | k in vm.labels && k in h.labels && h.labels[k] == vm.labels[k]
  }

  function MemRatio(remaining: int, total: int): real {
    if total == 0 then 0.0 else remaining as real / total as real
  }

  function SpreadScore(h: Host): real {
    var vmScore := (100 - h.vmCount) as real * 0.5;
    if vmScore < 0.0 then 0.0 else vmScore
  }

  function RoomMerit(vm: VM, h: Host, policy: Policy): real {
    MemRatio(h.AvailableMemory() - vm.memory, h.memoryTotal) * 30.0 * policy.loadBalanceWeight
  }

  function CountMerit(h: Host, policy: Policy): real {
    (if policy.policyType == "spread" then SpreadScore(h) else 0.0)
    + (if policy.policyType == "binpack" then h.cpuCount as real * 0.3 else 0.0)
  }

  function NUMAMerit(vm: VM, h: Host, policy: Policy): real {
    if vm.numaPolicy == Some("strict") && h.numaNodeCount > 0 then 25.0 * policy.numaAffinityWeight else 0.0
  }

  function WishMerit(vm: VM, h: Host): real {
    (if vm.preferredHost == Some(h.id) then 15.0 else 0.0) + |MatchingLabels(vm, h)| as real * 5.0
  }

  /** The terms ScoreHost adds for a host that fits, apart from the penalty. */
  function Merit(vm: VM, h: Host, policy: Policy): real {
    RoomMerit(vm, h, policy) + CountMerit(h, policy) + NUMAMerit(vm, h, policy) + WishMerit(vm, h)
  }

  function Penalty(vm: VM, h: Host, policy: Policy): real {
    if policy.antiAffinityEnabled then ConflictPairs(vm.antiAffinity, h.currentVMs) as real * 100.0 else 0.0
  }

  function Score(vm: VM, h: Host, policy: Policy): real {
    if !h.CanFit(vm.cpus, vm.memory) then -1.0 else Merit(vm, h, policy) - Penalty(vm, h, policy)
  }

  /** Positive sizes, no negative use, nonnegative weights. */
  predicate Ordinary(vm: VM, h: Host, policy: Policy) {
    && vm.cpus > 0 && vm.memory > 0 && h.memoryUsed >= 0
    && policy.loadBalanceWeight >= 0.0 && policy.numaAffinityWeight >= 0.0
  }

  /**
   Among eligible hosts the -1 sentinel and the penalty never show: the score is
   the merit alone, and with nonnegative weights it is at least zero.
   */
  lemma {:induction false} EligibleScoresAreMerits(vm: VM, h: Host, policy: Policy)
    requires Eligible(vm, h, policy)
    ensures Score(vm, h, policy) == Merit(vm, h, policy)
    ensures Ordinary(vm, h, policy) ==> Score(vm, h, policy) >= 0.0
  {
    NoConflictNoPairs(vm.antiAffinity, h.currentVMs);
    if Ordinary(vm, h, policy) {
      var remaining := h.AvailableMemory() - vm.memory;
      assert h.memoryTotal > 0 && remaining >= 0;
      assert MemRatio(remaining, h.memoryTotal) >= 0.0;
      assert MemRatio(remaining, h.memoryTotal) * 30.0 * policy.loadBalanceWeight >= 0.0;
    }
  }

  method ScoreHost(vm: VM, h: Host, policy: Policy) returns (score: real)
    ensures score == Score(vm, h, policy)
  {
    if !h.CanFit(vm.cpus, vm.memory) {
      return -1.0;
    }
    score := 0.0;
    var remainingMem := h.AvailableMemory() - vm.memory;
    score := score + MemRatio(remainingMem, h.memoryTotal) * 30.0 * policy.loadBalanceWeight;
    if policy.policyType == "spread" {
      score := score + SpreadScore(h);
    }
    if policy.policyType == "binpack" {
      score := score + h.cpuCount as real * 0.3;
    }
    if vm.numaPolicy == Some("strict") && h.numaNodeCount > 0 {
      score := score + 25.0 * policy.numaAffinityWeight;
    }
    if vm.preferredHost == Some(h.id) {
      score := score + 15.0;
    }
    if policy.antiAffinityEnabled {
      score := SubtractPenalty(vm.antiAffinity, h.currentVMs, score);
    }
    score := AddLabelBonus(vm, h, score);
  }

  /** The nested loops over the anti-affinity list and the host's VMs. */
  method SubtractPenalty(listed: seq<string>, running: seq<string>, start: real) returns (score: real)
    ensures score == start - ConflictPairs(listed, running) as real * 100.0
  {
    score := start;
    ghost var pairs: nat := 0;
    for i := 0 to |listed|
      invariant pairs == ConflictPairs(listed[..i], running)
      invariant score == start - pairs as real * 100.0
    {
      ghost var row := pairs;
      for j := 0 to |running|
        invariant pairs == row + Occurrences(listed[i], running[..j])
        invariant score == start - pairs as real * 100.0
      {
        assert running[..j + 1] == running[..j] + [running[j]];
        if listed[i] == running[j] {
          score := score - 100.0;
          pairs := pairs + 1;
        }
      }
      assert running[..|running|] == running;
      assert listed[..i + 1][..i] == listed[..i];
    }
    assert listed[..|listed|] == listed;
  }

  /** The loop over the VM's labels, in whatever order the map yields them. */
  method AddLabelBonus(vm: VM, h: Host, start: real) returns (score: real)
    ensures score == start + |MatchingLabels(vm, h)| as real * 5.0
  {
    score := start;
    var todo := vm.labels.Keys;
    ghost var left := MatchingLabels(vm, h);
    ghost var n := |left|;
    while todo != {}
      invariant left == MatchingLabels(vm, h) * todo
      invariant todo <= vm.labels.Keys
      invariant score == start + (n - |left|) as real * 5.0
    {
      var k :| k in todo;
      if k in h.labels && h.labels[k] == vm.labels[k] {
        score := score + 5.0;
      }
      left := left - {k};
      todo := todo - {k};
    }
  }

  method FilterHosts(vm: VM, hosts: seq<Host>, policy: Policy) returns (eligible: seq<Host>)
    ensures eligible == EligibleHosts(vm, hosts, policy)
  {
    eligible := [];
    for n := 0 to |hosts|
      invariant eligible == EligibleHosts(vm, hosts[..n], policy)
    {
      var h := hosts[n];
      assert hosts[..n + 1][..n] == hosts[..n];
      if !h.CanFit(vm.cpus, vm.memory) {
        continue;
      }
      if policy.antiAffinityEnabled {
        var skip := RunsAny(vm.antiAffinity, h.currentVMs);
        if skip {
          continue;
        }
      }
      eligible := eligible + [h];
    }
    assert hosts[..|hosts|] == hosts;
  }

  /** The two nested loops of filterHosts, left at the first match. */
  method RunsAny(listed: seq<string>, running: seq<string>) returns (skip: bool)
    ensures skip <==> exists u | u in listed :: u in running
  {
    for i := 0 to |listed|
      invariant forall u | u in listed[..i] :: u !in running
    {
      for j := 0 to |running|
        invariant listed[i] !in running[..j]
      {
        if listed[i] == running[j] {
          assert listed[i] in listed;
          return true;
        }
      }
      assert running[..|running|] == running;
    }
    assert listed[..|listed|] == listed;
    return false;
  }

  // ---------- Eligibility in the host's own terms ----------

  /** Not accepting VMs at all. */
  predicate Closed(h: Host) {
    h.maintenance || (h.status != "online" && h.status != "active")
  }

  /** A VM of positive size is eligible for an open host with the memory free, twice the CPUs and no listed VM. */
  lemma {:induction false} EligibleIff(vm: VM, h: Host, policy: Policy)
    requires vm.memory > 0
    ensures Eligible(vm, h, policy) <==>
              && !Closed(h) && h.memoryUsed + vm.memory <= h.memoryTotal && vm.cpus <= 2 * h.cpuCount
              && (policy.antiAffinityEnabled ==> forall u | u in vm.antiAffinity :: u !in h.currentVMs)
  {
  }

  // ---------- What the scores prefer ----------

  /** In what two hosts may differ, as far as the scores look at them. */
  datatype Trait = VMCount | CPUCount | Room | NUMA | Preference | Labels

  /** The labels of the VM that the host carries with the same value. */
  function LabelMatches(vm: VM, h: Host): nat {
    |set k | k in vm.labels && k in h.labels && h.labels[k] == vm.labels[k]|
  }

  /** The hosts agree on every trait but one. */
  predicate Alike(vm: VM, a: Host, b: Host, but: Trait) {
    && a.memoryTotal == b.memoryTotal
    && (but == Room || a.memoryUsed == b.memoryUsed)
    && (but == VMCount || a.vmCount == b.vmCount)
    && (but == CPUCount || a.cpuCount == b.cpuCount)
    && (but == NUMA || (a.numaNodeCount > 0 <==> b.numaNodeCount > 0))
    && (but == Preference || (vm.preferredHost == Some(a.id) <==> vm.preferredHost == Some(b.id)))
    && (but == Labels || LabelMatches(vm, a) == LabelMatches(vm, b))
  }

  /** By how much a should score over b for the trait they differ in. */
  function Advantage(vm: VM, policy: Policy, a: Host, b: Host, differs: Trait): real
    requires a.memoryTotal > 0 && b.memoryTotal > 0
  {
    match differs
    case VMCount =>
      if policy.policyType == "spread" then 0.5 * (Below100(b) - Below100(a)) as real else 0.0
    case CPUCount => if policy.policyType == "binpack" then 0.3 * (a.cpuCount - b.cpuCount) as real else 0.0
    case Room =>
      30.0 * policy.loadBalanceWeight * (ShareLeft(vm, a) - ShareLeft(vm, b))
    case NUMA =>
      if vm.numaPolicy != Some("strict") then 0.0
      else 25.0 * policy.numaAffinityWeight * (HasNUMA(a) - HasNUMA(b)) as real
    case Preference => 15.0 * (Prefers(vm, a) - Prefers(vm, b)) as real
    case Labels => 5.0 * (LabelMatches(vm, a) - LabelMatches(vm, b)) as real
  }

  /** The part of the host's memory that the VM would leave free. */
  function ShareLeft(vm: VM, h: Host): real
    requires h.memoryTotal > 0
  {
    (h.memoryTotal - h.memoryUsed - vm.memory) as real / h.memoryTotal as real
  }

  function Below100(h: Host): int { if h.vmCount < 100 then h.vmCount else 100 }

  function HasNUMA(h: Host): int { if h.numaNodeCount > 0 then 1 else 0 }

  function Prefers(vm: VM, h: Host): int { if vm.preferredHost == Some(h.id) then 1 else 0 }

  lemma {:induction false} Distribute(u: real, v: real, weight: real)
    ensures u * 30.0 * weight - v * 30.0 * weight == 30.0 * weight * (u - v)
  {
  }

  lemma {:induction false} RoomMeritsDiffer(vm: VM, policy: Policy, a: Host, b: Host)
    requires vm.memory > 0 && a.memoryTotal > 0 && Eligible(vm, a, policy) && Eligible(vm, b, policy)
    requires b.memoryTotal > 0
    ensures RoomMerit(vm, a, policy) - RoomMerit(vm, b, policy) == Advantage(vm, policy, a, b, Room)
  {
    Distribute(ShareLeft(vm, a), ShareLeft(vm, b), policy.loadBalanceWeight);
  }

  lemma {:induction false} CountMeritsDiffer(policy: Policy, vm: VM, a: Host, b: Host)
    requires a.memoryTotal > 0 && b.memoryTotal > 0
    ensures CountMerit(a, policy) - CountMerit(b, policy)
         == Advantage(vm, policy, a, b, VMCount) + Advantage(vm, policy, a, b, CPUCount)
  {
  }

  lemma {:induction false} NUMAMeritsDiffer(policy: Policy, vm: VM, a: Host, b: Host)
    requires a.memoryTotal > 0 && b.memoryTotal > 0
    ensures NUMAMerit(vm, a, policy) - NUMAMerit(vm, b, policy) == Advantage(vm, policy, a, b, NUMA)
  {
  }

  lemma {:induction false} WishMeritsDiffer(policy: Policy, vm: VM, a: Host, b: Host)
    requires a.memoryTotal > 0 && b.memoryTotal > 0
    ensures WishMerit(vm, a) - WishMerit(vm, b)
         == Advantage(vm, policy, a, b, Preference) + Advantage(vm, policy, a, b, Labels)
  {
    assert MatchingLabels(vm, a) == set k | k in vm.labels && k in a.labels && a.labels[k] == vm.labels[k];
    assert MatchingLabels(vm, b) == set k | k in vm.labels && k in b.labels && b.labels[k] == vm.labels[k];
  }

  /** A trait in which two hosts agree gives neither an advantage. */
  lemma {:induction false} AlikeGivesNoAdvantage(vm: VM, policy: Policy, a: Host, b: Host, but: Trait, other: Trait)
    requires a.memoryTotal > 0 && Alike(vm, a, b, but) && other != but
    ensures Advantage(vm, policy, a, b, other) == 0.0
  {
    if other == Room {
      assert ShareLeft(vm, a) - ShareLeft(vm, b) == 0.0;
    }
  }

  /** The score of an eligible host over another is what each trait is worth, added up. */
  lemma {:induction false} ScoresAddUp(vm: VM, policy: Policy, a: Host, b: Host)
    requires vm.memory > 0 && a.memoryTotal > 0 && Eligible(vm, a, policy) && Eligible(vm, b, policy)
    requires b.memoryTotal > 0
    ensures Score(vm, a, policy) - Score(vm, b, policy)
         == Advantage(vm, policy, a, b, VMCount) + Advantage(vm, policy, a, b, CPUCount)
            + Advantage(vm, policy, a, b, Room) + Advantage(vm, policy, a, b, NUMA)
            + Advantage(vm, policy, a, b, Preference) + Advantage(vm, policy, a, b, Labels)
  {
    EligibleScoresAreMerits(vm, a, policy);
    EligibleScoresAreMerits(vm, b, policy);
    RoomMeritsDiffer(vm, policy, a, b);
    CountMeritsDiffer(policy, vm, a, b);
    NUMAMeritsDiffer(policy, vm, a, b);
    WishMeritsDiffer(policy, vm, a, b);
  }

  /** Between eligible hosts that differ in one trait, the scores differ by just what that trait is worth. */
  lemma {:induction false} ScoresDifferByAdvantage(vm: VM, policy: Policy, a: Host, b: Host, differs: Trait)
    requires vm.memory > 0 && a.memoryTotal > 0 && Eligible(vm, a, policy) && Eligible(vm, b, policy)
    requires Alike(vm, a, b, differs)
    ensures Score(vm, a, policy) - Score(vm, b, policy) == Advantage(vm, policy, a, b, differs)
  {
    ScoresAddUp(vm, policy, a, b);
    forall other: Trait | other != differs ensures Advantage(vm, policy, a, b, other) == 0.0 {
      AlikeGivesNoAdvantage(vm, policy, a, b, differs, other);
    }
  }

  /** a is eligible too and, but for one trait that speaks for it, like b. */
  predicate Better(vm: VM, policy: Policy, a: Host, b: Host, differs: Trait) {
    && Eligible(vm, a, policy) && a.memoryTotal > 0 && b.memoryTotal > 0
    && Alike(vm, a, b, differs) && Advantage(vm, policy, a, b, differs) > 0.0
  }

  /** No host of the list is better than the one chosen. */
  ghost predicate Undominated(vm: VM, hosts: seq<Host>, policy: Policy, g: Host) {
    forall h, differs: Trait | h in hosts :: !Better(vm, policy, h, g, differs)
  }

  lemma {:induction false} ChosenIsUndominated(vm: VM, hosts: seq<Host>, policy: Policy, g: Host)
    requires vm.memory > 0 && Chosen(vm, hosts, policy, g)
    ensures Undominated(vm, hosts, policy, g)
  {
    forall h, differs: Trait | h in hosts ensures !Better(vm, policy, h, g, differs) {
      if Better(vm, policy, h, g, differs) {
        ScoresDifferByAdvantage(vm, policy, h, g, differs);
      }
    }
  }

  lemma {:induction false} LessUsedLeavesMore(vm: VM, a: Host, b: Host)
    requires a.memoryTotal == b.memoryTotal > 0 && a.memoryUsed < b.memoryUsed
    ensures ShareLeft(vm, a) > ShareLeft(vm, b)
  {
  }

  /** What that says of the chosen host and an eligible one like it, policy by policy. */
  lemma {:induction false} UndominatedMeans(vm: VM, hosts: seq<Host>, policy: Policy, g: Host, h: Host)
    requires Undominated(vm, hosts, policy, g) && h in hosts && Eligible(vm, h, policy) && h.memoryTotal > 0
    ensures policy.policyType == "spread" && Alike(vm, h, g, VMCount) ==> g.vmCount <= h.vmCount || h.vmCount >= 100
    ensures policy.policyType == "binpack" && Alike(vm, h, g, CPUCount) ==> g.cpuCount >= h.cpuCount
    ensures policy.loadBalanceWeight > 0.0 && Alike(vm, h, g, Room) ==> g.memoryUsed <= h.memoryUsed
    ensures policy.numaAffinityWeight > 0.0 && vm.numaPolicy == Some("strict") && Alike(vm, h, g, NUMA) ==>
        h.numaNodeCount > 0 ==> g.numaNodeCount > 0
    ensures Alike(vm, h, g, Preference) && vm.preferredHost == Some(h.id) ==> vm.preferredHost == Some(g.id)
    ensures Alike(vm, h, g, Labels) ==> LabelMatches(vm, g) >= LabelMatches(vm, h)
  {
    assert !Better(vm, policy, h, g, VMCount) && !Better(vm, policy, h, g, CPUCount);
    assert !Better(vm, policy, h, g, NUMA) && !Better(vm, policy, h, g, Preference)
        && !Better(vm, policy, h, g, Labels);
    assert !Better(vm, policy, h, g, Room);
    if policy.loadBalanceWeight > 0.0 && Alike(vm, h, g, Room) && g.memoryUsed > h.memoryUsed {
      LessUsedLeavesMore(vm, h, g);
    }
  }

  // ---------- One VM ----------

  /** h is eligible for vm among the hosts, and none eligible scores higher. */
  predicate Chosen(vm: VM, hosts: seq<Host>, policy: Policy, h: Host) {
    && h in hosts
    && Eligible(vm, h, policy)
    && forall g | g in hosts && Eligible(vm, g, policy) :: Score(vm, g, policy) <= Score(vm, h, policy)
  }

  /** The score order decides only which host comes first; ties may go either way. */
  method SelectTarget(vm: VM, hosts: seq<Host>, policy: Policy) returns (r: Result<Host>)
    ensures r.Ok? ==> Chosen(vm, hosts, policy, r.value)
    ensures r == NoHosts <==> hosts == []
    ensures !r.Ok? <==> forall h | h in hosts :: !Eligible(vm, h, policy)
    ensures r.NoEligibleHost? ==> r.vm == vm
    ensures r.Ok? && vm.memory > 0 ==> Undominated(vm, hosts, policy, r.value)
  {
    if |hosts| == 0 {
      return NoHosts;
    }
    var eligible := FilterHosts(vm, hosts, policy);
    EligibleHostsAre(vm, hosts, policy);
    if |eligible| == 0 {
      return NoEligibleHost(vm);
    }
    var best := eligible[0];
    var bestScore := ScoreHost(vm, best, policy);
    for i := 1 to |eligible|
      invariant best in eligible && bestScore == Score(vm, best, policy)
      invariant forall j | 0 <= j < i :: Score(vm, eligible[j], policy) <= bestScore
    {
      var score := ScoreHost(vm, eligible[i], policy);
      if score > bestScore {
        best, bestScore := eligible[i], score;
      }
    }
    if vm.memory > 0 {
      ChosenIsUndominated(vm, hosts, policy, best);
    }
    return Ok(best);
  }
}

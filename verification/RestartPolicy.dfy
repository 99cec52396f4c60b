/**
 internal/ha/policy.go: per-VM HA policies, the sliding-window restart limit with
 its pruned timestamp lists, and the restart order by priority. Times are
 nanoseconds on one nondecreasing clock.
 */
module RestartPolicy {
  datatype HAMode = Auto | Manual | Never | MaxOne

  datatype HAPolicy = HAPolicy(mode: HAMode, priority: int, maxRestarts: int, restartWindow: int) {
    predicate ShouldRestart() { mode == Auto || mode == MaxOne }
  }

  type Policies = map<string, HAPolicy>
  type RestartLog = map<string, seq<int>>

  /** Go's map read: a missing VM has no timestamps. */
  function Times(log: RestartLog, vm: string): seq<int> {
    if vm in log then log[vm] else []
  }

  /** The timestamps strictly after the cutoff. */
  function After(times: seq<int>, cutoff: int): seq<int> {
    if times == [] then []
    else (if times[0] > cutoff then [times[0]] else []) + After(times[1..], cutoff)
  }

  /** One CanRestart: the log it leaves and its answer. `pruning` false keeps every timestamp. */
  function CanRestartAt(policies: Policies, pruning: bool, log: RestartLog, vm: string, now: int): (RestartLog, bool) {
    if vm !in policies || policies[vm].maxRestarts <= 0 then (log, true)
    else
      var valid := After(Times(log, vm), now - policies[vm].restartWindow);
      (if pruning then log[vm := valid] else log, |valid| < policies[vm].maxRestarts)
  }

  function Recorded(log: RestartLog, vm: string, now: int): RestartLog {
    log[vm := Times(log, vm) + [now]]
  }

  class PolicyManager {
    var policies: Policies
    var restartCounts: RestartLog

    constructor ()
      ensures policies == map[] && restartCounts == map[]
    {
      policies, restartCounts := map[], map[];
    }

    method RecordRestart(vm: string, now: int)
      modifies this`restartCounts
      ensures restartCounts == Recorded(old(restartCounts), vm, now)
    {
      var times := if vm in restartCounts then restartCounts[vm] else [];
      restartCounts := restartCounts[vm := times + [now]];
    }

    method CanRestart(vm: string, now: int) returns (ok: bool)
      modifies this`restartCounts
      ensures restartCounts == CanRestartAt(policies, true, old(restartCounts), vm, now).0
      ensures ok == CanRestartAt(policies, true, old(restartCounts), vm, now).1
      ensures vm !in policies || policies[vm].maxRestarts <= 0 ==> ok && restartCounts == old(restartCounts)
    {
      if vm !in policies {
        return true;
      }
      var policy := policies[vm];
      if policy.maxRestarts <= 0 {
        return true;
      }
      var cutoff := now - policy.restartWindow;
      var times := if vm in restartCounts then restartCounts[vm] else [];
      var valid := [];
      for i := 0 to |times|
        invariant restartCounts == old(restartCounts)
        invariant valid == After(times[..i], cutoff)
      {
        AfterConcat(times[..i], [times[i]], cutoff);
        assert times[..i + 1] == times[..i] + [times[i]];
        if times[i] > cutoff {
          valid := valid + [times[i]];
        }
      }
      assert times[..|times|] == times;
      restartCounts := restartCounts[vm := valid];
      return |valid| < policy.maxRestarts;
    }

    /** The automatic VMs, each with the priority of its policy. */
    method Collect(vmIDs: seq<string>) returns (picked: seq<VMPriority>)
      ensures IDs(picked) == AutoRestarted(policies, vmIDs)
      ensures forall p | p in picked :: Ranked(policies, p)
    {
      picked := [];
      for i := 0 to |vmIDs|
        invariant IDs(picked) == AutoRestarted(policies, vmIDs[..i])
        invariant forall p | p in picked :: Ranked(policies, p)
      {
        var id := vmIDs[i];
        AutoRestartedConcat(policies, vmIDs[..i], [id]);
        assert vmIDs[..i + 1] == vmIDs[..i] + [id];
        if id in policies && policies[id].ShouldRestart() {
          picked := picked + [VMPriority(id, policies[id].priority)];
        }
      }
      assert vmIDs[..|vmIDs|] == vmIDs;
    }

    /** The IDs to restart, most urgent first. */
    method GetAutoRestartVMs(vmIDs: seq<string>) returns (result: seq<string>)
      ensures multiset(result) == multiset(AutoRestarted(policies, vmIDs))
      ensures forall id :: multiset(result)[id]
                == if id in policies && policies[id].mode != Manual && policies[id].mode != Never
                   then multiset(vmIDs)[id] else 0
      ensures forall i, j | 0 <= i < j < |result| ::
                result[i] in policies && result[j] in policies
                    && policies[result[i]].priority <= policies[result[j]].priority
    {
      var picked := Collect(vmIDs);
      var autoVMs := new VMPriority[|picked|](i requires 0 <= i < |picked| => picked[i]);
      assert autoVMs[..] == picked;
      ExchangeSort(autoVMs);
      ghost var sorted := autoVMs[..];
      result := IDs(autoVMs[..]);
      AutoRestartedAre(policies, vmIDs);
      forall i | 0 <= i < |result| ensures Ranked(policies, sorted[i]) {
        assert sorted[i] in multiset(sorted);
      }
    }
  }

  // ---------- Restart order ----------

  datatype VMPriority = VMPriority(id: string, priority: int)

  function IDs(vms: seq<VMPriority>): (r: seq<string>)
    ensures |r| == |vms|
  {
    seq(|vms|, i requires 0 <= i < |vms| => vms[i].id)
  }

  /** The IDs, in input order and with repeats, whose policy restarts them automatically. */
  function AutoRestarted(policies: Policies, ids: seq<string>): seq<string> {
    if ids == [] then []
    else
      (if ids[0] in policies && policies[ids[0]].ShouldRestart() then [ids[0]] else [])
      + AutoRestarted(policies, ids[1..])
  }

  lemma {:induction false} AutoRestartedConcat(policies: Policies, a: seq<string>, b: seq<string>)
    ensures AutoRestarted(policies, a + b) == AutoRestarted(policies, a) + AutoRestarted(policies, b)
  {
    if a == [] {
      assert a + b == b;
    } else {
      assert (a + b)[0] == a[0] && (a + b)[1..] == a[1..] + b;
      AutoRestartedConcat(policies, a[1..], b);
    }
  }

  lemma {:induction false} AutoRestartedAre(policies: Policies, ids: seq<string>)
    ensures forall id :: multiset(AutoRestarted(policies, ids))[id]
              == if id in policies && policies[id].mode != Manual && policies[id].mode != Never
                 then multiset(ids)[id] else 0
  {
    if ids != [] {
      AutoRestartedAre(policies, ids[1..]);
      assert ids == [ids[0]] + ids[1..];
    }
  }

  /** The pair carries its VM's priority. */
  predicate Ranked(policies: Policies, p: VMPriority) {
    p.id in policies && policies[p.id].priority == p.priority
  }

  /** The first n elements are in order and no later element is more urgent than any of them. */
  predicate SortedUpTo(s: seq<VMPriority>, n: int) {
    forall p, q | 0 <= p < n && p < q < |s| :: s[p].priority <= s[q].priority
  }

  /** The same pairs, and so the same IDs, each as often. */
  ghost predicate SameBag(a: seq<VMPriority>, b: seq<VMPriority>) {
    multiset(a) == multiset(b) && multiset(IDs(a)) == multiset(IDs(b))
  }

  lemma {:induction false} SwapKeepsBag(s: seq<VMPriority>, i: nat, j: nat)
    requires i < j < |s|
    ensures SameBag(s[i := s[j]][j := s[i]], s)
  {
    var ids := IDs(s);
    assert IDs(s[i := s[j]][j := s[i]]) == ids[i := ids[j]][j := ids[i]];
  }

  /** The in-place exchange sort by priority number. */
  method ExchangeSort(a: array<VMPriority>)
    modifies a
    ensures SameBag(a[..], old(a[..]))
    ensures forall i, j | 0 <= i < j < a.Length :: a[..][i].priority <= a[..][j].priority
  {
    var i := 0;
    while i < a.Length - 1
      invariant 0 <= i <= a.Length
      invariant SameBag(a[..], old(a[..]))
      invariant SortedUpTo(a[..], i)
    {
      ExchangeFrom(a, i);
      i := i + 1;
    }
  }

  /** Position i holds the most urgent of positions i to j - 1, after what is already sorted. */
  predicate BestUpTo(s: seq<VMPriority>, i: nat, j: nat)
    requires i < j <= |s|
  {
    SortedUpTo(s, i) && forall q | i < q < j :: s[i].priority <= s[q].priority
  }

  lemma {:induction false} SwapKeepsBest(s: seq<VMPriority>, i: nat, j: nat)
    requires i < j < |s| && BestUpTo(s, i, j) && s[j].priority < s[i].priority
    ensures BestUpTo(s[i := s[j]][j := s[i]], i, j + 1)
  {
  }

  /** The inner loop: brings the most urgent of a[i..] to position i. */
  method ExchangeFrom(a: array<VMPriority>, i: nat)
    requires i < a.Length && SortedUpTo(a[..], i)
    modifies a
    ensures SameBag(a[..], old(a[..]))
    ensures SortedUpTo(a[..], i + 1)
  {
    var j := i + 1;
    while j < a.Length
      invariant i < j <= a.Length
      invariant SameBag(a[..], old(a[..]))
      invariant BestUpTo(a[..], i, j)
    {
      if a[j].priority < a[i].priority {
        ghost var before := a[..];
        a[i], a[j] := a[j], a[i];
        assert a[..] == before[i := before[j]][j := before[i]];
        SwapKeepsBag(before, i, j);
        SwapKeepsBest(before, i, j);
      }
      j := j + 1;
    }
  }

  // ---------- Runs of the restart limit ----------

  /** Ask whether vm may restart; if so and `restart`, restart it and record it at that instant. */
  datatype Op = Op(vm: string, now: int, restart: bool)

  predicate Clocked(from: int, ops: seq<Op>)
    decreases |ops|
  {
    ops == [] || (from <= ops[0].now && Clocked(ops[0].now, ops[1..]))
  }

  function Next(policies: Policies, pruning: bool, log: RestartLog, op: Op): (RestartLog, bool) {
    var (log', ok) := CanRestartAt(policies, pruning, log, op.vm, op.now);
    (if ok && op.restart then Recorded(log', op.vm, op.now) else log', ok)
  }

  function Answers(policies: Policies, pruning: bool, log: RestartLog, ops: seq<Op>): (r: seq<bool>)
    ensures |r| == |ops|
    decreases |ops|
  {
    if ops == [] then []
    else
      var (log', ok) := Next(policies, pruning, log, ops[0]);
      [ok] + Answers(policies, pruning, log', ops[1..])
  }

  /** How often a run restarted vm within (from, to]. */
  function Restarts(vm: string, from: int, to: int, ops: seq<Op>, answers: seq<bool>): nat
    requires |answers| == |ops|
  {
    if ops == [] then 0
    else
      (if ops[0].vm == vm && ops[0].restart && answers[0] && from < ops[0].now <= to then 1 else 0)
      + Restarts(vm, from, to, ops[1..], answers[1..])
  }

  // ---------- Pruning is unobservable ----------

  lemma {:induction false} AfterConcat(a: seq<int>, b: seq<int>, cutoff: int)
    ensures After(a + b, cutoff) == After(a, cutoff) + After(b, cutoff)
  {
    if a == [] {
      assert a + b == b;
    } else {
      assert (a + b)[0] == a[0] && (a + b)[1..] == a[1..] + b;
      AfterConcat(a[1..], b, cutoff);
    }
  }

  lemma {:induction false} AfterTwice(a: seq<int>, early: int, late: int)
    requires early <= late
    ensures After(After(a, early), late) == After(a, late)
  {
    if a != [] {
      AfterTwice(a[1..], early, late);
      AfterConcat(if a[0] > early then [a[0]] else [], After(a[1..], early), late);
    }
  }

  /** From `clock` on, both logs show the same timestamps inside every VM's window. */
  ghost predicate SameRecent(policies: Policies, pruned: RestartLog, full: RestartLog, clock: int) {
    forall vm, now | vm in policies && clock <= now :: SameAt(policies, pruned, full, vm, now)
  }

  predicate SameAt(policies: Policies, pruned: RestartLog, full: RestartLog, vm: string, now: int)
    requires vm in policies
  {
    After(Times(pruned, vm), now - policies[vm].restartWindow)
        == After(Times(full, vm), now - policies[vm].restartWindow)
  }

  /** Pruning a list at one instant, and appending to both, keeps what any later window shows. */
  lemma {:induction false} PrunedShowsSame(pruned: seq<int>, full: seq<int>, early: int, late: int, now: int)
    requires early <= late && After(pruned, late) == After(full, late)
    ensures After(After(pruned, early), late) == After(full, late)
    ensures After(pruned + [now], late) == After(full + [now], late) == After(After(pruned, early) + [now], late)
  {
    AfterTwice(pruned, early, late);
    AfterConcat(pruned, [now], late);
    AfterConcat(After(pruned, early), [now], late);
    AfterConcat(full, [now], late);
  }

  lemma {:induction false} OthersKeepTimes(policies: Policies, pruning: bool, log: RestartLog, op: Op, vm: string)
    requires vm != op.vm
    ensures Times(Next(policies, pruning, log, op).0, vm) == Times(log, vm)
  {
  }

  lemma {:induction false} OwnTimes(policies: Policies, pruning: bool, log: RestartLog, op: Op)
    requires op.vm in policies
    ensures var p, (log', ok) := policies[op.vm], Next(policies, pruning, log, op);
            var times := Times(log, op.vm);
            Times(log', op.vm)
            == (if pruning && p.maxRestarts > 0 then After(times, op.now - p.restartWindow) else times)
               + (if ok && op.restart then [op.now] else [])
  {
  }

  /** The VM asked about shows the same afterwards, restarted or not. */
  lemma {:induction false} OwnShowsSame(policies: Policies, pruned: RestartLog, full: RestartLog, op: Op, now: int)
    requires op.vm in policies && op.now <= now
    requires SameAt(policies, pruned, full, op.vm, op.now) && SameAt(policies, pruned, full, op.vm, now)
    ensures SameAt(policies, Next(policies, true, pruned, op).0, Next(policies, false, full, op).0, op.vm, now)
  {
    var w, p, f := policies[op.vm].restartWindow, Times(pruned, op.vm), Times(full, op.vm);
    var kept := After(p, op.now - w);
    OwnTimes(policies, true, pruned, op);
    OwnTimes(policies, false, full, op);
    PrunedShowsSame(p, f, op.now - w, now - w, op.now);
    assert p + [] == p && f + [] == f && kept + [] == kept;
  }

  lemma {:induction false} NextKeepsSameRecent(
    policies: Policies, pruned: RestartLog, full: RestartLog, clock: int, op: Op)
    requires SameRecent(policies, pruned, full, clock) && clock <= op.now
    ensures Next(policies, true, pruned, op).1 == Next(policies, false, full, op).1
    ensures SameRecent(policies, Next(policies, true, pruned, op).0, Next(policies, false, full, op).0, op.now)
  {
    assert op.vm in policies ==> SameAt(policies, pruned, full, op.vm, op.now);
    forall vm, now | vm in policies && op.now <= now
      ensures SameAt(policies, Next(policies, true, pruned, op).0, Next(policies, false, full, op).0, vm, now)
    {
      assert SameAt(policies, pruned, full, vm, now);
      if vm == op.vm {
        OwnShowsSame(policies, pruned, full, op, now);
      } else {
        OthersKeepTimes(policies, true, pruned, op, vm);
        OthersKeepTimes(policies, false, full, op, vm);
      }
    }
  }

  /** With fixed policies the pruned lists answer every question as the full logs would. */
  lemma {:induction false} PruningUnobservable(policies: Policies, pruned: RestartLog, full: RestartLog, clock: int,
      ops: seq<Op>)
    requires Clocked(clock, ops) && SameRecent(policies, pruned, full, clock)
    ensures Answers(policies, true, pruned, ops) == Answers(policies, false, full, ops)
    decreases |ops|
  {
    if ops != [] {
      var op := ops[0];
      NextKeepsSameRecent(policies, pruned, full, clock, op);
      PruningUnobservable(policies, Next(policies, true, pruned, op).0, Next(policies, false, full, op).0, op.now,
          ops[1..]);
    }
  }

  // ---------- The sliding window bound ----------

  /** Timestamps within (from, to]. */
  function Within(times: seq<int>, from: int, to: int): nat {
    if times == [] then 0
    else (if from < times[0] <= to then 1 else 0) + Within(times[1..], from, to)
  }

  lemma {:induction false} WithinAppend(times: seq<int>, t: int, from: int, to: int)
    ensures Within(times + [t], from, to) == Within(times, from, to) + (if from < t <= to then 1 else 0)
  {
    if times == [] {
      assert times + [t] == [t];
    } else {
      assert (times + [t])[0] == times[0] && (times + [t])[1..] == times[1..] + [t];
      WithinAppend(times[1..], t, from, to);
    }
  }

  lemma {:induction false} WithinAtMostAfter(times: seq<int>, from: int, to: int, cutoff: int)
    requires cutoff <= from
    ensures Within(times, from, to) <= |After(times, cutoff)|
  {
    if times != [] {
      WithinAtMostAfter(times[1..], from, to, cutoff);
    }
  }

  lemma {:induction false} FullLogRespectsWindow(policies: Policies, log: RestartLog, vm: string, from: int,
      ops: seq<Op>)
    requires vm in policies && policies[vm].maxRestarts > 0
    requires Within(Times(log, vm), from, from + policies[vm].restartWindow) <= policies[vm].maxRestarts
    ensures var to := from + policies[vm].restartWindow;
            Within(Times(log, vm), from, to) + Restarts(vm, from, to, ops, Answers(policies, false, log, ops))
                <= policies[vm].maxRestarts
    decreases |ops|
  {
    if ops != [] {
      var op, to := ops[0], from + policies[vm].restartWindow;
      var (log', ok) := Next(policies, false, log, op);
      if op.vm == vm && op.restart && ok {
        WithinAppend(Times(log, vm), op.now, from, to);
        if from < op.now <= to {
          WithinAtMostAfter(Times(log, vm), from, to, op.now - policies[vm].restartWindow);
        }
      }
      assert Answers(policies, false, log, ops)[1..] == Answers(policies, false, log', ops[1..]);
      FullLogRespectsWindow(policies, log', vm, from, ops[1..]);
    }
  }

  // ---------- What each answer says ----------

  lemma {:induction false} RecentAreWithin(times: seq<int>, cutoff: int, now: int)
    requires forall i | 0 <= i < |times| :: times[i] <= now
    ensures |After(times, cutoff)| == Within(times, cutoff, now)
  {
    if times != [] {
      RecentAreWithin(times[1..], cutoff, now);
    }
  }

  lemma {:induction false} FullAnswerCounts(policies: Policies, log: RestartLog, clock: int, ops: seq<Op>, i: nat)
    requires i < |ops| && Clocked(clock, ops) && Limited(policies, ops[i].vm)
    requires forall k | 0 <= k < |Times(log, ops[i].vm)| :: Times(log, ops[i].vm)[k] <= clock
    ensures var vm, now, answers := ops[i].vm, ops[i].now, Answers(policies, false, log, ops);
            var from := now - policies[vm].restartWindow;
            answers[i] <==>
              Within(Times(log, vm), from, now) + Restarts(vm, from, now, ops[..i],
                  answers[..i]) < policies[vm].maxRestarts
    decreases i
  {
    var vm, now, answers := ops[i].vm, ops[i].now, Answers(policies, false, log, ops);
    var from := now - policies[vm].restartWindow;
    if i == 0 {
      RecentAreWithin(Times(log, vm), from, now);
    } else {
      var log' := Next(policies, false, log, ops[0]).0;
      var rest := ops[1..];
      assert answers[1..] == Answers(policies, false, log', rest) && rest[i - 1] == ops[i];
      assert ops[..i][1..] == rest[..i - 1] && answers[..i][1..] == answers[1..][..i - 1];
      if ops[0].vm == vm {
        OwnTimes(policies, false, log, ops[0]);
        WithinAppend(Times(log, vm), ops[0].now, from, now);
        assert Times(log, vm) + [] == Times(log, vm);
      } else {
        OthersKeepTimes(policies, false, log, ops[0], vm);
      }
      ClockAdvances(clock, ops, i);
      FullAnswerCounts(policies, log', ops[0].now, rest, i - 1);
    }
  }

  lemma {:induction false} ClockAdvances(clock: int, ops: seq<Op>, i: nat)
    requires i < |ops| && Clocked(clock, ops)
    ensures clock <= ops[0].now <= ops[i].now
    decreases i
  {
    if i > 0 {
      ClockAdvances(ops[0].now, ops[1..], i - 1);
    }
  }

  predicate Limited(policies: Policies, vm: string) { vm in policies && policies[vm].maxRestarts > 0 }

  /**
   Every answer of every run: a VM without a policy or a limit may always restart,
   and any other exactly if it restarted fewer than MaxRestarts times in the window
   that ends with the question.
   */
  lemma {:induction false} AnswersCountRestarts(policies: Policies, ops: seq<Op>, i: nat)
    requires i < |ops| && Clocked(0, ops)
    ensures var vm, now, answers := ops[i].vm, ops[i].now, Answers(policies, true, map[], ops);
            answers[i] <==>
              vm in policies && policies[vm].maxRestarts > 0 ==>
              Restarts(vm, now - policies[vm].restartWindow, now, ops[..i], answers[..i]) < policies[vm].maxRestarts
  {
    PruningUnobservable(policies, map[], map[], 0, ops);
    if Limited(policies, ops[i].vm) {
      FullAnswerCounts(policies, map[], 0, ops, i);
    } else {
      UnlimitedMayRestart(policies, map[], ops, i);
    }
  }

  lemma {:induction false} UnlimitedMayRestart(policies: Policies, log: RestartLog, ops: seq<Op>, i: nat)
    requires i < |ops| && !Limited(policies, ops[i].vm)
    ensures Answers(policies, false, log, ops)[i]
    decreases i
  {
    if i > 0 {
      assert ops[1..][i - 1] == ops[i];
      UnlimitedMayRestart(policies, Next(policies, false, log, ops[0]).0, ops[1..], i - 1);
    }
  }

  // ---------- What a window holds ----------

  /** Any window (t, t + RestartWindow] of any run of the pruning manager holds at most MaxRestarts restarts. */
  lemma {:induction false} WindowLimit(policies: Policies, vm: string, from: int, ops: seq<Op>)
    requires vm in policies && policies[vm].maxRestarts > 0 && Clocked(0, ops)
    ensures Restarts(vm, from, from + policies[vm].restartWindow, ops, Answers(policies, true, map[], ops))
        <= policies[vm].maxRestarts
  {
    PruningUnobservable(policies, map[], map[], 0, ops);
    FullLogRespectsWindow(policies, map[], vm, from, ops);
  }

  // ---------- Windows that include both ends ----------

  lemma {:induction false} RestartsSplit(vm: string, from: int, mid: int, to: int, ops: seq<Op>, answers: seq<bool>)
    requires |answers| == |ops| && from <= mid <= to
    ensures Restarts(vm, from, to, ops, answers)
         == Restarts(vm, from, mid, ops, answers) + Restarts(vm, mid, to, ops, answers)
  {
    if ops != [] {
      RestartsSplit(vm, from, mid, to, ops[1..], answers[1..]);
    }
  }

  function Copies(t: int, n: nat): seq<int> { seq(n, _ => t) }

  /** n requests to restart vm at one instant. */
  function Asks(vm: string, now: int, n: nat): seq<Op> { seq(n, _ => Op(vm, now, true)) }

  lemma {:induction false} AfterCopies(t: int, n: nat, cutoff: int)
    ensures After(Copies(t, n), cutoff) == if t > cutoff then Copies(t, n) else []
  {
    if n > 0 {
      assert Copies(t, n)[1..] == Copies(t, n - 1) && Copies(t, n) == [t] + Copies(t, n - 1);
      AfterCopies(t, n - 1, cutoff);
    }
  }

  lemma {:induction false} OldCopiesGone(t: int, m: nat, to: int, k: nat)
    requires t < to
    ensures After(Copies(t, m) + Copies(to, k), t) == Copies(to, k)
  {
    AfterConcat(Copies(t, m), Copies(to, k), t);
    AfterCopies(t, m, t);
    AfterCopies(to, k, t);
  }

  /** A restart the window still allows counts, and is logged. */
  lemma {:induction false} AllowedRestart(policies: Policies, log: RestartLog, vm: string, from: int, to: int,
      ops: seq<Op>)
    returns (log': RestartLog)
    requires vm in policies && policies[vm].maxRestarts > 0
    requires ops != [] && ops[0] == Op(vm, ops[0].now, true) && from < ops[0].now <= to
    requires |After(Times(log, vm), ops[0].now - policies[vm].restartWindow)| < policies[vm].maxRestarts
    ensures Times(log', vm) == Times(log, vm) + [ops[0].now]
    ensures Restarts(vm, from, to, ops, Answers(policies, false, log, ops))
         == 1 + Restarts(vm, from, to, ops[1..], Answers(policies, false, log', ops[1..]))
  {
    log' := Next(policies, false, log, ops[0]).0;
    var answers := Answers(policies, false, log, ops);
    assert answers[0] && answers[1..] == Answers(policies, false, log', ops[1..]);
  }

  /** With a full window behind it, a whole new batch is allowed at the window's far end. */
  lemma {:induction false} FarEndAllows(policies: Policies, log: RestartLog, vm: string, t: int, n: nat)
    requires vm in policies && policies[vm].restartWindow > 0 && n <= policies[vm].maxRestarts
    requires var to := t + policies[vm].restartWindow;
             Times(log, vm) == Copies(t, policies[vm].maxRestarts) + Copies(to, policies[vm].maxRestarts - n)
    ensures var to := t + policies[vm].restartWindow;
            Restarts(vm, t - 1, to, Asks(vm, to, n), Answers(policies, false, log, Asks(vm, to, n))) == n
    decreases n
  {
    var m, to := policies[vm].maxRestarts, t + policies[vm].restartWindow;
    var ops := Asks(vm, to, n);
    if n > 0 {
      OldCopiesGone(t, m, to, m - n);
      var log' := AllowedRestart(policies, log, vm, t - 1, to, ops);
      assert Times(log', vm) == Copies(t, m) + Copies(to, m - (n - 1));
      assert ops[1..] == Asks(vm, to, n - 1);
      FarEndAllows(policies, log', vm, t, n - 1);
    }
  }

  lemma {:induction false} BothEndsAllow(policies: Policies, log: RestartLog, vm: string, t: int, n: nat)
    requires vm in policies && policies[vm].restartWindow > 0 && n <= policies[vm].maxRestarts
    requires policies[vm].maxRestarts > 0
    requires Times(log, vm) == Copies(t, policies[vm].maxRestarts - n)
    ensures var m, to := policies[vm].maxRestarts, t + policies[vm].restartWindow;
            var ops := Asks(vm, t, n) + Asks(vm, to, m);
            Restarts(vm, t - 1, to, ops, Answers(policies, false, log, ops)) == n + m
    decreases n
  {
    var m, to := policies[vm].maxRestarts, t + policies[vm].restartWindow;
    var ops := Asks(vm, t, n) + Asks(vm, to, m);
    if n == 0 {
      assert Copies(t, m) + Copies(to, 0) == Copies(t, m);
      assert ops == Asks(vm, to, m);
      FarEndAllows(policies, log, vm, t, m);
    } else {
      AfterCopies(t, m - n, t - policies[vm].restartWindow);
      var log' := AllowedRestart(policies, log, vm, t - 1, to, ops);
      assert Times(log', vm) == Copies(t, m - n) + [t] == Copies(t, m - (n - 1));
      assert ops[1..] == Asks(vm, t, n - 1) + Asks(vm, to, m);
      BothEndsAllow(policies, log', vm, t, n - 1);
    }
  }

  lemma {:induction false} AsksAreClocked(vm: string, from: int, now: int, n: nat, rest: seq<Op>)
    requires from <= now && Clocked(now, rest)
    ensures Clocked(from, Asks(vm, now, n) + rest)
    decreases n
  {
    var ops := Asks(vm, now, n) + rest;
    if n == 0 {
      assert ops == rest;
    } else {
      assert ops[0] == Op(vm, now, true) && ops[1..] == Asks(vm, now, n - 1) + rest;
      AsksAreClocked(vm, now, now, n - 1, rest);
    }
  }

  /** A window [t, t + RestartWindow] with both ends counted holds at most twice MaxRestarts restarts. */
  lemma {:induction false} ClosedWindowLimit(policies: Policies, vm: string, t: int, ops: seq<Op>)
    requires vm in policies && policies[vm].maxRestarts > 0 && policies[vm].restartWindow > 0 && Clocked(0, ops)
    ensures Restarts(vm, t - 1, t + policies[vm].restartWindow, ops, Answers(policies, true, map[], ops))
         <= 2 * policies[vm].maxRestarts
  {
    var w, answers := policies[vm].restartWindow, Answers(policies, true, map[], ops);
    WindowLimit(policies, vm, t - w, ops);
    WindowLimit(policies, vm, t, ops);
    RestartsSplit(vm, t - w, t - 1, t, ops, answers);
    RestartsSplit(vm, t - 1, t, t + w, ops, answers);
  }

  /** And for every policy and every such window some run fills it: MaxRestarts at each end. */
  lemma {:induction false} ClosedWindowMayHoldTwice(policies: Policies, vm: string, t: nat) returns (ops: seq<Op>)
    requires vm in policies && policies[vm].maxRestarts > 0 && policies[vm].restartWindow > 0
    ensures Clocked(0, ops)
    ensures Restarts(vm, t - 1, t + policies[vm].restartWindow, ops, Answers(policies, true, map[], ops))
         == 2 * policies[vm].maxRestarts
  {
    var m, to := policies[vm].maxRestarts, t + policies[vm].restartWindow;
    ops := Asks(vm, t, m) + Asks(vm, to, m);
    assert Asks(vm, to, m) + [] == Asks(vm, to, m);
    AsksAreClocked(vm, t, to, m, []);
    AsksAreClocked(vm, 0, t, m, Asks(vm, to, m));
    PruningUnobservable(policies, map[], map[], 0, ops);
    assert Times(map[], vm) == Copies(t, 0);
    BothEndsAllow(policies, map[], vm, t, m);
  }
}

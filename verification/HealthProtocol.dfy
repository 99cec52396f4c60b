/**
 One node record of internal/ha/health.go while a check and heartbeats run at
 once. CheckAll reads the record, counts a miss and reads it again in three
 locked sections, and a heartbeat may land between any two of them.
 */
module HealthProtocol {
  import opened HealthMonitor

  /** Where the one checker stands with this node: `seen` is the state it read, `now` the check's time. */
  datatype Checker = Resting | Due(seen: HealthState, now: int) | Counted(seen: HealthState, now: int)

  datatype Node = Node(health: Health, checker: Checker)

  const REGISTERED_NODE := Node(REGISTERED, Resting)

  datatype Step = Land(hb: Heartbeat) | Look(now: int) | Miss | Reread

  predicate Enabled(n: Node, e: Step) {
    match e
    case Land(hb) => hb.Valid()
    case Look(_) => n.checker.Resting?
    case Miss => n.checker.Due?
    case Reread => n.checker.Counted?
  }

  function Apply(t: HealthThresholds, n: Node, e: Step): Node
    requires t.Valid() && Enabled(n, e)
  {
    match e
    case Land(hb) => n.(health := Beaten(hb))
    case Look(now) =>
      if n.health.lastHeartbeat != ZERO_TIME && TruncDiv(now - n.health.lastHeartbeat, t.interval) > 0
      then n.(checker := Due(n.health.state, now))
      else n
    case Miss =>
      Node(Missed(n.health, n.checker.now, t.suspect, t.offline), Counted(n.checker.seen, n.checker.now))
    case Reread => n.(checker := Resting)
  }

  /** What the second reading reports. */
  predicate Reports(n: Node, oldState: HealthState, newState: HealthState) {
    n.checker.Counted? && n.checker.seen == oldState && n.health.state == newState && oldState != newState
  }

  predicate Legal(t: HealthThresholds, steps: seq<Step>)
    requires t.Valid()
    decreases |steps|, 0
  {
    steps == [] ||
    var k := |steps| - 1;
    Legal(t, steps[..k]) && Enabled(Reach(t, steps[..k]), steps[k])
  }

  /** The node after a run since its registration. */
  function Reach(t: HealthThresholds, steps: seq<Step>): Node
    requires t.Valid() && Legal(t, steps)
    decreases |steps|, 1
  {
    if steps == [] then REGISTERED_NODE
    else
      var k := |steps| - 1;
      Apply(t, Reach(t, steps[..k]), steps[k])
  }

  lemma {:induction false} Prefix(t: HealthThresholds, steps: seq<Step>, k: nat)
    requires t.Valid() && Legal(t, steps) && k <= |steps|
    ensures Legal(t, steps[..k])
    ensures k < |steps| ==> Enabled(Reach(t, steps[..k]), steps[k])
    decreases |steps|
  {
    if k == |steps| {
      assert steps[..k] == steps;
    } else if k < |steps| - 1 {
      Prefix(t, steps[..|steps| - 1], k);
      assert steps[..|steps| - 1][..k] == steps[..k];
    }
  }

  // ---------- A check without interference ----------

  /** A check of a resting node with nothing in between. */
  function Visit(t: HealthThresholds, n: Node, now: int): Node
    requires t.Valid() && n.checker.Resting?
  {
    var due := Apply(t, n, Look(now));
    if due.checker.Due? then Apply(t, Apply(t, due, Miss), Reread) else due
  }

  /** It does and reports what the sequential CheckAll does and reports for the node. */
  lemma {:induction false} VisitIsSequential(t: HealthThresholds, n: Node, id: string, now: int)
    requires t.Valid() && n.checker.Resting?
    ensures Visit(t, n, now) == Node(Checked(t, n.health, now), Resting)
    ensures var due := Apply(t, n, Look(now));
            forall o, s ::
              due.checker.Due? && Reports(Apply(t, due, Miss), o, s)
              <==> StateTransition(id, o, s, n.health.vms, now) in Reported(t, id, n.health, now)
  {
  }

  // ---------- What can be reported ----------

  /** A heartbeat has landed since the check's first reading. */
  predicate Landed(steps: seq<Step>) {
    if steps == [] then false
    else
      match steps[|steps| - 1]
      case Land(_) => true
      case Look(_) => false
      case _ => Landed(steps[..|steps| - 1])
  }

  /** The state follows the count, and what the checker read is the state until a heartbeat lands. */
  predicate NodeOk(t: HealthThresholds, n: Node, landed: bool) {
    && Consistent(t, n.health)
    && (n.checker.Due? && !landed ==> n.health.state == n.checker.seen)
    && (n.checker.Due? && landed ==> n.health.missed == 0)
    && (n.checker.Counted? && !landed ==> n.health.missed > 0 && n.checker.seen == StateFor(t, n.health.missed - 1))
    && (n.checker.Counted? && landed ==> n.health.missed <= 1)
    && (!n.checker.Resting? ==> n.health.lastHeartbeat != ZERO_TIME)
  }

  lemma {:induction false} NodesStayOk(t: HealthThresholds, steps: seq<Step>)
    requires t.Valid() && Legal(t, steps)
    ensures NodeOk(t, Reach(t, steps), Landed(steps))
  {
    if steps != [] {
      NodesStayOk(t, steps[..|steps| - 1]);
    }
  }

  /**
   Whatever lands in between, no miss skips suspect: a check undisturbed since its
   first reading reports one stage down or nothing, and one that a heartbeat
   overtook never finds the node offline, and finds it suspect only if one miss
   is enough for that.
   */
  lemma {:induction false} TransitionsMoveOneStage(
    t: HealthThresholds, steps: seq<Step>, oldState: HealthState, newState: HealthState)
    requires t.Valid() && Legal(t, steps) && Reports(Reach(t, steps), oldState, newState)
    ensures !Landed(steps) ==>
              (oldState == Online && newState == Suspect) || (oldState == Suspect && newState == Offline)
    ensures Landed(steps) ==> newState == Online || (newState == Suspect && t.suspect == 1)
    ensures Reach(t, steps).health.lastHeartbeat != ZERO_TIME
  {
    NodesStayOk(t, steps);
  }

  // ---------- One failover per outage ----------

  predicate ReportsOffline(n: Node, e: Step) {
    e.Reread? && n.checker.Counted? && n.checker.seen != Offline && n.health.state == Offline
  }

  /** How often the node was reported offline, and so failed over, since its last heartbeat. */
  function OfflineReports(t: HealthThresholds, steps: seq<Step>): nat
    requires t.Valid() && Legal(t, steps)
  {
    if steps == [] || steps[|steps| - 1].Land? then 0
    else
      var k := |steps| - 1;
      OfflineReports(t, steps[..k]) + if ReportsOffline(Reach(t, steps[..k]), steps[k]) then 1 else 0
  }

  predicate ReportDue(n: Node) {
    n.checker.Counted? && n.checker.seen != Offline
  }

  lemma {:induction false} ReportsFollowState(t: HealthThresholds, steps: seq<Step>)
    requires t.Valid() && Legal(t, steps)
    ensures OfflineReports(t, steps)
         == if Reach(t, steps).health.state == Offline && !ReportDue(Reach(t, steps)) then 1 else 0
  {
    if steps != [] {
      var before := steps[..|steps| - 1];
      ReportsFollowState(t, before);
      NodesStayOk(t, before);
    }
  }

  /**
   Since its last heartbeat a node has been reported offline at most once, and
   between checks exactly if it is offline: no outage is missed or served twice.
   */
  lemma {:induction false} ExactlyOneFailoverPerOutage(t: HealthThresholds, steps: seq<Step>)
    requires t.Valid() && Legal(t, steps)
    ensures OfflineReports(t, steps) <= 1
    ensures Reach(t, steps).checker.Resting? ==>
              (OfflineReports(t, steps) == 1 <==> Reach(t, steps).health.state == Offline)
  {
    ReportsFollowState(t, steps);
  }

  lemma {:induction false} ReportsAddUp(t: HealthThresholds, steps: seq<Step>, i: nat, j: nat)
    requires t.Valid() && Legal(t, steps) && i <= j <= |steps| && forall k | i <= k < j :: !steps[k].Land?
    ensures Legal(t, steps[..i]) && Legal(t, steps[..j])
    ensures OfflineReports(t, steps[..i]) <= OfflineReports(t, steps[..j])
    decreases j
  {
    Prefix(t, steps, i);
    Prefix(t, steps, j);
    if i < j {
      ReportsAddUp(t, steps, i, j - 1);
      assert steps[..j][..j - 1] == steps[..j - 1];
    }
  }

  /** Between two offline reports of one registration a heartbeat lands. */
  lemma {:induction false} OneFailoverPerOutage(t: HealthThresholds, steps: seq<Step>, i: nat, j: nat)
    requires t.Valid() && Legal(t, steps) && i < j < |steps|
    requires Legal(t, steps[..i]) && ReportsOffline(Reach(t, steps[..i]), steps[i])
    requires Legal(t, steps[..j]) && ReportsOffline(Reach(t, steps[..j]), steps[j])
    ensures exists k | i < k < j :: steps[k].Land?
  {
    if forall k | i < k < j :: !steps[k].Land? {
      Prefix(t, steps, i + 1);
      Prefix(t, steps, j + 1);
      assert steps[..i + 1][..i] == steps[..i] && steps[..j + 1][..j] == steps[..j];
      ReportsAddUp(t, steps, i + 1, j);
      ExactlyOneFailoverPerOutage(t, steps[..j + 1]);
    }
  }

  // ---------- Never offline early ----------

  lemma {:induction false} Intervals(a: int, b: int, interval: int)
    requires a <= b && interval > 0
    ensures a * interval <= b * interval && (a + 1) * interval == a * interval + interval
  {
  }

  /** The times of the node's checks. */
  function Looks(steps: seq<Step>): seq<int> {
    if steps == [] then []
    else
      Looks(steps[..|steps| - 1]) + (if steps[|steps| - 1].Look? then [steps[|steps| - 1].now] else [])
  }

  predicate SpacedAtLeast(gap: int, times: seq<int>) {
    forall i | 0 < i < |times| :: times[i] - times[i - 1] >= gap
  }

  /**
   The heartbeat lands between a check's first reading and its miss, and is too
   recent to explain that miss.
   */
  predicate CutsShort(t: HealthThresholds, n: Node, hb: Heartbeat) {
    n.checker.Due? && n.checker.now - hb.timestamp < t.interval
  }

  /** The last heartbeat did so. */
  predicate Interrupted(t: HealthThresholds, steps: seq<Step>)
    requires t.Valid() && Legal(t, steps)
  {
    steps != [] &&
    var k := |steps| - 1;
    if steps[k].Land? then CutsShort(t, Reach(t, steps[..k]), steps[k].hb) else Interrupted(t, steps[..k])
  }

  /** The misses counted so far, or about to be, that a heartbeat's silence explains. */
  function Explained(n: Node, interrupted: bool): int {
    n.health.missed + (if n.checker.Due? then 1 else 0) - (if interrupted then 1 else 0)
  }

  /** For each of them an interval passed between the heartbeat and the last check. */
  predicate Late(t: HealthThresholds, n: Node, interrupted: bool, looks: seq<int>) {
    && Explained(n, interrupted) >= 0
    && (n.checker.Due? ==> looks != [] && n.checker.now == looks[|looks| - 1])
    && (Explained(n, interrupted) > 0 ==>
          looks != [] && looks[|looks| - 1] - n.health.lastHeartbeat >= Explained(n, interrupted) * t.interval)
  }

  lemma {:induction false} LastLook(gap: int, steps: seq<Step>)
    requires steps != [] && SpacedAtLeast(gap, Looks(steps))
    ensures var before, e := Looks(steps[..|steps| - 1]), steps[|steps| - 1];
            && SpacedAtLeast(gap, before)
            && Looks(steps) == before + (if e.Look? then [e.now] else [])
            && (e.Look? && before != [] ==> e.now - before[|before| - 1] >= gap)
  {
    var before := Looks(steps[..|steps| - 1]);
    assert before == Looks(steps)[..|before|];
    if steps[|steps| - 1].Look? && before != [] {
      assert Looks(steps)[|before|] - Looks(steps)[|before| - 1] >= gap;
    }
  }

  lemma {:induction false} DueAfterInterval(elapsed: int, interval: int)
    requires interval > 0
    ensures TruncDiv(elapsed, interval) > 0 <==> elapsed >= interval
  {
    if elapsed >= interval {
      assert elapsed / interval >= 1;
    } else if elapsed >= 0 {
      assert elapsed / interval == 0;
    }
  }

  /** A look that finds the node due adds an interval of silence. */
  lemma {:induction false} LookStaysLate(t: HealthThresholds, n: Node, interrupted: bool, looks: seq<int>, now: int)
    requires t.Valid() && n.checker.Resting? && Late(t, n, interrupted, looks)
    requires looks != [] ==> now - looks[|looks| - 1] >= t.interval
    ensures Late(t, Apply(t, n, Look(now)), interrupted, looks + [now])
  {
    var x := Explained(n, interrupted);
    Intervals(x, x, t.interval);
    DueAfterInterval(now - n.health.lastHeartbeat, t.interval);
  }

  lemma {:induction false} MissesTakeTime(t: HealthThresholds, steps: seq<Step>)
    requires t.Valid() && Legal(t, steps) && SpacedAtLeast(t.interval, Looks(steps))
    ensures Late(t, Reach(t, steps), Interrupted(t, steps), Looks(steps))
  {
    if steps != [] {
      var before, e := steps[..|steps| - 1], steps[|steps| - 1];
      LastLook(t.interval, steps);
      MissesTakeTime(t, before);
      if e.Look? {
        LookStaysLate(t, Reach(t, before), Interrupted(t, before), Looks(before), e.now);
      }
    }
  }

  /**
   With checks at least one interval apart, offline means offlineThreshold
   intervals since the last heartbeat, or one fewer if that heartbeat cut a check
   short.
   */
  lemma {:induction false} OfflineNeverEarly(t: HealthThresholds, steps: seq<Step>)
    requires t.Valid() && Legal(t, steps) && SpacedAtLeast(t.interval, Looks(steps))
    requires Reach(t, steps).health.state == Offline
    ensures var looks, h := Looks(steps), Reach(t, steps).health;
            && looks != []
            && looks[|looks| - 1] - h.lastHeartbeat >= (t.offline - if Interrupted(t, steps) then 1 else 0) * t.interval
  {
    var n := Reach(t, steps);
    NodesStayOk(t, steps);
    MissesTakeTime(t, steps);
    Intervals(t.offline - (if Interrupted(t, steps) then 1 else 0), Explained(n, Interrupted(t, steps)), t.interval);
  }

  // ---------- Exactly then one interval can be lost ----------

  lemma {:induction false} Append(t: HealthThresholds, steps: seq<Step>, e: Step)
    requires t.Valid() && Legal(t, steps) && Enabled(Reach(t, steps), e)
    ensures Legal(t, steps + [e]) && Reach(t, steps + [e]) == Apply(t, Reach(t, steps), e)
    ensures Looks(steps + [e]) == Looks(steps) + (if e.Look? then [e.now] else [])
    ensures Interrupted(t, steps + [e])
         == if e.Land? then CutsShort(t, Reach(t, steps), e.hb) else Interrupted(t, steps)
  {
    assert (steps + [e])[..|steps|] == steps;
  }

  predicate Silent(steps: seq<Step>) {
    forall k | 0 <= k < |steps| :: !steps[k].Land?
  }

  /** Silence changes neither the last heartbeat nor whether it cut a check short. */
  lemma {:induction false} SilenceKeeps(t: HealthThresholds, steps: seq<Step>, more: seq<Step>)
    requires t.Valid() && Legal(t, steps + more) && Silent(more)
    ensures Legal(t, steps) && Interrupted(t, steps + more) == Interrupted(t, steps)
    ensures Reach(t, steps + more).health.lastHeartbeat == Reach(t, steps).health.lastHeartbeat
    decreases |more|
  {
    if more == [] {
      assert steps + more == steps;
    } else {
      var front := more[..|more| - 1];
      assert (steps + more)[..|steps + more| - 1] == steps + front;
      SilenceKeeps(t, steps, front);
    }
  }

  /** The run is offline too soon: less than offlineThreshold intervals after the heartbeat that was last at `steps`. */
  ghost predicate OfflineEarly(t: HealthThresholds, steps: seq<Step>, more: seq<Step>) {
    && t.Valid() && Legal(t, steps) && Legal(t, steps + more) && Silent(more)
    && SpacedAtLeast(t.interval, Looks(steps + more)) && Looks(steps + more) != []
    && var n, looks := Reach(t, steps + more), Looks(steps + more);
       n.health.state == Offline && looks[|looks| - 1] - Reach(t, steps).health.lastHeartbeat < t.offline * t.interval
  }

  /** The rest of the check under way, and k more an interval apart, the last at `last`. */
  function Rounds(t: HealthThresholds, k: nat, last: int): seq<Step> {
    if k == 0 then [] + [Miss] + [Reread]
    else Rounds(t, k - 1, last - t.interval) + [Look(last)] + [Miss] + [Reread]
  }

  lemma {:induction false} RoundsAreSilent(t: HealthThresholds, k: nat, last: int)
    ensures Silent(Rounds(t, k, last))
    decreases k
  {
    if k > 0 {
      RoundsAreSilent(t, k - 1, last - t.interval);
    }
  }

  /** k checks have been counted beyond the one cut short, the last due no later than `next - interval`. */
  ghost predicate Counting(t: HealthThresholds, steps: seq<Step>, sent: int, k: nat, next: int) {
    && t.Valid() && Legal(t, steps) && SpacedAtLeast(t.interval, Looks(steps))
    && Looks(steps) != [] && Looks(steps)[|Looks(steps)| - 1] + t.interval <= next
    && var n := Reach(t, steps);
       n.checker.Resting? && n.health.missed == k + 1 && n.health.state == StateFor(t, k + 1)
       && n.health.lastHeartbeat == sent != ZERO_TIME
  }

  lemma {:induction false} CountOneMore(t: HealthThresholds, steps: seq<Step>, sent: int, k: nat, next: int)
    requires Counting(t, steps, sent, k, next) && next - sent >= t.interval
    ensures var more := steps + [Look(next)] + [Miss] + [Reread];
            Counting(t, more, sent, k + 1, next + t.interval) && Looks(more)[|Looks(more)| - 1] == next
  {
    DueAfterInterval(next - sent, t.interval);
    Append(t, steps, Look(next));
    Append(t, steps + [Look(next)], Miss);
    Append(t, steps + [Look(next)] + [Miss], Reread);
  }

  /** A heartbeat that cuts a check short: the miss is counted against it all the same. */
  lemma {:induction false} CutCheckCounts(t: HealthThresholds, steps: seq<Step>, base: int)
    requires t.Valid() && Legal(t, steps) && SpacedAtLeast(t.interval, Looks(steps))
    requires steps != [] && steps[|steps| - 1].Land? && Interrupted(t, steps)
    requires Reach(t, steps).checker.now <= base
    ensures Counting(t, steps + Rounds(t, 0, base), steps[|steps| - 1].hb.timestamp, 0, base + t.interval)
    ensures Looks(steps + Rounds(t, 0, base))[|Looks(steps + Rounds(t, 0, base))| - 1] == Reach(t, steps).checker.now
  {
    MissesTakeTime(t, steps);
    Append(t, steps, Miss);
    Append(t, steps + [Miss], Reread);
    assert steps + Rounds(t, 0, base) == steps + [Miss] + [Reread];
  }

  lemma {:induction false} LastRound(base: int, k: nat, interval: int)
    requires k > 0 && interval > 0
    ensures base + k * interval - interval == base + (k - 1) * interval >= base
  {
    Intervals(0, k - 1, interval);
  }

  lemma {:induction false} RoundsSplit(t: HealthThresholds, steps: seq<Step>, k: nat, last: int)
    requires k > 0
    ensures steps + Rounds(t, k, last)
         == (steps + Rounds(t, k - 1, last - t.interval)) + [Look(last)] + [Miss] + [Reread]
  {
  }

  lemma {:induction false} RoundsCount(t: HealthThresholds, steps: seq<Step>, base: int, k: nat, last: int)
    requires t.Valid() && Legal(t, steps) && SpacedAtLeast(t.interval, Looks(steps))
    requires steps != [] && steps[|steps| - 1].Land? && Interrupted(t, steps)
    requires Reach(t, steps).checker.now <= base && steps[|steps| - 1].hb.timestamp <= base
    requires last == base + k * t.interval
    ensures var all := steps + Rounds(t, k, last);
            && Counting(t, all, steps[|steps| - 1].hb.timestamp, k, last + t.interval)
            && Looks(all)[|Looks(all)| - 1] == if k == 0 then Reach(t, steps).checker.now else last
    decreases k
  {
    if k == 0 {
      CutCheckCounts(t, steps, base);
    } else {
      LastRound(base, k, t.interval);
      RoundsCount(t, steps, base, k - 1, last - t.interval);
      CountOneMore(t, steps + Rounds(t, k - 1, last - t.interval), steps[|steps| - 1].hb.timestamp, k - 1, last);
      RoundsSplit(t, steps, k, last);
    }
  }

  /** After such a heartbeat, checks exactly one interval apart find the silent node offline too soon. */
  lemma {:induction false} CutCostsAnInterval(t: HealthThresholds, steps: seq<Step>) returns (more: seq<Step>)
    requires t.Valid() && Legal(t, steps) && SpacedAtLeast(t.interval, Looks(steps))
    requires steps != [] && steps[|steps| - 1].Land? && Interrupted(t, steps)
    ensures OfflineEarly(t, steps, more)
    ensures var now, sent := Reach(t, steps).checker.now, steps[|steps| - 1].hb.timestamp;
            Looks(steps + more)[|Looks(steps + more)| - 1]
            == (if now < sent then sent else now) + (t.offline - 1) * t.interval
  {
    var now, sent := Reach(t, steps).checker.now, steps[|steps| - 1].hb.timestamp;
    var base, k := if now < sent then sent else now, t.offline - 1;
    var last := base + k * t.interval;
    RoundsCount(t, steps, base, k, last);
    RoundsAreSilent(t, k, last);
    Intervals(k, k, t.interval);
    more := Rounds(t, k, last);
  }

  /**
   And it happens, for all thresholds: a heartbeat stamped with the time of the
   check it lands in is followed by offlineThreshold - 1 intervals only.
   */
  lemma {:induction false} GapCostsAnInterval(t: HealthThresholds, start: int) returns (steps: seq<Step>,
      more: seq<Step>)
    requires t.Valid() && start > ZERO_TIME
    ensures OfflineEarly(t, steps, more)
    ensures Looks(steps + more)[|Looks(steps + more)| - 1] - Reach(t, steps).health.lastHeartbeat
         == (t.offline - 1) * t.interval
  {
    var now := start + t.interval;
    var first, second := Land(Heartbeat("node", start, 0, [])), Land(Heartbeat("node", now, 0, []));
    assert t.interval / t.interval == 1;
    Append(t, [], first);
    Append(t, [] + [first], Look(now));
    Append(t, [] + [first] + [Look(now)], second);
    steps := [] + [first] + [Look(now)] + [second];
    more := CutCostsAnInterval(t, steps);
  }

  /**
   After any run of checks at least an interval apart that ends with a heartbeat,
   a silent node can be found offline before offlineThreshold intervals have
   passed exactly when that heartbeat cut a check short.
   */
  lemma {:induction false} OfflineEarlyIff(t: HealthThresholds, steps: seq<Step>)
    requires t.Valid() && Legal(t, steps) && SpacedAtLeast(t.interval, Looks(steps))
    requires steps != [] && steps[|steps| - 1].Land?
    ensures Interrupted(t, steps) <==> exists more: seq<Step> {:induction false} :: OfflineEarly(t, steps, more)
  {
    if Interrupted(t, steps) {
      var more := CutCostsAnInterval(t, steps);
    }
    forall more: seq<Step> | OfflineEarly(t, steps, more) ensures Interrupted(t, steps) {
      SilenceKeeps(t, steps, more);
      OfflineNeverEarly(t, steps + more);
    }
  }

  // ---------- Never offline late ----------

  /** The times of the checks after step i. */
  function LooksAfter(steps: seq<Step>, i: nat): seq<int> {
    if |steps| <= i + 1 then []
    else
      LooksAfter(steps[..|steps| - 1], i)
      + (if steps[|steps| - 1].Look? then [steps[|steps| - 1].now] else [])
  }

  /** Checks never more than one gap apart, the first at most one after `from`. */
  predicate SpacedAtMost(gap: int, from: int, times: seq<int>) {
    && (times != [] ==> times[0] - from <= gap)
    && (forall i | 0 < i < |times| :: times[i] - times[i - 1] <= gap)
  }

  function Latest(from: int, times: seq<int>): int {
    if times == [] then from else times[|times| - 1]
  }

  /**
   Step i is the node's last heartbeat, processed when the check before it, at
   `from`, had already begun; the checks since are at most one interval apart.
   */
  ghost predicate Outage(t: HealthThresholds, steps: seq<Step>, i: nat, from: int) {
    && t.Valid() && Legal(t, steps) && i < |steps| && steps[i].Land? && from <= steps[i].hb.timestamp
    && (forall k | i < k < |steps| :: !steps[k].Land?)
    && SpacedAtMost(t.interval, from, LooksAfter(steps, i))
  }

  lemma {:induction false} OutagePrefix(t: HealthThresholds, steps: seq<Step>, i: nat, from: int)
    requires Outage(t, steps, i, from) && i + 1 < |steps|
    ensures var before, e := steps[..|steps| - 1], steps[|steps| - 1];
            && Outage(t, before, i, from)
            && LooksAfter(steps, i) == LooksAfter(before, i) + (if e.Look? then [e.now] else [])
            && (e.Look? ==> e.now - Latest(from, LooksAfter(before, i)) <= t.interval)
  {
    var before := LooksAfter(steps[..|steps| - 1], i);
    assert before == LooksAfter(steps, i)[..|before|];
    if steps[|steps| - 1].Look? && before != [] {
      assert LooksAfter(steps, i)[|before|] - LooksAfter(steps, i)[|before| - 1] <= t.interval;
    }
  }

  /** The misses counted, or about to be, keep up with the silence since `sent`. */
  predicate KeepsUp(t: HealthThresholds, n: Node, sent: int, last: int) {
    && Consistent(t, n.health) && n.health.lastHeartbeat == sent && sent != ZERO_TIME
    && last - sent < (n.health.missed + (if n.checker.Due? then 1 else 0) + 1) * t.interval
  }

  lemma {:induction false} LookKeepsUp(t: HealthThresholds, n: Node, sent: int, last: int, now: int)
    requires t.Valid() && n.checker.Resting? && KeepsUp(t, n, sent, last) && now - last <= t.interval
    ensures KeepsUp(t, Apply(t, n, Look(now)), sent, now)
  {
    var elapsed := now - sent;
    Intervals(n.health.missed + 1, n.health.missed + 1, t.interval);
    if elapsed >= t.interval {
      assert elapsed / t.interval >= 1;
    } else {
      Intervals(1, n.health.missed + 1, t.interval);
    }
  }

  lemma {:induction false} SilenceIsCounted(t: HealthThresholds, steps: seq<Step>, i: nat, from: int)
    requires Outage(t, steps, i, from)
    ensures KeepsUp(t, Reach(t, steps), steps[i].hb.timestamp, Latest(from, LooksAfter(steps, i)))
  {
    var before, e := steps[..|steps| - 1], steps[|steps| - 1];
    if i + 1 < |steps| {
      OutagePrefix(t, steps, i, from);
      SilenceIsCounted(t, before, i, from);
      if e.Look? {
        LookKeepsUp(t, Reach(t, before), steps[i].hb.timestamp, Latest(from, LooksAfter(before, i)), e.now);
      }
    } else {
      Intervals(1, 1 + (if Reach(t, steps).checker.Due? then 1 else 0), t.interval);
    }
  }

  /** The node is offline, or the check under way is about to count it so. */
  predicate FoundOffline(t: HealthThresholds, n: Node) {
    n.health.state == Offline || (n.checker.Due? && n.health.missed + 1 >= t.offline)
  }

  lemma {:induction false} KeptUpIsFound(t: HealthThresholds, n: Node, sent: int, last: int)
    requires t.Valid() && KeepsUp(t, n, sent, last) && last - sent >= t.offline * t.interval
    ensures FoundOffline(t, n)
  {
    var counted := n.health.missed + if n.checker.Due? then 1 else 0;
    if counted < t.offline {
      Intervals(counted + 1, t.offline, t.interval);
    }
  }

  /**
   With checks at most one interval apart, a node silent since a heartbeat is
   found offline by a check less than offlineThreshold + 1 intervals after it,
   wherever in a check that heartbeat landed, provided the checks go on.
   */
  lemma {:induction false} OfflineNeverLate(t: HealthThresholds, steps: seq<Step>, i: nat, from: int) returns (k: nat)
    requires Outage(t, steps, i, from)
    requires Latest(from, LooksAfter(steps, i)) - steps[i].hb.timestamp >= t.offline * t.interval
    ensures i < k < |steps| && steps[k].Look?
    ensures steps[k].now - steps[i].hb.timestamp < (t.offline + 1) * t.interval
    ensures Legal(t, steps[..k + 1]) && FoundOffline(t, Reach(t, steps[..k + 1]))
    decreases |steps|
  {
    var before, sent := steps[..|steps| - 1], steps[i].hb.timestamp;
    Intervals(1, t.offline, t.interval);
    OutagePrefix(t, steps, i, from);
    if Latest(from, LooksAfter(before, i)) - sent >= t.offline * t.interval {
      k := OfflineNeverLate(t, before, i, from);
      assert before[..k + 1] == steps[..k + 1];
    } else {
      k := |steps| - 1;
      assert steps[..k + 1] == steps;
      Intervals(t.offline, t.offline, t.interval);
      SilenceIsCounted(t, steps, i, from);
      KeptUpIsFound(t, Reach(t, steps), sent, Latest(from, LooksAfter(steps, i)));
    }
  }
}

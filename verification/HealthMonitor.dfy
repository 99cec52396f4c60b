/**
 internal/ha/health.go: heartbeat processing and the missed-heartbeat state
 machine online -> suspect -> offline. Times and durations are nanoseconds.
 */
module HealthMonitor {
  import opened Wrappers

  datatype HealthState = Online | Suspect | Offline

  /** Go's zero time.Time. */
  const ZERO_TIME: int := 0

  datatype HealthThresholds = HealthThresholds(interval: int, suspect: int, offline: int) {
    /** HealthThresholds.Validate. */
    predicate Valid() { interval > 0 && suspect > 0 && offline > suspect }
  }

  datatype Heartbeat = Heartbeat(nodeID: string, timestamp: int, sequence: nat, vms: seq<string>) {
    /** Heartbeat.Validate. */
    predicate Valid() { nodeID != "" && timestamp != ZERO_TIME }
  }

  /** The fields of a NodeHealth. */
  datatype Health = Health(
    state: HealthState,
    lastHeartbeat: int,
    missed: nat,
    firstMissedAt: Option<int>,
    lastSequence: nat,
    vms: seq<string>)

  const REGISTERED := Health(Online, ZERO_TIME, 0, None, 0, [])

  function Beaten(hb: Heartbeat): Health {
    Health(Online, hb.timestamp, 0, None, hb.sequence, hb.vms)
  }

  function Missed(h: Health, now: int, suspect: int, offline: int): Health {
    var n := h.missed + 1;
    var state := if n >= offline then Offline
                 else if n >= suspect && h.state == Online then Suspect
                 else h.state;
    h.(missed := n, firstMissedAt := if h.firstMissedAt == None then Some(now) else h.firstMissedAt, state := state)
  }

  /** Go's integer division, which truncates towards zero. */
  function TruncDiv(a: int, b: int): int
    requires b > 0
  {
    if a >= 0 then a / b else -((-a) / b)
  }

  /** One node's part of CheckAll. */
  function Checked(t: HealthThresholds, h: Health, now: int): Health
    requires t.Valid()
  {
    if h.lastHeartbeat == ZERO_TIME then h
    else if TruncDiv(now - h.lastHeartbeat, t.interval) > 0 then Missed(h, now, t.suspect, t.offline)
    else h
  }

  datatype StateTransition = StateTransition(nodeID: string, oldState: HealthState, newState: HealthState,
      vms: seq<string>, timestamp: int)

  /** The transition CheckAll reports for one node, if any. */
  function Reported(t: HealthThresholds, id: string, h: Health, now: int): seq<StateTransition>
    requires t.Valid()
  {
    var h' := Checked(t, h, now);
    if h'.state != h.state then [StateTransition(id, h.state, h'.state, h.vms, now)] else []
  }

  predicate Reports(t: HealthThresholds, hs: Healths, now: int, tr: StateTransition)
    requires t.Valid()
  {
    tr.nodeID in hs && tr in Reported(t, tr.nodeID, hs[tr.nodeID], now)
  }

  /** One entry for each node outside todo that has something to report, and no other. */
  ghost predicate ReportsBeyond(t: HealthThresholds, hs: Healths, now: int, found: seq<StateTransition>,
      todo: set<string>)
    requires t.Valid()
  {
    && (forall tr :: tr in found <==> Reports(t, hs, now, tr) && tr.nodeID !in todo)
    && (forall i, j | 0 <= i < j < |found| :: found[i].nodeID != found[j].nodeID)
  }

  lemma {:induction false} ReportsGrow(t: HealthThresholds, hs: Healths, now: int, found: seq<StateTransition>,
      todo: set<string>, id: string, more: seq<StateTransition>)
    requires t.Valid() && ReportsBeyond(t, hs, now, found, todo) && id in todo && id in hs
        && more == Reported(t, id, hs[id], now)
    ensures ReportsBeyond(t, hs, now, found + more, todo - {id})
  {
    forall tr ensures tr in found + more <==> Reports(t, hs, now, tr) && tr.nodeID !in todo - {id} {
      assert tr in found + more <==> tr in found || tr in more;
    }
    assert forall tr | tr in found :: tr.nodeID != id;
  }

  /** Exactly the nodes whose state changed are reported, each with both states, its VMs and the time. */
  ghost predicate Announces(before: Healths, after: Healths, now: int, transitions: seq<StateTransition>) {
    && before.Keys == after.Keys
    && forall tr :: tr in transitions <==>
         && tr.nodeID in before && tr.oldState == before[tr.nodeID].state && tr.newState == after[tr.nodeID].state
         && tr.oldState != tr.newState && tr.vms == before[tr.nodeID].vms && tr.timestamp == now
  }

  class NodeHealth {
    const nodeID: string
    var state: HealthState
    var lastHeartbeat: int
    var missedHeartbeats: nat
    var firstMissedAt: Option<int>
    var lastSequence: nat
    var vms: seq<string>

    function View(): Health
      reads this
    {
      Health(state, lastHeartbeat, missedHeartbeats, firstMissedAt, lastSequence, vms)
    }

    constructor (id: string)
      ensures nodeID == id && View() == REGISTERED
    {
      nodeID, state, lastHeartbeat, missedHeartbeats := id, Online, ZERO_TIME, 0;
      firstMissedAt, lastSequence, vms := None, 0, [];
    }

    method UpdateHeartbeat(hb: Heartbeat)
      modifies this
      ensures View() == Beaten(hb)
    {
      lastHeartbeat := hb.timestamp;
      missedHeartbeats := 0;
      firstMissedAt := None;
      lastSequence := hb.sequence;
      vms := hb.vms;
      if state != Online {
        state := Online;
      }
    }

    method MissHeartbeat(now: int, suspectThreshold: int, offlineThreshold: int)
      modifies this
      ensures View() == Missed(old(View()), now, suspectThreshold, offlineThreshold)
    {
      missedHeartbeats := missedHeartbeats + 1;
      if firstMissedAt == None {
        firstMissedAt := Some(now);
      }
      if missedHeartbeats >= offlineThreshold {
        if state != Offline {
          state := Offline;
        }
      } else if missedHeartbeats >= suspectThreshold {
        if state == Online {
          state := Suspect;
        }
      }
    }
  }

  type Healths = map<string, Health>

  class HeartbeatProcessor {
    var nodes: map<string, NodeHealth>
    const threshold: HealthThresholds

    ghost predicate Valid()
      reads this, nodes.Values
    {
      threshold.Valid() && forall id | id in nodes :: nodes[id].nodeID == id
    }

    function Views(): Healths
      reads this, nodes.Values
    {
      map id | id in nodes :: nodes[id].View()
    }

    constructor (t: HealthThresholds)
      requires t.Valid()
      ensures Valid() && threshold == t && Views() == map[]
    {
      threshold, nodes := t, map[];
    }

    method RegisterNode(id: string)
      requires Valid()
      modifies this`nodes
      ensures Valid() && Views() == Step(threshold, old(Views()), Register(id))
    {
      if id !in nodes {
        var n := new NodeHealth(id);
        nodes := nodes[id := n];
      }
    }

    method UnregisterNode(id: string)
      requires Valid()
      modifies this`nodes
      ensures Valid() && Views() == Step(threshold, old(Views()), Unregister(id))
    {
      nodes := nodes - {id};
    }

    method ProcessHeartbeat(hb: Heartbeat) returns (ok: bool)
      requires Valid()
      modifies this`nodes, nodes.Values
      ensures Valid() && ok == hb.Valid()
      ensures ok <==> hb.nodeID != "" && hb.timestamp != ZERO_TIME
      ensures Views() == Step(threshold, old(Views()), Beat(hb))
    {
      if !hb.Valid() {
        return false;
      }
      if hb.nodeID !in nodes {
        var n := new NodeHealth(hb.nodeID);
        nodes := nodes[hb.nodeID := n];
      }
      nodes[hb.nodeID].UpdateHeartbeat(hb);
      return true;
    }

    /** The body of CheckAll's loop. */
    method CheckNode(id: string, now: int) returns (found: seq<StateTransition>)
      requires Valid() && id in nodes
      modifies nodes[id]
      ensures nodes[id].View() == Checked(threshold, old(nodes[id].View()), now)
      ensures found == Reported(threshold, id, old(nodes[id].View()), now)
    {
      var node := nodes[id];
      var oldState := node.state;
      found := [];
      if node.lastHeartbeat != ZERO_TIME {
        var expectedBeats := TruncDiv(now - node.lastHeartbeat, threshold.interval);
        if expectedBeats > 0 {
          node.MissHeartbeat(now, threshold.suspect, threshold.offline);
          if oldState != node.state {
            found := [StateTransition(id, oldState, node.state, node.vms, now)];
          }
        }
      }
    }

    method CheckAll(now: int) returns (transitions: seq<StateTransition>)
      requires Valid()
      modifies nodes.Values
      ensures Valid() && nodes == old(nodes)
      ensures Views() == Step(threshold, old(Views()), Check(now))
      ensures forall tr :: tr in transitions <==> Reports(threshold, old(Views()), now, tr)
      ensures Announces(old(Views()), Views(), now, transitions)
      ensures forall i, j | 0 <= i < j < |transitions| :: transitions[i].nodeID != transitions[j].nodeID
    {
      transitions := [];
      var todo := nodes.Keys;
      ghost var before := Views();
      while todo != {}
        invariant todo <= nodes.Keys
        invariant forall id | id in todo :: nodes[id].View() == before[id]
        invariant forall id | id in nodes && id !in todo :: nodes[id].View() == Checked(threshold, before[id], now)
        invariant ReportsBeyond(threshold, before, now, transitions, todo)
      {
        var id :| id in todo;
        var found := CheckNode(id, now);
        ReportsGrow(threshold, before, now, transitions, todo, id, found);
        transitions := transitions + found;
        todo := todo - {id};
      }
    }
  }

  // ---------- The controller's thresholds ----------

  /** The controller's copy of the thresholds beside the processor that uses its own. */
  class Monitor {
    var threshold: HealthThresholds
    const processor: HeartbeatProcessor

    constructor (p: HeartbeatProcessor, t: HealthThresholds)
      requires t.Valid()
      ensures processor == p && threshold == t
    {
      processor, threshold := p, t;
    }

    /** Rejects thresholds that do not validate; the processor's never change. */
    method SetThresholds(t: HealthThresholds) returns (ok: bool)
      modifies this`threshold
      ensures ok <==> t.interval > 0 && 0 < t.suspect < t.offline
      ensures threshold == if ok then t else old(threshold)
    {
      if !t.Valid() {
        return false;
      }
      threshold := t;
      return true;
    }

    /** The check of one tick goes by the thresholds the processor was built with, whatever was set since. */
    method Reconcile(now: int) returns (transitions: seq<StateTransition>)
      requires processor.Valid()
      modifies processor.nodes.Values
      ensures processor.Views() == Step(processor.threshold, old(processor.Views()), Check(now))
      ensures forall tr :: tr in transitions <==> Reports(processor.threshold, old(processor.Views()), now, tr)
      ensures Announces(old(processor.Views()), processor.Views(), now, transitions)
    {
      transitions := processor.CheckAll(now);
    }
  }

  /** A node that `missed` the given number of beats under the thresholds, last heard of at 1. */
  function NodeAfter(t: HealthThresholds, missed: nat): Health {
    Health(StateFor(t, missed), 1, missed, if missed == 0 then None else Some(1), 0, [])
  }

  /** A node that the two thresholds treat differently, found at the first field in which they differ. */
  lemma {:induction false} DifferentThresholdsShow(built: HealthThresholds, t: HealthThresholds) returns (h: Health,
      now: int)
    requires built.Valid() && t.Valid() && built != t
    ensures Consistent(built, h) && Checked(built, h, now) != Checked(t, h, now)
  {
    if built.interval != t.interval {
      var interval := if built.interval < t.interval then built.interval else t.interval;
      h, now := NodeAfter(built, 0), 1 + interval;
      assert interval / interval == 1;
      assert interval < built.interval ==> interval / built.interval == 0;
      assert interval < t.interval ==> interval / t.interval == 0;
    } else {
      now := 1 + built.interval;
      assert built.interval / built.interval == 1;
      var x, y := if built.offline != t.offline then built.offline else built.suspect,
                  if built.offline != t.offline then t.offline else t.suspect;
      h := NodeAfter(built, (if x < y then x else y) - 1);
    }
  }

  /**
   What the processor does at a tick is what the thresholds set since would make
   it do exactly when they are the ones it was built with.
   */
  lemma {:induction false} SettingTakesEffectIff(built: HealthThresholds, t: HealthThresholds)
    requires built.Valid() && t.Valid()
    ensures built == t <==> forall h, now | Consistent(built, h) :: Checked(built, h, now) == Checked(t, h, now)
  {
    if built != t {
      var h, now := DifferentThresholdsShow(built, t);
    }
  }

  // ---------- Runs ----------

  datatype Event = Register(id: string) | Unregister(id: string) | Beat(hb: Heartbeat) | Check(now: int)

  function Step(t: HealthThresholds, hs: Healths, e: Event): Healths
    requires t.Valid()
  {
    match e
    case Register(id) => if id in hs then hs else hs[id := REGISTERED]
    case Unregister(id) => hs - {id}
    case Beat(hb) => if hb.Valid() then hs[hb.nodeID := Beaten(hb)] else hs
    case Check(now) => map id | id in hs :: Checked(t, hs[id], now)
  }

  function Run(t: HealthThresholds, hs: Healths, events: seq<Event>): Healths
    requires t.Valid()
  {
    if events == [] then hs else Step(t, Run(t, hs, events[..|events| - 1]), events[|events| - 1])
  }

  // ---------- Health is a function of the missed count ----------

  function StateFor(t: HealthThresholds, missed: nat): HealthState {
    if missed >= t.offline then Offline else if missed >= t.suspect then Suspect else Online
  }

  /** The state the thresholds give for the count; a node never heard from is online. */
  predicate Consistent(t: HealthThresholds, h: Health) {
    && h.state == StateFor(t, h.missed)
    && (h.lastHeartbeat == ZERO_TIME ==> h.missed == 0 && h.state == Online)
    && (h.firstMissedAt == None <==> h.missed == 0)
  }

  /** In every reachable state each node's health is the one its missed count calls for. */
  lemma {:induction false} HealthFollowsMissedCount(t: HealthThresholds, events: seq<Event>)
    requires t.Valid()
    ensures forall id | id in Run(t, map[], events) :: Consistent(t, Run(t, map[], events)[id])
  {
    if events != [] {
      HealthFollowsMissedCount(t, events[..|events| - 1]);
    }
  }

  /** Checks at the given times, one after another. */
  function Checks(times: seq<int>): seq<Event> {
    seq(|times|, i requires 0 <= i < |times| => Check(times[i]))
  }

  lemma {:induction false} OneCheckCounts(t: HealthThresholds, hs: Healths, id: string, now: int)
    requires t.Valid() && id in hs && Consistent(t, hs[id])
    requires hs[id].lastHeartbeat != ZERO_TIME && now - hs[id].lastHeartbeat >= t.interval
    ensures id in Step(t, hs, Check(now))
    ensures var h, h' := hs[id], Step(t, hs, Check(now))[id];
            h' == h.(missed := h.missed + 1, state := StateFor(t, h.missed + 1),
                     firstMissedAt := if h.missed > 0 then h.firstMissedAt else Some(now))
  {
    assert (now - hs[id].lastHeartbeat) / t.interval >= 1;
  }

  /**
   Every check counts a miss for every node due by then: after n of them the node
   has n more, dates its first to the earliest uncounted, and is in the state its
   thresholds give; a node that is not due is left as it is.
   */
  lemma {:induction false} ChecksCountEveryNode(t: HealthThresholds, events: seq<Event>, times: seq<int>, id: string)
    requires t.Valid() && id in Run(t, map[], events)
    requires var h := Run(t, map[], events)[id];
             h.lastHeartbeat != ZERO_TIME && forall k | 0 <= k < |times| :: times[k] - h.lastHeartbeat >= t.interval
    ensures id in Run(t, map[], events + Checks(times))
    ensures var h, h' := Run(t, map[], events)[id], Run(t, map[], events + Checks(times))[id];
            && h'.missed == h.missed + |times| && h'.state == StateFor(t, h'.missed)
            && h'.firstMissedAt == (if h.missed > 0 || times == [] then h.firstMissedAt else Some(times[0]))
            && h'.lastHeartbeat == h.lastHeartbeat && h'.lastSequence == h.lastSequence && h'.vms == h.vms
    decreases |times|
  {
    if times == [] {
      HealthFollowsMissedCount(t, events);
      assert events + Checks(times) == events;
    } else {
      var fewer, all := times[..|times| - 1], events + Checks(times);
      assert all[..|all| - 1] == events + Checks(fewer) && all[|all| - 1] == Check(times[|times| - 1]);
      ChecksCountEveryNode(t, events, fewer, id);
      HealthFollowsMissedCount(t, events + Checks(fewer));
      OneCheckCounts(t, Run(t, map[], events + Checks(fewer)), id, times[|times| - 1]);
    }
  }

  lemma {:induction false} ChecksSpareOthers(t: HealthThresholds, events: seq<Event>, now: int, id: string)
    requires t.Valid() && id in Run(t, map[], events)
    requires var h := Run(t, map[], events)[id]; h.lastHeartbeat == ZERO_TIME || now - h.lastHeartbeat < t.interval
    ensures id in Run(t, map[], events + [Check(now)])
    ensures Run(t, map[], events + [Check(now)])[id] == Run(t, map[], events)[id]
  {
    assert (events + [Check(now)])[..|events|] == events;
    var elapsed := now - Run(t, map[], events)[id].lastHeartbeat;
    assert 0 <= elapsed < t.interval ==> elapsed / t.interval == 0;
  }

  /** The last heartbeat accepted from id since it was last unregistered. */
  function LatestBeat(events: seq<Event>, id: string): Option<Heartbeat> {
    if events == [] then None
    else
      match events[|events| - 1]
      case Beat(hb) => if hb.Valid() && hb.nodeID == id then Some(hb) else LatestBeat(events[..|events| - 1], id)
      case Unregister(gone) => if gone == id then None else LatestBeat(events[..|events| - 1], id)
      case _ => LatestBeat(events[..|events| - 1], id)
  }

  /** Checks never touch what a node reported: it is what its latest accepted heartbeat said. */
  lemma {:induction false} RecordsLatestBeat(t: HealthThresholds, events: seq<Event>, id: string)
    requires t.Valid()
    ensures LatestBeat(events, id).Some? ==> id in Run(t, map[], events)
    ensures id in Run(t, map[], events) ==>
              var h := Run(t, map[], events)[id];
              match LatestBeat(events, id)
              case None => h == REGISTERED
              case Some(hb) =>
                && h.lastHeartbeat == hb.timestamp && hb.timestamp != ZERO_TIME
                && h.lastSequence == hb.sequence && h.vms == hb.vms
  {
    if events != [] {
      RecordsLatestBeat(t, events[..|events| - 1], id);
    }
  }
}

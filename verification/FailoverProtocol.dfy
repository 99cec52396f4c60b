/**
 Any number of goroutines running the controller's triggerFailover
 (internal/ha/controller.go) against one orchestrator. Each lock-protected
 section is one step, and steps of different goroutines interleave freely.
 */
module FailoverProtocol {
  import opened Wrappers
  import opened Failover

  /** Where one goroutine stands in triggerFailover for its node. */
  datatype Phase =
    | Spawned(node: string)
    | Skipped(node: string)                                        // beginFailover returned false
    | Begun(node: string)
    | Timed(node: string, since: int)                              // start := time.Now()
    | Running(node: string, since: int, record: FailoverRecord)    // inside HandleHostFailure
    | Rejected(node: string, since: int)                           // "already in progress"
    | Finished(node: string, since: int, pos: nat)                 // record is the log's entry pos
    | Reported(node: string, since: int, pos: nat, found: Option<FailoverRecord>)
    | Ended(node: string, since: int, pos: nat)                    // endFailover done
  {
    /** Between beginFailover and endFailover. */
    predicate Holds() { Begun? || Timed? || Running? || Rejected? || Finished? || Reported? }

    predicate Logged() { Finished? || Reported? || Ended? }
  }

  /** A finished failover and the goroutine that ran it. */
  datatype Entry = Entry(record: FailoverRecord, run: nat)

  datatype State = State(
    inFlight: set<string>,
    active: map<string, FailoverRecord>,
    history: seq<FailoverRecord>,
    log: seq<Entry>,              // every finished failover, never cut
    clock: int,
    runs: map<nat, Phase>)

  function Init(clock: int): State { State({}, map[], [], [], clock, map[]) }

  datatype Action =
    | Spawn(run: nat, node: string)
    | Begin(run: nat)
    | ReadClock(run: nat, now: int)
    | Enter(run: nat, now: int)
    | Progress(run: nat, record: FailoverRecord)
    | Finish(run: nat, record: FailoverRecord)
    | Report(run: nat)
    | End(run: nat)

  /** The record of a run may change in everything but its node and start. */
  predicate SameFailover(a: FailoverRecord, b: FailoverRecord) {
    a.nodeID == b.nodeID && a.startedAt == b.startedAt
  }

  /** The goroutine is where the action needs it, and the clock does not go back. */
  predicate Enabled(s: State, a: Action) {
    match a
    case Spawn(r, _) => r !in s.runs
    case Begin(r) => r in s.runs && s.runs[r].Spawned?
    case ReadClock(r, now) => r in s.runs && s.runs[r].Begun? && s.clock <= now
    case Enter(r, now) => r in s.runs && s.runs[r].Timed? && s.clock <= now
    case Progress(r, rec) => r in s.runs && s.runs[r].Running? && SameFailover(rec, s.runs[r].record)
    case Finish(r, rec) => r in s.runs && s.runs[r].Running? && SameFailover(rec, s.runs[r].record) && rec.Terminal()
    // a run that did not complete returns before it looks for its record
    case Report(r) => r in s.runs && s.runs[r].Finished? && s.runs[r].pos < |s.log|
        && s.log[s.runs[r].pos].record.state == Complete
    case End(r) => r in s.runs && (s.runs[r].Rejected? || s.runs[r].Finished? || s.runs[r].Reported?)
  }

  function Apply(s: State, a: Action, maxHistory: nat): State
    requires Enabled(s, a)
  {
    match a
    case Spawn(r, node) => s.(runs := s.runs[r := Spawned(node)])
    case Begin(r) =>
      var node := s.runs[r].node;
      if node in s.inFlight then s.(runs := s.runs[r := Skipped(node)])
      else s.(inFlight := s.inFlight + {node}, runs := s.runs[r := Begun(node)])
    case ReadClock(r, now) => s.(clock := now, runs := s.runs[r := Timed(s.runs[r].node, now)])
    case Enter(r, now) =>
      var Timed(node, since) := s.runs[r];
      if node in s.active then s.(clock := now, runs := s.runs[r := Rejected(node, since)])
      else
        s.(clock := now,
           active := s.active[node := Detected(node, now)],
           runs := s.runs[r := Running(node, since, Detected(node, now))])
    case Progress(r, rec) =>
      var Running(node, since, _) := s.runs[r];
      s.(active := s.active[node := rec], runs := s.runs[r := Running(node, since, rec)])
    case Finish(r, rec) =>
      var Running(node, since, _) := s.runs[r];
      s.(active := s.active - {node},
         history := AddToHistory(s.history, rec, maxHistory),
         log := s.log + [Entry(rec, r)],
         runs := s.runs[r := Finished(node, since, |s.log|)])
    case Report(r) =>
      var Finished(node, since, pos) := s.runs[r];
      s.(runs := s.runs[r := Reported(node, since, pos, FindLast(s.history, node, since))])
    case End(r) =>
      var phase := s.runs[r];
      var pos := if phase.Rejected? then 0 else phase.pos;
      s.(inFlight := s.inFlight - {phase.node}, runs := s.runs[r := Ended(phase.node, phase.since, pos)])
  }

  /** Every action of the run is enabled when its turn comes. */
  predicate Legal(clock: int, maxHistory: nat, actions: seq<Action>)
    decreases |actions|, 0
  {
    actions == [] ||
    var n := |actions| - 1;
    Legal(clock, maxHistory, actions[..n]) && Enabled(Reach(clock, maxHistory, actions[..n]), actions[n])
  }

  function Reach(clock: int, maxHistory: nat, actions: seq<Action>): State
    requires Legal(clock, maxHistory, actions)
    decreases |actions|, 1
  {
    if actions == [] then Init(clock)
    else
      var n := |actions| - 1;
      Apply(Reach(clock, maxHistory, actions[..n]), actions[n], maxHistory)
  }

  function Records(log: seq<Entry>): (r: seq<FailoverRecord>)
    ensures |r| == |log|
  {
    seq(|log|, i requires 0 <= i < |log| => log[i].record)
  }

  // ---------- The invariant ----------

  /** One goroutine's share of the invariant. */
  ghost predicate RunOk(s: State, r: nat)
    requires r in s.runs
  {
    var p := s.runs[r];
    && (p.Holds() ==> p.node in s.inFlight)
    && !p.Rejected?
    && (p.Timed? || p.Running? || p.Logged() ==> p.since <= s.clock)
    && (p.Running? ==>
        p.node in s.active && s.active[p.node] == p.record && p.record.nodeID == p.node
        && p.since <= p.record.startedAt <= s.clock)
    && (p.Logged() ==>
        p.pos < |s.log| && s.log[p.pos].run == r && s.log[p.pos].record.nodeID == p.node
        && p.since <= s.log[p.pos].record.startedAt)
    && (p.Finished? || p.Reported? ==> forall j | p.pos < j < |s.log| :: s.log[j].record.nodeID != p.node)
  }

  /** The runs holding a node, and those active on it, are unique. */
  ghost predicate Exclusive(s: State) {
    && (forall r, q | r in s.runs && q in s.runs && r != q && s.runs[r].Holds() && s.runs[q].Holds() ::
        s.runs[r].node != s.runs[q].node)
    && (forall n | n in s.active :: exists r | r in s.runs :: s.runs[r].Running? && s.runs[r].node == n)
  }

  /** Each log entry is terminal and is the one entry of a run that finished. */
  ghost predicate LogOk(s: State) {
    && (forall i | 0 <= i < |s.log| :: s.log[i].record.Terminal() && s.log[i].run in s.runs)
    && (forall i | 0 <= i < |s.log| :: s.runs[s.log[i].run].Logged() && s.runs[s.log[i].run].pos == i)
  }

  ghost predicate Inv(s: State, maxHistory: nat) {
    && (forall r | r in s.runs :: RunOk(s, r))
    && Exclusive(s)
    && LogOk(s)
    && s.history == LastN(Records(s.log), maxHistory)
  }

  lemma {:induction false} OthersUntouched(s: State, a: Action, maxHistory: nat, r: nat)
    requires Enabled(s, a) && r != a.run
    ensures r in Apply(s, a, maxHistory).runs <==> r in s.runs
    ensures r in s.runs ==> Apply(s, a, maxHistory).runs[r] == s.runs[r]
  {
  }

  /** The step of a goroutine that holds another node leaves this one's share alone. */
  lemma {:induction false} OtherStaysOk(s: State, a: Action, maxHistory: nat, r: nat)
    requires Enabled(s, a) && r in s.runs && r != a.run && RunOk(s, r) && (a.run in s.runs ==> RunOk(s, a.run))
    requires a.run in s.runs && s.runs[r].Holds() && s.runs[a.run].Holds() ==> s.runs[r].node != s.runs[a.run].node
    ensures r in Apply(s, a, maxHistory).runs && RunOk(Apply(s, a, maxHistory), r)
  {
    OthersUntouched(s, a, maxHistory, r);
  }

  /** The acting goroutine's node is never active on another's behalf, so it is not refused. */
  lemma {:induction false} NotRefused(s: State, r: nat)
    requires Exclusive(s) && r in s.runs && s.runs[r].Timed?
    ensures s.runs[r].node !in s.active
  {
  }

  lemma {:induction false} ActorStaysOk(s: State, a: Action, maxHistory: nat)
    requires Enabled(s, a) && Exclusive(s) && (a.run in s.runs ==> RunOk(s, a.run))
    ensures a.run in Apply(s, a, maxHistory).runs && RunOk(Apply(s, a, maxHistory), a.run)
  {
    if a.Enter? {
      NotRefused(s, a.run);
    }
  }

  lemma {:induction false} RunsStayOk(s: State, a: Action, maxHistory: nat)
    requires Inv(s, maxHistory) && Enabled(s, a)
    ensures forall r | r in Apply(s, a, maxHistory).runs :: RunOk(Apply(s, a, maxHistory), r)
  {
    forall r | r in Apply(s, a, maxHistory).runs ensures RunOk(Apply(s, a, maxHistory), r) {
      if r == a.run {
        ActorStaysOk(s, a, maxHistory);
      } else {
        OthersUntouched(s, a, maxHistory, r);
        OtherStaysOk(s, a, maxHistory, r);
      }
    }
  }

  /** Passing the guard takes a node that no other goroutine holds. */
  lemma {:induction false} ActorStaysDistinct(s: State, a: Action, maxHistory: nat, q: nat)
    requires Enabled(s, a) && q in s.runs && q != a.run && RunOk(s, q) && s.runs[q].Holds()
    requires a.run in s.runs && s.runs[a.run].Holds() ==> s.runs[a.run].node != s.runs[q].node
    requires a.run in Apply(s, a, maxHistory).runs && Apply(s, a, maxHistory).runs[a.run].Holds()
    ensures Apply(s, a, maxHistory).runs[a.run].node != s.runs[q].node
  {
  }

  lemma {:induction false} HoldersStayDistinct(s: State, a: Action, maxHistory: nat, r: nat, q: nat)
    requires Inv(s, maxHistory) && Enabled(s, a) && r != q
    requires var s' := Apply(s, a, maxHistory); r in s'.runs && q in s'.runs && s'.runs[r].Holds() && s'.runs[q].Holds()
    ensures var s' := Apply(s, a, maxHistory); s'.runs[r].node != s'.runs[q].node
  {
    if q == a.run {
      OthersUntouched(s, a, maxHistory, r);
      ActorStaysDistinct(s, a, maxHistory, r);
    } else {
      OthersUntouched(s, a, maxHistory, q);
      if r == a.run {
        ActorStaysDistinct(s, a, maxHistory, q);
      } else {
        OthersUntouched(s, a, maxHistory, r);
      }
    }
  }

  lemma {:induction false} ActiveStaysRun(s: State, a: Action, maxHistory: nat, n: string) returns (r: nat)
    requires Inv(s, maxHistory) && Enabled(s, a) && n in Apply(s, a, maxHistory).active
    ensures var s' := Apply(s, a, maxHistory); r in s'.runs && s'.runs[r].Running? && s'.runs[r].node == n
  {
    if n in s.active {
      r :| r in s.runs && s.runs[r].Running? && s.runs[r].node == n;
    } else {
      r := a.run;
    }
    if a.run in s.runs {
      assert RunOk(s, a.run);
    }
  }

  lemma {:induction false} StaysExclusive(s: State, a: Action, maxHistory: nat)
    requires Inv(s, maxHistory) && Enabled(s, a)
    ensures Exclusive(Apply(s, a, maxHistory))
  {
    var s' := Apply(s, a, maxHistory);
    forall r, q | r in s'.runs && q in s'.runs && r != q && s'.runs[r].Holds() && s'.runs[q].Holds()
      ensures s'.runs[r].node != s'.runs[q].node
    {
      HoldersStayDistinct(s, a, maxHistory, r, q);
    }
    forall n | n in s'.active
      ensures exists r | r in s'.runs :: s'.runs[r].Running? && s'.runs[r].node == n
    {
      var r := ActiveStaysRun(s, a, maxHistory, n);
    }
  }

  lemma {:induction false} LogStaysOk(s: State, a: Action, maxHistory: nat)
    requires LogOk(s) && (a.run in s.runs ==> RunOk(s, a.run)) && Enabled(s, a)
    ensures LogOk(Apply(s, a, maxHistory))
  {
    var s' := Apply(s, a, maxHistory);
    forall i | 0 <= i < |s'.log|
      ensures s'.log[i].record.Terminal() && s'.log[i].run in s'.runs && s'.runs[s'.log[i].run].Logged()
          && s'.runs[s'.log[i].run].pos == i
    {
      if i < |s.log| {
        assert s'.log[i] == s.log[i];
        assert s.runs[s.log[i].run].Logged() && s.runs[s.log[i].run].pos == i;
      }
    }
  }

  lemma {:induction false} HistoryStaysSuffix(s: State, a: Action, maxHistory: nat)
    requires s.history == LastN(Records(s.log), maxHistory) && Enabled(s, a)
    ensures Apply(s, a, maxHistory).history == LastN(Records(Apply(s, a, maxHistory).log), maxHistory)
  {
    if a.Finish? {
      HistoryStep(Records(s.log), a.record, maxHistory);
      assert Records(Apply(s, a, maxHistory).log) == Records(s.log) + [a.record];
    }
  }

  lemma {:induction false} Reachable(clock: int, maxHistory: nat, actions: seq<Action>)
    requires Legal(clock, maxHistory, actions)
    ensures Inv(Reach(clock, maxHistory, actions), maxHistory)
  {
    if actions != [] {
      var n := |actions| - 1;
      Reachable(clock, maxHistory, actions[..n]);
      var s := Reach(clock, maxHistory, actions[..n]);
      RunsStayOk(s, actions[n], maxHistory);
      StaysExclusive(s, actions[n], maxHistory);
      LogStaysOk(s, actions[n], maxHistory);
      HistoryStaysSuffix(s, actions[n], maxHistory);
    } else {
      assert LastN<FailoverRecord>([], maxHistory) == [];
    }
  }

  // ---------- The orchestrator takes the protocol's steps ----------

  /** The orchestrator's fields are the state's. */
  ghost predicate Represents(o: Orchestrator, s: State)
    reads o
  {
    o.activeFailovers == s.active && o.history == s.history
  }

  /**
   HandleHostFailure takes the goroutine through Enter and, unless it is refused
   there, through Finish with the very record it logs.
   */
  method HandleInProtocol(o: Orchestrator, ghost s: State, ghost run: nat, started: int, finished: int,
      nodeID: string, a: Answers)
    returns (r: Outcome, ghost record: FailoverRecord, ghost s': State)
    requires Represents(o, s)
    requires run in s.runs && s.runs[run].Timed? && s.runs[run].node == nodeID && s.clock <= started
    modifies o
    ensures Represents(o, s')
    ensures Enabled(s, Enter(run, started))
    ensures var entered := Apply(s, Enter(run, started), o.maxHistory);
            if r == AlreadyInProgress then s' == entered && entered.runs[run].Rejected?
            else
              && Enabled(entered, Finish(run, record))
              && s' == Apply(entered, Finish(run, record), o.maxHistory)
              && (record.state == Complete <==> r == Done)
  {
    ghost var assignments;
    r, record, assignments := o.HandleHostFailure(nodeID, started, finished, a);
    s' := Apply(s, Enter(run, started), o.maxHistory);
    if r != AlreadyInProgress {
      s' := Apply(s', Finish(run, record), o.maxHistory);
    }
  }

  /** The actions lead from s to t. */
  predicate Runs(s: State, actions: seq<Action>, maxHistory: nat, t: State)
    decreases |actions|
  {
    if actions == [] then s == t
    else Enabled(s, actions[0]) && Runs(Apply(s, actions[0], maxHistory), actions[1..], maxHistory, t)
  }

  lemma {:induction false} RunsOn(s: State, a: Action, rest: seq<Action>, maxHistory: nat, t: State)
    requires Enabled(s, a) && Runs(Apply(s, a, maxHistory), rest, maxHistory, t)
    ensures Runs(s, [a] + rest, maxHistory, t)
  {
    assert ([a] + rest)[1..] == rest;
  }

  /** The steps of one goroutine from the guard to its release. */
  function TriggerSteps(run: nat, start: int, started: int, record: FailoverRecord): seq<Action> {
    var ending := if record.state == Complete then [Report(run)] + ([End(run)] + []) else [End(run)] + [];
    [Begin(run)] + ([ReadClock(run, start)] + ([Enter(run, started)] + ([Finish(run, record)] + ending)))
  }

  /** Where those steps leave things: the node free again, and one entry more in the log. */
  function Triggered(s: State, run: nat, start: int, started: int, record: FailoverRecord, maxHistory: nat): State
    requires run in s.runs && s.runs[run].Spawned?
  {
    s.(history := AddToHistory(s.history, record, maxHistory),
       log := s.log + [Entry(record, run)],
       clock := started,
       runs := s.runs[run := Ended(s.runs[run].node, start, |s.log|)])
  }

  lemma {:induction false} TriggerRuns(s: State, run: nat, start: int, started: int, record: FailoverRecord,
      maxHistory: nat)
    requires run in s.runs && s.runs[run].Spawned? && s.clock <= start <= started && record.Terminal()
    requires record.nodeID == s.runs[run].node && record.startedAt == started
    requires s.runs[run].node !in s.inFlight && s.runs[run].node !in s.active
    ensures Runs(s, TriggerSteps(run, start, started, record), maxHistory,
              Triggered(s, run, start, started, record, maxHistory))
  {
    var s1 := Apply(s, Begin(run), maxHistory);
    var s2 := Apply(s1, ReadClock(run, start), maxHistory);
    var s3 := Apply(s2, Enter(run, started), maxHistory);
    var s4 := Apply(s3, Finish(run, record), maxHistory);
    var end := Triggered(s, run, start, started, record, maxHistory);
    var ending := if record.state == Complete then [Report(run)] + ([End(run)] + []) else [End(run)] + [];
    FinishedEnds(s, s4, run, start, started, record, maxHistory, end);
    RunsOn(s3, Finish(run, record), ending, maxHistory, end);
    RunsOn(s2, Enter(run, started), [Finish(run, record)] + ending, maxHistory, end);
    RunsOn(s1, ReadClock(run, start), [Enter(run, started)] + ([Finish(run, record)] + ending), maxHistory, end);
    RunsOn(s, Begin(run), [ReadClock(run, start)] + ([Enter(run, started)] + ([Finish(run, record)] + ending)),
      maxHistory, end);
  }

  lemma {:induction false} FinishedEnds(
    s: State, s4: State, run: nat, start: int, started: int, record: FailoverRecord, maxHistory: nat, end: State)
    requires run in s.runs && s.runs[run].Spawned? && s.runs[run].node !in s.inFlight && s.runs[run].node !in s.active
    requires end == Triggered(s, run, start, started, record, maxHistory)
    requires s4.inFlight == s.inFlight + {s.runs[run].node} && s4.active == s.active
    requires s4.history == end.history && s4.log == end.log && s4.clock == started
    requires s4.runs == s.runs[run := Finished(s.runs[run].node, start, |s.log|)]
    ensures Runs(s4, if record.state == Complete then [Report(run)] + ([End(run)] + []) else [End(run)] + [],
              maxHistory, end)
  {
    var node := s.runs[run].node;
    assert s4.inFlight - {node} == s.inFlight;
    assert s4.log[|s.log|].record == record;
    if record.state == Complete {
      var s5 := Apply(s4, Report(run), maxHistory);
      assert Apply(s5, End(run), maxHistory).runs == end.runs;
      RunsOn(s5, End(run), [], maxHistory, end);
      RunsOn(s4, Report(run), [End(run)] + [], maxHistory, end);
    } else {
      assert Apply(s4, End(run), maxHistory).runs == end.runs;
      RunsOn(s4, End(run), [], maxHistory, end);
    }
  }

  /** TriggerFailover, run without interference, is one goroutine's run: skipped at the guard or taken to the end. */
  method TriggerInProtocol(
    ctl: Controller, ghost s: State, ghost run: nat, nodeID: string, start: int, started: int, finished: int,
        a: Answers)
    returns (r: Outcome, found: Option<FailoverRecord>, ghost actions: seq<Action>, ghost t: State)
    requires ctl.Valid() && ctl.orchestrator.maxHistory > 0
    requires Represents(ctl.orchestrator, s) && ctl.inFlight == s.inFlight
    requires run in s.runs && s.runs[run] == Spawned(nodeID) && s.clock <= start <= started
    modifies ctl`inFlight, ctl.orchestrator
    ensures Represents(ctl.orchestrator, t) && ctl.inFlight == t.inFlight
    ensures Runs(s, actions, ctl.orchestrator.maxHistory, t)
    ensures nodeID in s.inFlight ==> actions == [Begin(run)] && t.runs == s.runs[run := Skipped(nodeID)]
    ensures nodeID !in s.inFlight ==>
              exists record :: actions == TriggerSteps(run, start, started, record)
                && t == Triggered(s, run, start, started, record, ctl.orchestrator.maxHistory)
                && (r == Done ==> found == Some(record))
  {
    ghost var record;
    r, found, record := ctl.TriggerFailover(nodeID, start, started, finished, a);
    if r == AlreadyInProgress {
      t := Apply(s, Begin(run), ctl.orchestrator.maxHistory);
      actions := [Begin(run)];
      assert actions == [Begin(run)] + [];
      RunsOn(s, Begin(run), [], ctl.orchestrator.maxHistory, t);
    } else {
      t := Triggered(s, run, start, started, record, ctl.orchestrator.maxHistory);
      actions := TriggerSteps(run, start, started, record);
      TriggerRuns(s, run, start, started, record, ctl.orchestrator.maxHistory);
    }
  }

  // ---------- What every run keeps ----------

  /**
   In every reachable state the orchestrator's active nodes are in flight at the
   controller, no two goroutines are past the guard for one node, and no
   failover was refused as already in progress.
   */
  lemma {:induction false} OneFailoverPerNode(clock: int, maxHistory: nat, actions: seq<Action>)
    requires Legal(clock, maxHistory, actions)
    ensures var s := Reach(clock, maxHistory, actions);
            && s.active.Keys <= s.inFlight
            && (forall r | r in s.runs :: !s.runs[r].Rejected?)
            && (forall r, q | r in s.runs && q in s.runs && r != q && s.runs[r].Holds() && s.runs[q].Holds() ::
                s.runs[r].node != s.runs[q].node)
  {
    Reachable(clock, maxHistory, actions);
    var s := Reach(clock, maxHistory, actions);
    forall n | n in s.active ensures n in s.inFlight {
      var r :| r in s.runs && s.runs[r].Running? && s.runs[r].node == n;
      assert RunOk(s, r);
    }
    forall r | r in s.runs ensures !s.runs[r].Rejected? {
      assert RunOk(s, r);
    }
  }

  /** A run past its failover has exactly one entry in the log, terminal and for its node; any other run has none. */
  lemma {:induction false} OneRecordPerRun(clock: int, maxHistory: nat, actions: seq<Action>, r: nat)
    requires Legal(clock, maxHistory, actions) && r in Reach(clock, maxHistory, actions).runs
    ensures var s := Reach(clock, maxHistory, actions);
            var p := s.runs[r];
            && (p.Logged() ==>
                p.pos < |s.log| && s.log[p.pos].record.Terminal() && s.log[p.pos].record.nodeID == p.node)
            && (forall i | 0 <= i < |s.log| :: s.log[i].run == r <==> p.Logged() && i == p.pos)
  {
    Reachable(clock, maxHistory, actions);
    assert RunOk(Reach(clock, maxHistory, actions), r);
  }

  lemma {:induction false} FindsOwnEntry(log: seq<Entry>, maxHistory: nat, node: string, since: int, pos: nat)
    requires pos < |log| && Matches(log[pos].record, node, since)
    requires forall j | pos < j < |log| :: log[j].record.nodeID != node
    ensures FindLast(LastN(Records(log), maxHistory), node, since)
         == if |log| - pos <= maxHistory then Some(log[pos].record) else None
  {
    var history := LastN(Records(log), maxHistory);
    var cut := |log| - |history|;
    forall j | 0 <= j < |history| ensures history[j] == log[cut + j].record {
      LastNAt(Records(log), maxHistory, j);
    }
    if |log| - pos <= maxHistory {
      FindLastIs(history, node, since, pos - cut);
    } else {
      FindLastNone(history, node, since);
    }
  }

  /**
   A completed run that looks for its record finds its own, or nothing if
   maxHistory later failovers of other nodes have pushed it out.
   */
  lemma {:induction false} ReportsOwnRecord(clock: int, maxHistory: nat, actions: seq<Action>, r: nat)
    requires Legal(clock, maxHistory, actions) && Enabled(Reach(clock, maxHistory, actions), Report(r))
    ensures var s := Reach(clock, maxHistory, actions);
            var pos := s.runs[r].pos;
            && s.log[pos].run == r
            && Apply(s, Report(r), maxHistory).runs[r].found
               == if |s.log| - pos <= maxHistory then Some(s.log[pos].record) else None
  {
    Reachable(clock, maxHistory, actions);
    var s := Reach(clock, maxHistory, actions);
    assert RunOk(s, r);
    FindsOwnEntry(s.log, maxHistory, s.runs[r].node, s.runs[r].since, s.runs[r].pos);
  }

  /** When every goroutine has returned, nothing is in flight or active. */
  lemma {:induction false} NothingLeftBehind(clock: int, maxHistory: nat, actions: seq<Action>)
    requires Legal(clock, maxHistory, actions)
    requires forall r | r in Reach(clock, maxHistory, actions).runs ::
               Reach(clock, maxHistory, actions).runs[r].Ended? || Reach(clock, maxHistory, actions).runs[r].Skipped?
    ensures Reach(clock, maxHistory, actions).active == map[] && Reach(clock, maxHistory, actions).inFlight == {}
  {
    Reachable(clock, maxHistory, actions);
    InFlightIsHeld(clock, maxHistory, actions);
    var s := Reach(clock, maxHistory, actions);
    assert forall n | n in s.inFlight :: Held(s, n);
  }

  /** Some goroutine past the guard holds the node. */
  ghost predicate Held(s: State, n: string) {
    exists r | r in s.runs :: s.runs[r].Holds() && s.runs[r].node == n
  }

  lemma {:induction false} InFlightIsHeld(clock: int, maxHistory: nat, actions: seq<Action>)
    requires Legal(clock, maxHistory, actions)
    ensures forall n | n in Reach(clock, maxHistory, actions).inFlight :: Held(Reach(clock, maxHistory, actions), n)
  {
    if actions != [] {
      var k := |actions| - 1;
      InFlightIsHeld(clock, maxHistory, actions[..k]);
      var s, a := Reach(clock, maxHistory, actions[..k]), actions[k];
      var s' := Reach(clock, maxHistory, actions);
      forall n | n in s'.inFlight ensures Held(s', n) {
        if n in s.inFlight {
          assert Held(s, n);
          var r :| r in s.runs && s.runs[r].Holds() && s.runs[r].node == n;
          assert r in s'.runs && s'.runs[r].Holds() && s'.runs[r].node == n;
        } else {
          assert s'.runs[a.run].Holds() && s'.runs[a.run].node == n;
        }
      }
    }
  }
}

/**
 When concurrent MigrateVM calls (internal/manager/manager.go) keep each row
 honest about where its VM runs. A call reads the row before it claims the
 target, so by the time of the claim the row may have changed.
 */
module MigrationTruth {
  import opened Wrappers
  import opened Capacity
  import opened CapacityProtocol

  /** The row names the host its VM is on. */
  predicate Right(s: State, id: string) {
    id in s.table ==> id in s.at && s.table[id].host == Some(s.at[id])
  }

  /** A row that says "running" names the host its VM is on. */
  predicate Honest(s: State, id: string) {
    id in s.table && s.table[id].status == Running ==> Right(s, id)
  }

  /** A claim rests on a right row, and outside migrations only the right row of an unclaimed VM is set running. */
  ghost predicate Prudent(s: State, a: Action) {
    && (a.PlaceClaim? && PhaseOf(s, a.c).MoveListed? ==> Right(s, s.calls[a.c].vm.id))
    && (a.WriteStatus? && a.status == Running ==> Right(s, a.id) && a.id !in s.claims)
  }

  /** How far a call's row and VM have come. */
  predicate CallHonest(s: State, c: nat) {
    var p := PhaseOf(s, c);
    && (p.Claimed? || p.Marked? || p.NotMoved? ==> Right(s, p.vm.id))
    && (p.Marked? || p.NotMoved? || p.Moved? ==> p.vm.id in s.table ==> s.table[p.vm.id].status != Running)
    && (p.Moved? ==> p.vm.id in s.at && s.at[p.vm.id] == p.target)
  }

  ghost predicate AllHonest(s: State) {
    (forall id :: Honest(s, id)) && (forall c: nat :: CallHonest(s, c))
  }

  lemma {:induction false} RowsStayHonest(hosts: Hosts, s: State, a: Action, id: string)
    requires Inv(hosts, s) && AllHonest(s) && Enabled(hosts, s, a) && Prudent(s, a)
    ensures Honest(Apply(hosts, s, a), id)
  {
    assert Honest(s, id);
    if a.ByCaller() {
      assert CallHonest(s, a.c) && CallOk(hosts, s, a.c);
    }
  }

  /** A step leaves the host, the location and a status other than "running" of VMs it has no claim on as they were. */
  lemma {:induction false} OtherRowsUntouched(hosts: Hosts, s: State, a: Action, id: string)
    requires Enabled(hosts, s, a) && id in s.issued && id in s.claims && Prudent(s, a)
    requires a.ByCaller() && PhaseOf(s, a.c).HoldsClaim() ==> PhaseOf(s, a.c).vm.id != id
    ensures var s' := Apply(hosts, s, a);
            && (id in s'.table ==>
                  && id in s.table && s'.table[id].host == s.table[id].host
                  && (s.table[id].status != Running ==> s'.table[id].status != Running))
            && (id in s.at ==> id in s'.at && s'.at[id] == s.at[id])
  {
  }

  lemma {:induction false} OtherCallsStayHonest(hosts: Hosts, s: State, a: Action, c: nat)
    requires Inv(hosts, s) && AllHonest(s) && Enabled(hosts, s, a) && Prudent(s, a) && !By(a, c)
    ensures CallHonest(Apply(hosts, s, a), c)
  {
    assert CallHonest(s, c) && CallOk(hosts, s, c);
    OnlyActorMoves(hosts, s, a, c);
    var p := PhaseOf(s, c);
    if p.HoldsClaim() {
      if a.ByCaller() && PhaseOf(s, a.c).HoldsClaim() {
        assert s.calls[c].vm.id != s.calls[a.c].vm.id;
      }
      OtherRowsUntouched(hosts, s, a, p.vm.id);
    }
  }

  lemma {:induction false} ActingCallStaysHonest(hosts: Hosts, s: State, a: Action)
    requires a.ByCaller() && CallHonest(s, a.c) && Enabled(hosts, s, a) && Prudent(s, a)
    ensures CallHonest(Apply(hosts, s, a), a.c)
  {
  }

  lemma {:induction false} StepStaysHonest(hosts: Hosts, s: State, a: Action)
    requires Inv(hosts, s) && AllHonest(s) && Enabled(hosts, s, a) && Prudent(s, a)
    ensures AllHonest(Apply(hosts, s, a))
  {
    forall id ensures Honest(Apply(hosts, s, a), id) {
      RowsStayHonest(hosts, s, a, id);
    }
    forall c: nat ensures CallHonest(Apply(hosts, s, a), c) {
      if By(a, c) {
        assert CallHonest(s, c);
        ActingCallStaysHonest(hosts, s, a);
      } else {
        OtherCallsStayHonest(hosts, s, a, c);
      }
    }
  }

  ghost predicate AllPrudent(hosts: Hosts, s: State, actions: seq<Action>)
    requires Legal(hosts, s, actions)
    decreases |actions|
  {
    actions != [] ==> Prudent(s, actions[0]) && AllPrudent(hosts, Apply(hosts, s, actions[0]), actions[1..])
  }

  /**
   If every claim rests on a right row, then in every interleaving of creates,
   moves and deletes, with any agent and store faults and any writes of a status
   other than "running", a row that says "running" names the host its VM is on.
   */
  lemma {:induction false} PrudentClaimsKeepRowsHonest(hosts: Hosts, s: State, actions: seq<Action>, id: string)
    requires Inv(hosts, s) && AllHonest(s) && Legal(hosts, s, actions) && AllPrudent(hosts, s, actions)
    ensures Honest(Reach(hosts, s, actions), id)
    decreases |actions|
  {
    if actions == [] {
      assert Honest(s, id);
    } else {
      StepKeepsInv(hosts, s, actions[0]);
      StepStaysHonest(hosts, s, actions[0]);
      PrudentClaimsKeepRowsHonest(hosts, Apply(hosts, s, actions[0]), actions[1..], id);
    }
  }

  /** So a VM created in the run takes part: once an agent has started it, "running" is prudent and true. */
  lemma {:induction false} StartedIsRight(hosts: Hosts, s: State, id: string)
    requires Enabled(hosts, s, Boot(id)) && id !in s.claims
    ensures var t := Apply(hosts, s, Boot(id));
            && Prudent(s, Boot(id)) && Prudent(t, WriteStatus(id, Running))
            && var u := Apply(hosts, t, WriteStatus(id, Running));
               id in u.table && u.table[id].status == Running && Right(u, id)
  {
  }

  /** What a caller can check under the lock: the row is gone or still says "running". */
  ghost predicate Rereads(s: State, a: Action) {
    && (a.PlaceClaim? && PhaseOf(s, a.c).MoveListed? ==>
          var id := s.calls[a.c].vm.id; id !in s.table || s.table[id].status == Running)
    && (a.WriteStatus? && a.status == Running ==> Right(s, a.id) && a.id !in s.claims)
  }

  ghost predicate AllReread(hosts: Hosts, s: State, actions: seq<Action>)
    requires Legal(hosts, s, actions)
    decreases |actions|
  {
    actions != [] ==> Rereads(s, actions[0]) && AllReread(hosts, Apply(hosts, s, actions[0]), actions[1..])
  }

  /** If every call reads its row again before it claims, no row ever lies, whatever else is interleaved. */
  lemma {:induction false} RereadingKeepsRowsHonest(hosts: Hosts, s: State, actions: seq<Action>, id: string)
    requires Inv(hosts, s) && AllHonest(s) && Legal(hosts, s, actions) && AllReread(hosts, s, actions)
    ensures Honest(Reach(hosts, s, actions), id)
    decreases |actions|
  {
    if actions == [] {
      assert Honest(s, id);
    } else {
      var a := actions[0];
      if a.PlaceClaim? && PhaseOf(s, a.c).MoveListed? {
        assert Honest(s, s.calls[a.c].vm.id);
      }
      StepKeepsInv(hosts, s, a);
      StepStaysHonest(hosts, s, a);
      RereadingKeepsRowsHonest(hosts, Apply(hosts, s, a), actions[1..], id);
    }
  }

  // ---------- A claim on a wrong row ----------

  /** The rest of a call whose agent fails and whose rollback succeeds. */
  function FailedMove(c: nat): seq<Action> {
    [Mark(c, true)] + ([Agent(c, false)] + PutBack(c))
  }

  function PutBack(c: nat): seq<Action> { [Rollback(c, true)] + ([Release(c)] + []) }

  lemma {:induction false} OneStep(hosts: Hosts, s: State, a: Action, rest: seq<Action>)
    requires Enabled(hosts, s, a) && Legal(hosts, Apply(hosts, s, a), rest)
    ensures Legal(hosts, s, [a] + rest)
    ensures Reach(hosts, s, [a] + rest) == Reach(hosts, Apply(hosts, s, a), rest)
    ensures Prudent(s, a) && AllPrudent(hosts, Apply(hosts, s, a), rest) ==> AllPrudent(hosts, s, [a] + rest)
  {
    assert ([a] + rest)[1..] == rest;
  }

  lemma {:induction false} PutBackRuns(hosts: Hosts, s: State, c: nat, vm: VM, target: string)
    requires PhaseOf(s, c) == NotMoved(vm, target) && s.lock == None
    ensures Legal(hosts, s, PutBack(c)) && AllPrudent(hosts, s, PutBack(c))
    ensures Reach(hosts, s, PutBack(c)) ==
            s.(table := SetStatus(s.table, vm.id, vm.status), claims := s.claims - {vm.id}, calls := s.calls[c := Idle])
  {
    var s1 := Apply(hosts, s, Rollback(c, true));
    var s2 := Apply(hosts, s1, Release(c));
    assert s2.calls == s.calls[c := Idle];
    OneStep(hosts, s1, Release(c), []);
    OneStep(hosts, s, Rollback(c, true), [Release(c)] + []);
  }

  /** A call that holds a claim can fail and put "running" back, whatever the row says about the host. */
  lemma {:induction false} FailurePutsRunningBack(hosts: Hosts, s: State, c: nat, vm: VM, target: string)
    requires PhaseOf(s, c) == Claimed(vm, target) && vm.status == Running && s.lock == None
    ensures Legal(hosts, s, FailedMove(c)) && AllPrudent(hosts, s, FailedMove(c))
    ensures Reach(hosts, s, FailedMove(c)) ==
            s.(table := SetStatus(SetStatus(s.table, vm.id, Migrating), vm.id, Running),
               claims := s.claims - {vm.id},
               calls := s.calls[c := Idle])
  {
    var s1 := Apply(hosts, s, Mark(c, true));
    var s2 := Apply(hosts, s1, Agent(c, false));
    PutBackRuns(hosts, s2, c, vm, target);
    assert s2.calls[c := Idle] == s.calls[c := Idle];
    OneStep(hosts, s1, Agent(c, false), PutBack(c));
    OneStep(hosts, s, Mark(c, true), [Agent(c, false)] + PutBack(c));
  }

  /** After any claim on a wrong row, that failure leaves the row saying "running" on a host the VM is not on. */
  lemma {:induction false} WrongRowCanLie(hosts: Hosts, s: State, a: Action)
    requires Enabled(hosts, s, a) && a.PlaceClaim? && ValuesOk(hosts, s, a.c) && !Right(s, s.calls[a.c].vm.id)
    ensures var t := Apply(hosts, s, a);
            && Legal(hosts, t, FailedMove(a.c)) && AllPrudent(hosts, t, FailedMove(a.c))
            && !Honest(Reach(hosts, t, FailedMove(a.c)), s.calls[a.c].vm.id)
            && Reach(hosts, t, FailedMove(a.c)).calls == s.calls[a.c := Idle]
  {
    var p := s.calls[a.c];
    FailurePutsRunningBack(hosts, Apply(hosts, s, a), a.c, p.vm, p.target);
  }

  /** However prudently things go on, the row never lies. */
  ghost predicate StaysHonest(hosts: Hosts, s: State, id: string) {
    forall more: seq<Action> {:induction false} | Legal(hosts, s, more) && AllPrudent(hosts, s, more) ::
      Honest(Reach(hosts, s, more), id)
  }

  /**
   A claim is safe exactly when the row is right at that moment; a row that still
   says "running", or is gone, is right.
   */
  lemma {:induction false} ClaimIsSafeIff(hosts: Hosts, s: State, a: Action)
    requires Inv(hosts, s) && AllHonest(s) && Enabled(hosts, s, a) && a.PlaceClaim?
    ensures var id := s.calls[a.c].vm.id;
            && (Right(s, id) <==> StaysHonest(hosts, Apply(hosts, s, a), id))
            && (id !in s.table || s.table[id].status == Running ==> Right(s, id))
  {
    var t, id := Apply(hosts, s, a), s.calls[a.c].vm.id;
    assert Honest(s, id);
    if Right(s, id) {
      StepKeepsInv(hosts, s, a);
      StepStaysHonest(hosts, s, a);
      forall more: seq<Action> | Legal(hosts, t, more) && AllPrudent(hosts, t, more)
        ensures Honest(Reach(hosts, t, more), id)
      {
        PrudentClaimsKeepRowsHonest(hosts, t, more, id);
      }
    } else {
      assert CallOk(hosts, s, a.c);
      WrongRowCanLie(hosts, s, a);
    }
  }

  // ---------- Such a claim is reached ----------

  /** Some run of calls leads from s to t. */
  ghost predicate Leads(hosts: Hosts, s: State, t: State) {
    exists actions: seq<Action> :: Legal(hosts, s, actions) && Reach(hosts, s, actions) == t
  }

  lemma {:induction false} Extend(hosts: Hosts, s: State, actions: seq<Action>, a: Action)
    requires Legal(hosts, s, actions) && Enabled(hosts, Reach(hosts, s, actions), a)
    ensures Legal(hosts, s, actions + [a])
        && Reach(hosts, s, actions + [a]) == Apply(hosts, Reach(hosts, s, actions), a)
    decreases |actions|
  {
    if actions != [] {
      Extend(hosts, Apply(hosts, s, actions[0]), actions[1..], a);
      assert (actions + [a])[1..] == actions[1..] + [a];
    }
  }

  ghost predicate Steps(hosts: Hosts, t: State, a: Action, u: State) {
    Enabled(hosts, t, a) && Apply(hosts, t, a) == u
  }

  lemma {:induction false} LeadsOn(hosts: Hosts, s: State, t: State, a: Action, u: State)
    requires Leads(hosts, s, t) && Steps(hosts, t, a, u)
    ensures Leads(hosts, s, u)
  {
    var actions: seq<Action> :| Legal(hosts, s, actions) && Reach(hosts, s, actions) == t;
    Extend(hosts, s, actions, a);
  }

  const HOSTS: Hosts := map["a" := Host("a", 8, 8), "b" := Host("b", 8, 8)]
  const ROW: VM := VM("vm", Some("a"), Running, 1, 1)

  /**
   One VM that started out running on a: its row's status, where it is, whether
   it is claimed, the lock, and call c's phase beside the other call's.
   */
  function Stage(status: Status, at: string, claimed: bool, lock: Option<nat>, c: nat, p: Phase, other: Phase): State
    requires c < 2
  {
    State(
      map["vm" := ROW.(status := status)],
      if claimed then map["vm" := Claim(ROW, "b")] else map[],
      lock, map[c := p, 1 - c := other], map["vm" := ROW], map["vm" := at])
  }

  lemma {:induction false} LockStep(status: Status, at: string, c: nat, other: Phase)
    requires c < 2
    ensures Steps(HOSTS, Stage(status, at, false, None, c, Moving(ROW, "b"), other), Lock(c),
              Stage(status, at, false, Some(c), c, MoveLocked(ROW, "b"), other))
  {
  }

  /** The list is of the row as it is now, not as the call read it. */
  lemma {:induction false} ListStep(status: Status, at: string, c: nat, other: Phase)
    requires c < 2
    ensures var row := ROW.(status := status);
            Steps(HOSTS, Stage(status, at, false, Some(c), c, MoveLocked(ROW, "b"), other), List(c, [row]),
              Stage(status, at, false, Some(c), c, MoveListed(ROW, "b", [row], map["vm" := row]), other))
  {
    assert [ROW.(status := status)][0].id == "vm";
  }

  lemma {:induction false} RoomOnB(row: VM)
    requires row.id == "vm" && row.host == Some("a")
    ensures Fits(HOSTS["b"], [row], 1, 1) && WithPending([row], map["vm" := row], map[], [row])
  {
    assert [row][..1] == [row] && [row][1..] == [] && [row][..0] == [];
    assert Allocated([row], "b", CPU) == Allocated([], "b", CPU)
        && Allocated([row], "b", Memory) == Allocated([], "b", Memory);
  }

  lemma {:induction false} ClaimStep(status: Status, at: string, c: nat, other: Phase)
    requires c < 2
    ensures var row := ROW.(status := status);
            Steps(HOSTS, Stage(status, at, false, Some(c), c, MoveListed(ROW, "b", [row], map["vm" := row]), other),
                PlaceClaim(c, [row]),
              Stage(status, at, true, None, c, Claimed(ROW, "b"), other))
  {
    RoomOnB(ROW.(status := status));
  }

  lemma {:induction false} MarkStep(status: Status, at: string, c: nat, other: Phase)
    requires c < 2
    ensures Steps(HOSTS, Stage(status, at, true, None, c, Claimed(ROW, "b"), other), Mark(c, true),
              Stage(Migrating, at, true, None, c, Marked(ROW, "b"), other))
  {
  }

  lemma {:induction false} ReleaseStep(status: Status, at: string, c: nat, other: Phase)
    requires c < 2
    ensures Steps(HOSTS, Stage(status, at, true, None, c, Releasing(ROW, "b"), other), Release(c),
        Stage(status, at, false, None, c, Idle, other))
  {
  }

  /** Any call that read the row can list it again, whatever it says by then. */
  lemma {:induction false} GoesOnToList(s: State, status: Status, at: string, c: nat, other: Phase)
    requires c < 2 && Leads(HOSTS, s, Stage(status, at, false, None, c, Moving(ROW, "b"), other))
    ensures var row := ROW.(status := status);
            Leads(HOSTS, s, Stage(status, at, false, Some(c), c, MoveListed(ROW, "b", [row], map["vm" := row]), other))
  {
    var row := ROW.(status := status);
    var t1 := Stage(status, at, false, Some(c), c, MoveLocked(ROW, "b"), other);
    var t2 := Stage(status, at, false, Some(c), c, MoveListed(ROW, "b", [row], map["vm" := row]), other);
    LockStep(status, at, c, other);
    LeadsOn(HOSTS, s, Stage(status, at, false, None, c, Moving(ROW, "b"), other), Lock(c), t1);
    ListStep(status, at, c, other);
    LeadsOn(HOSTS, s, t1, List(c, [row]), t2);
  }

  lemma {:induction false} MoveStep(c: nat, other: Phase)
    requires c < 2
    ensures Steps(HOSTS, Stage(Migrating, "a", true, None, c, Marked(ROW, "b"), other), Agent(c, true),
              Stage(Migrating, "b", true, None, c, Moved(ROW, "b"), other))
  {
  }

  lemma {:induction false} LoseCommitStep(c: nat, other: Phase)
    requires c < 2
    ensures Steps(HOSTS, Stage(Migrating, "b", true, None, c, Moved(ROW, "b"), other), Commit(c, false),
              Stage(Migrating, "b", true, None, c, Releasing(ROW, "b"), other))
  {
  }

  /** The first call moves the VM but fails to record it: the row stays "migrating". */
  lemma {:induction false} FirstLosesItsCommit(s: State, c: nat, other: Phase)
    requires c < 2 && Leads(HOSTS, s, Stage(Running, "a", false, None, c, Moving(ROW, "b"), other))
    ensures Leads(HOSTS, s, Stage(Migrating, "b", false, None, c, Idle, other))
  {
    var listed := Stage(Running, "a", false, Some(c), c, MoveListed(ROW, "b", [ROW], map["vm" := ROW]), other);
    var claimed := Stage(Running, "a", true, None, c, Claimed(ROW, "b"), other);
    var t0 := Stage(Migrating, "a", true, None, c, Marked(ROW, "b"), other);
    var t1 := Stage(Migrating, "b", true, None, c, Moved(ROW, "b"), other);
    var t2 := Stage(Migrating, "b", true, None, c, Releasing(ROW, "b"), other);
    GoesOnToList(s, Running, "a", c, other);
    assert ROW.(status := Running) == ROW;
    ClaimStep(Running, "a", c, other);
    LeadsOn(HOSTS, s, listed, PlaceClaim(c, [ROW]), claimed);
    MarkStep(Running, "a", c, other);
    LeadsOn(HOSTS, s, claimed, Mark(c, true), t0);
    MoveStep(c, other);
    LeadsOn(HOSTS, s, t0, Agent(c, true), t1);
    LoseCommitStep(c, other);
    LeadsOn(HOSTS, s, t1, Commit(c, false), t2);
    ReleaseStep(Migrating, "b", c, other);
    LeadsOn(HOSTS, s, t2, Release(c), Stage(Migrating, "b", false, None, c, Idle, other));
  }

  const START: State := State(map["vm" := ROW], map[], None, map[], map["vm" := ROW], map["vm" := "a"])

  lemma {:induction false} BothRead()
    ensures Leads(HOSTS, START, Stage(Running, "a", false, None, 0, Moving(ROW, "b"), Moving(ROW, "b")))
  {
    assert Legal(HOSTS, START, []) && Reach(HOSTS, START, []) == START;
    var one := START.(calls := map[0 := Moving(ROW, "b")]);
    assert Steps(HOSTS, START, StartMove(0, "vm", "b"), one);
    LeadsOn(HOSTS, START, START, StartMove(0, "vm", "b"), one);
    var two := Stage(Running, "a", false, None, 0, Moving(ROW, "b"), Moving(ROW, "b"));
    assert Steps(HOSTS, one, StartMove(1, "vm", "b"), two);
    LeadsOn(HOSTS, START, one, StartMove(1, "vm", "b"), two);
  }

  lemma {:induction false} TurnAbout(status: Status, at: string, c: nat, p: Phase, other: Phase)
    requires c < 2
    ensures Stage(status, at, false, None, c, p, other) == Stage(status, at, false, None, 1 - c, other, p)
  {
  }

  lemma {:induction false} LeadsAlong(hosts: Hosts, s: State, t: State, actions: seq<Action>)
    requires Leads(hosts, s, t) && Legal(hosts, t, actions)
    ensures Leads(hosts, s, Reach(hosts, t, actions))
    decreases |actions|
  {
    if actions != [] {
      var u := Apply(hosts, t, actions[0]);
      LeadsOn(hosts, s, t, actions[0], u);
      LeadsAlong(hosts, s, u, actions[1..]);
    }
  }

  /** The second call is about to claim, on a row that says a while the VM is on b. */
  const ABOUT_TO_CLAIM: State :=
    Stage(Migrating, "b", false, Some(1), 1,
      MoveListed(ROW, "b", [ROW.(status := Migrating)], map["vm" := ROW.(status := Migrating)]), Idle)

  lemma {:induction false} WrongClaimIsReached()
    ensures Leads(HOSTS, START, ABOUT_TO_CLAIM)
  {
    BothRead();
    FirstLosesItsCommit(START, 0, Moving(ROW, "b"));
    TurnAbout(Migrating, "b", 0, Idle, Moving(ROW, "b"));
    GoesOnToList(START, Migrating, "b", 1, Idle);
  }

  lemma {:induction false} WrongClaimIsMade(a: Action)
    requires a == PlaceClaim(1, [ROW.(status := Migrating)])
    ensures Enabled(HOSTS, ABOUT_TO_CLAIM, a) && ValuesOk(HOSTS, ABOUT_TO_CLAIM, 1) && !Right(ABOUT_TO_CLAIM, "vm")
  {
    ClaimStep(Migrating, "b", 1, Idle);
  }

  lemma {:induction false} ReachedWrongClaimLies(hosts: Hosts, s: State, t: State, a: Action) returns (end: State)
    requires Leads(hosts, s, t) && Enabled(hosts, t, a) && a.PlaceClaim? && ValuesOk(hosts, t, a.c)
    requires !Right(t, t.calls[a.c].vm.id)
    ensures Leads(hosts, s, end) && !Honest(end, t.calls[a.c].vm.id) && end.calls == t.calls[a.c := Idle]
  {
    WrongRowCanLie(hosts, t, a);
    var claimed := Apply(hosts, t, a);
    LeadsOn(hosts, s, t, a, claimed);
    LeadsAlong(hosts, s, claimed, FailedMove(a.c));
    end := Reach(hosts, claimed, FailedMove(a.c));
  }

  lemma {:induction false} StartIsHonest()
    ensures AllHonest(START)
  {
  }

  /**
   The case arises: two overlapping calls for one VM can both return with the
   row saying "running" on a while the VM is on b.
   */
  lemma {:induction false} StaleClaimCanLoseTheVM() returns (end: State)
    ensures AllHonest(START)
    ensures Leads(HOSTS, START, end) && end.calls == map[0 := Idle, 1 := Idle]
    ensures !Honest(end, "vm")
  {
    var a := PlaceClaim(1, [ROW.(status := Migrating)]);
    StartIsHonest();
    WrongClaimIsReached();
    WrongClaimIsMade(a);
    end := ReachedWrongClaimLies(HOSTS, START, ABOUT_TO_CLAIM, a);
    assert ABOUT_TO_CLAIM.calls[1 := Idle] == map[0 := Idle, 1 := Idle];
  }
}

/**
 The manager's own methods (internal/manager/manager.go), run without
 interference, take exactly the steps of the concurrent protocol.
 */
module ManagerProtocol {
  import opened Wrappers
  import opened Capacity
  import opened CapacityProtocol
  import opened MigrationTruth

  /** The manager's fields are the state's. */
  ghost predicate Represents(m: Manager, s: State)
    reads m
  {
    m.table == s.table && m.migrations == s.claims && m.at == s.at
  }

  // ---------- One migration ----------

  /** From the claim on, by result. */
  function AfterClaim(c: nat, r: MigrateResult): seq<Action>
    requires r != Refused
  {
    match r
    case MarkFailed => [Mark(c, false)] + ([Release(c)] + [])
    case AgentFailed => [Mark(c, true)] + ([Agent(c, false)] + ([Rollback(c, true)] + ([Release(c)] + [])))
    case RollbackFailed => [Mark(c, true)] + ([Agent(c, false)] + ([Rollback(c, false)] + ([Release(c)] + [])))
    case CommitFailed => [Mark(c, true)] + ([Agent(c, true)] + ([Commit(c, false)] + ([Release(c)] + [])))
    case Migrated => [Mark(c, true)] + ([Agent(c, true)] + ([Commit(c, true)] + ([Release(c)] + [])))
  }

  /** A whole call. */
  function MoveSteps(c: nat, id: string, target: string, listed: seq<VM>, counted: seq<VM>,
      r: MigrateResult): seq<Action>
    requires r != Refused
  {
    [StartMove(c, id, target)] + ([Lock(c)] + ([List(c, listed)] + ([PlaceClaim(c, counted)] + AfterClaim(c, r))))
  }

  lemma {:induction false} LetGo(hosts: Hosts, s: State, c: nat, vm: VM, target: string)
    requires PhaseOf(s, c) == Releasing(vm, target) && s.lock == None
    ensures Legal(hosts, s, [Release(c)] + [])
    ensures Reach(hosts, s, [Release(c)] + []) == s.(claims := s.claims - {vm.id}, calls := s.calls[c := Idle])
  {
    OneStep(hosts, s, Release(c), []);
  }

  /** A write of the row, or its loss, and the release. */
  lemma {:induction false} WriteAndRelease(hosts: Hosts, s: State, c: nat, vm: VM, target: string, a: Action,
      table: Table)
    requires Enabled(hosts, s, a) && s.lock == None
    requires Apply(hosts, s, a) == s.(table := table, calls := s.calls[c := Releasing(vm, target)])
    ensures Legal(hosts, s, [a] + ([Release(c)] + []))
    ensures Reach(hosts, s, [a] + ([Release(c)] + []))
         == s.(table := table, claims := s.claims - {vm.id}, calls := s.calls[c := Idle])
  {
    var t := Apply(hosts, s, a);
    LetGo(hosts, t, c, vm, target);
    OneStep(hosts, s, a, [Release(c)] + []);
    assert t.calls[c := Idle] == s.calls[c := Idle];
  }

  /** The state in which the agent has answered. */
  function Answered(s: State, c: nat, vm: VM, target: string, moved: bool): State {
    s.(table := SetStatus(s.table, vm.id, Migrating),
       at := if moved then s.at[vm.id := target] else s.at,
       calls := s.calls[c := if moved then Moved(vm, target) else NotMoved(vm, target)])
  }

  lemma {:induction false} MarkAndAsk(hosts: Hosts, s: State, c: nat, vm: VM, target: string, moved: bool,
      rest: seq<Action>)
    requires PhaseOf(s, c) == Claimed(vm, target)
    requires moved ==> vm.id in s.at && vm.host == Some(s.at[vm.id])
    requires Legal(hosts, Answered(s, c, vm, target, moved), rest)
    ensures Legal(hosts, s, [Mark(c, true)] + ([Agent(c, moved)] + rest))
    ensures Reach(hosts, s, [Mark(c, true)] + ([Agent(c, moved)] + rest))
         == Reach(hosts, Answered(s, c, vm, target, moved), rest)
  {
    var s1 := Apply(hosts, s, Mark(c, true));
    assert Apply(hosts, s1, Agent(c, moved)).calls == Answered(s, c, vm, target, moved).calls;
    OneStep(hosts, s1, Agent(c, moved), rest);
    OneStep(hosts, s, Mark(c, true), [Agent(c, moved)] + rest);
  }

  /** The row after the claim's call, by result. */
  function RowAfter(vm: VM, target: string, r: MigrateResult): VM {
    match r
    case RollbackFailed => vm.(status := Migrating)
    case CommitFailed => vm.(status := Migrating)
    case Migrated => vm.(host := Some(target))
    case _ => vm
  }

  predicate MovedBy(r: MigrateResult) { r == CommitFailed || r == Migrated }

  lemma {:induction false} LastStepsMarked(hosts: Hosts, s: State, c: nat, vm: VM, target: string, r: MigrateResult)
    requires PhaseOf(s, c) == Claimed(vm, target) && s.lock == None && r != Refused && r != MarkFailed
    requires vm.id in s.table && s.table[vm.id] == vm && vm.status == Running
    requires MovedBy(r) ==> vm.id in s.at && vm.host == Some(s.at[vm.id])
    ensures Legal(hosts, s, AfterClaim(c, r))
    ensures Reach(hosts, s, AfterClaim(c, r))
         == s.(table := s.table[vm.id := RowAfter(vm, target, r)],
               at := if MovedBy(r) then s.at[vm.id := target] else s.at,
               claims := s.claims - {vm.id}, calls := s.calls[c := Idle])
  {
    var u := Answered(s, c, vm, target, MovedBy(r));
    var a := if MovedBy(r) then Commit(c, r == Migrated) else Rollback(c, r == AgentFailed);
    var table := s.table[vm.id := RowAfter(vm, target, r)];
    assert Apply(hosts, u, a).table == table;
    assert Apply(hosts, u, a) == u.(table := table, calls := u.calls[c := Releasing(vm, target)]);
    WriteAndRelease(hosts, u, c, vm, target, a, table);
    MarkAndAsk(hosts, s, c, vm, target, MovedBy(r), [a] + ([Release(c)] + []));
    assert u.calls[c := Idle] == s.calls[c := Idle];
  }

  lemma {:induction false} LastSteps(hosts: Hosts, s: State, c: nat, vm: VM, target: string, r: MigrateResult)
    requires PhaseOf(s, c) == Claimed(vm, target) && s.lock == None && r != Refused
    requires vm.id in s.table && s.table[vm.id] == vm && vm.status == Running
    requires MovedBy(r) ==> vm.id in s.at && vm.host == Some(s.at[vm.id])
    ensures Legal(hosts, s, AfterClaim(c, r))
    ensures Reach(hosts, s, AfterClaim(c, r))
         == s.(table := s.table[vm.id := RowAfter(vm, target, r)],
               at := if MovedBy(r) then s.at[vm.id := target] else s.at,
               claims := s.claims - {vm.id}, calls := s.calls[c := Idle])
  {
    if r == MarkFailed {
      assert s.table[vm.id := vm] == s.table;
      WriteAndRelease(hosts, s, c, vm, target, Mark(c, false), s.table);
    } else {
      LastStepsMarked(hosts, s, c, vm, target, r);
    }
  }

  /** The state in which the claim is placed. */
  function WithClaim(s: State, c: nat, vm: VM, target: string): State {
    s.(claims := s.claims[vm.id := Claim(vm, target)], calls := s.calls[c := Claimed(vm, target)])
  }

  lemma {:induction false} ListAndClaim(hosts: Hosts, s: State, c: nat, vm: VM, target: string,
      listed: seq<VM>, counted: seq<VM>, rest: seq<Action>)
    requires PhaseOf(s, c) == MoveLocked(vm, target) && s.lock == Some(c) && vm.id !in s.claims && target in hosts
    requires Lists(listed, s.table) && WithPending(listed, s.table, s.claims, counted)
    requires Fits(hosts[target], counted, vm.cpus, vm.memory)
    requires Legal(hosts, WithClaim(s, c, vm, target).(lock := None), rest)
    ensures Legal(hosts, s, [List(c, listed)] + ([PlaceClaim(c, counted)] + rest))
    ensures Reach(hosts, s, [List(c, listed)] + ([PlaceClaim(c, counted)] + rest))
         == Reach(hosts, WithClaim(s, c, vm, target).(lock := None), rest)
  {
    var s1 := Apply(hosts, s, List(c, listed));
    assert s1.calls[c] == MoveListed(vm, target, listed, s.table);
    assert s1.calls[c := Claimed(vm, target)] == s.calls[c := Claimed(vm, target)];
    OneStep(hosts, s1, PlaceClaim(c, counted), rest);
    OneStep(hosts, s, List(c, listed), [PlaceClaim(c, counted)] + rest);
  }

  lemma {:induction false} FirstSteps(hosts: Hosts, s: State, c: nat, id: string, target: string,
      listed: seq<VM>, counted: seq<VM>, rest: seq<Action>)
    requires PhaseOf(s, c).Idle? && s.lock == None && Keyed(s.table) && id !in s.claims
    requires Possible(s.table, id, target, Migrated) && target in hosts
    requires Lists(listed, s.table) && WithPending(listed, s.table, s.claims, counted)
    requires Fits(hosts[target], counted, s.table[id].cpus, s.table[id].memory)
    requires Legal(hosts, WithClaim(s, c, s.table[id], target), rest)
    ensures var listing := [List(c, listed)] + ([PlaceClaim(c, counted)] + rest);
            var actions := [StartMove(c, id, target)] + ([Lock(c)] + listing);
            && Legal(hosts, s, actions)
            && Reach(hosts, s, actions) == Reach(hosts, WithClaim(s, c, s.table[id], target), rest)
  {
    var vm := s.table[id];
    var listing := [List(c, listed)] + ([PlaceClaim(c, counted)] + rest);
    var s1 := Apply(hosts, s, StartMove(c, id, target));
    var s2 := Apply(hosts, s1, Lock(c));
    assert WithClaim(s2, c, vm, target).(lock := None) == WithClaim(s, c, vm, target) by {
      assert s2.calls[c := Claimed(vm, target)] == s.calls[c := Claimed(vm, target)];
    }
    ListAndClaim(hosts, s2, c, vm, target, listed, counted, rest);
    OneStep(hosts, s1, Lock(c), listing);
    OneStep(hosts, s, StartMove(c, id, target), [Lock(c)] + listing);
  }

  /**
   MigrateVM, unless it refuses, is one caller's run of the protocol from start to
   release, ending in the manager's own rows, claims and locations.
   */
  method MigrateInProtocol(m: Manager, hosts: Hosts, ghost s: State, ghost c: nat, id: string, target: Host, f: Faults)
    returns (r: MigrateResult, ghost actions: seq<Action>)
    requires Represents(m, s) && Keyed(s.table) && ClaimsOk(s.claims)
    requires PhaseOf(s, c).Idle? && s.lock == None
    requires target.id != "" && target.id in hosts && hosts[target.id] == target
    requires f.agentOk && id in s.table ==> id in s.at && s.table[id].host == Some(s.at[id])
    modifies m
    ensures r == Refused ==> actions == [] && Represents(m, s)
    ensures r != Refused ==> exists listed, counted :: actions == MoveSteps(c, id, target.id, listed, counted, r)
    ensures Legal(hosts, s, actions) && Represents(m, Reach(hosts, s, actions))
    ensures r != Refused ==>
        Reach(hosts, s, actions).calls == s.calls[c := Idle] && Reach(hosts, s, actions).lock == None
  {
    var listed := m.ListVMs();
    var counted := m.WithPendingMigrations(listed, m.table);
    r := m.MigrateVM(id, target, f);
    actions := [];
    if r != Refused {
      actions := MoveSteps(c, id, target.id, listed, counted, r);
      FitsMeansRoom(listed, s.table, s.claims, counted, target, s.table[id]);
      RowsAgree(s.table, s.at, id, target.id, r);
      CallIsRun(hosts, s, c, id, target.id, listed, counted, r);
    }
  }

  /** A call that got its claim ends without it. */
  lemma {:induction false} ClaimedCallEnds(hosts: Hosts, s: State, c: nat, vm: VM, target: string, r: MigrateResult)
    requires s.lock == None && vm.id !in s.claims && r != Refused
    requires vm.id in s.table && s.table[vm.id] == vm && vm.status == Running
    requires MovedBy(r) ==> vm.id in s.at && vm.host == Some(s.at[vm.id])
    ensures var t := WithClaim(s, c, vm, target);
            && Legal(hosts, t, AfterClaim(c, r))
            && Reach(hosts, t, AfterClaim(c, r))
               == s.(table := s.table[vm.id := RowAfter(vm, target, r)],
                     at := if MovedBy(r) then s.at[vm.id := target] else s.at,
                     calls := s.calls[c := Idle])
  {
    var t := WithClaim(s, c, vm, target);
    LastSteps(hosts, t, c, vm, target, r);
    assert t.claims - {vm.id} == s.claims;
    assert t.calls[c := Idle] == s.calls[c := Idle];
  }

  lemma {:induction false} CallIsRun(hosts: Hosts, s: State, c: nat, id: string, target: string,
      listed: seq<VM>, counted: seq<VM>, r: MigrateResult)
    requires Keyed(s.table) && PhaseOf(s, c).Idle? && s.lock == None && id !in s.claims
    requires r != Refused && Possible(s.table, id, target, r) && target in hosts
    requires Lists(listed, s.table) && WithPending(listed, s.table, s.claims, counted)
    requires Fits(hosts[target], counted, s.table[id].cpus, s.table[id].memory)
    requires MovedBy(r) ==> id in s.at && s.table[id].host == Some(s.at[id])
    ensures var actions := MoveSteps(c, id, target, listed, counted, r);
            && Legal(hosts, s, actions)
            && Reach(hosts, s, actions)
               == s.(table := s.table[id := RowAfter(s.table[id], target, r)],
                     at := if MovedBy(r) then s.at[id := target] else s.at,
                     calls := s.calls[c := Idle])
  {
    ClaimedCallEnds(hosts, s, c, s.table[id], target, r);
    FirstSteps(hosts, s, c, id, target, listed, counted, AfterClaim(c, r));
  }

  lemma {:induction false} RowsAgree(table: Table, at: Locations, id: string, target: string, r: MigrateResult)
    requires Possible(table, id, target, r) && r != Refused
    ensures After(table, at, id, target, r).0 == table[id := RowAfter(table[id], target, r)]
    ensures After(table, at, id, target, r).1 == if MovedBy(r) then at[id := target] else at
  {
  }

  // ---------- One create, one delete ----------

  function CreateSteps(c: nat, vm: VM, listed: seq<VM>, counted: seq<VM>, newID: string): seq<Action> {
    [StartCreate(c, vm)] + ([Lock(c)] + ([List(c, listed)] + ([Insert(c, counted, newID)] + [])))
  }

  lemma {:induction false} CreateIsRun(hosts: Hosts, s: State, c: nat, vm: VM, listed: seq<VM>, counted: seq<VM>,
      newID: string)
    requires PhaseOf(s, c).Idle? && s.lock == None && NewVM(hosts, vm) && vm.status == Created && newID !in s.issued
    requires Lists(listed, s.table) && WithPending(listed, s.table, s.claims, counted)
    requires Fits(hosts[vm.host.value], counted, vm.cpus, vm.memory)
    ensures var actions, row := CreateSteps(c, vm, listed, counted, newID), vm.(id := newID);
            && Legal(hosts, s, actions)
            && Reach(hosts, s, actions)
               == s.(table := s.table[newID := row], issued := s.issued[newID := row], calls := s.calls[c := Idle])
  {
    var s1 := Apply(hosts, s, StartCreate(c, vm));
    var s2 := Apply(hosts, s1, Lock(c));
    var s3 := Apply(hosts, s2, List(c, listed));
    assert s3.calls[c] == CreateListed(vm, listed, s.table);
    var s4 := Apply(hosts, s3, Insert(c, counted, newID));
    assert s4.calls == s.calls[c := Idle];
    OneStep(hosts, s3, Insert(c, counted, newID), []);
    OneStep(hosts, s2, List(c, listed), [Insert(c, counted, newID)] + []);
    OneStep(hosts, s1, Lock(c), [List(c, listed)] + ([Insert(c, counted, newID)] + []));
    OneStep(hosts, s, StartCreate(c, vm), [Lock(c)] + ([List(c, listed)] + ([Insert(c, counted, newID)] + [])));
  }

  /** A create that succeeds is one caller's run of the protocol; any other changes nothing. */
  method AllocateInProtocol(m: Manager, hosts: Hosts, ghost s: State, ghost c: nat, vm: VM, newID: string,
      listOk: bool, insertOk: bool)
    returns (ok: bool, ghost actions: seq<Action>)
    requires Represents(m, s) && Keyed(s.table) && ClaimsOk(s.claims)
    requires PhaseOf(s, c).Idle? && s.lock == None && newID !in s.issued
    requires NewVM(hosts, vm) && vm.status == Created && hosts[vm.host.value].id == vm.host.value
    modifies m`table
    ensures Legal(hosts, s, actions) && Represents(m, Reach(hosts, s, actions))
    ensures !ok ==> actions == []
    ensures ok ==> exists listed, counted :: actions == CreateSteps(c, vm, listed, counted, newID)
    ensures ok <==> listOk && insertOk && HasRoom(s.table, s.claims, hosts[vm.host.value], vm)
  {
    var listed := m.ListVMs();
    ghost var t := m.table;
    var r;
    ghost var counted;
    r, counted := m.AllocateVM(hosts[vm.host.value], vm, if listOk then Some(listed) else None, t, newID, insertOk);
    ok := r.Some? && r.value.Remaining?;
    actions := [];
    if listOk {
      FitsMeansRoom(listed, s.table, s.claims, counted, hosts[vm.host.value], vm);
    }
    if ok {
      actions := CreateSteps(c, vm, listed, counted, newID);
      CreateIsRun(hosts, s, c, vm, listed, counted, newID);
    }
  }

  /** A delete is a status write at most, and the row's deletion if it succeeds. */
  method DeleteInProtocol(
    m: Manager, hosts: Hosts, ghost s: State, id: string,
    agent: bool, stopOk: bool, statusOk: bool, destroyOk: bool, deleteOk: bool)
    returns (ok: bool, ghost actions: seq<Action>)
    requires Represents(m, s)
    modifies m`table
    ensures Legal(hosts, s, actions) && Represents(m, Reach(hosts, s, actions))
    ensures ok ==> actions == [Delete(id)]
    ensures !ok ==> actions == [] || actions == [WriteStatus(id, Stopped)]
  {
    ok := m.DeleteVM(id, agent, stopOk, statusOk, destroyOk, deleteOk);
    actions := [];
    if ok {
      actions := [Delete(id)];
      assert actions == [Delete(id)] + [];
      OneStep(hosts, s, Delete(id), []);
    } else if m.table != s.table {
      actions := [WriteStatus(id, Stopped)];
      assert actions == [WriteStatus(id, Stopped)] + [];
      OneStep(hosts, s, WriteStatus(id, Stopped), []);
    }
  }
}

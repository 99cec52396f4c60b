/**
 Many concurrent callers of the manager's CreateVM, MigrateVM and DeleteVM
 (internal/manager/manager.go). The capacity checks and the release of a claim
 hold allocMu; commits, rollbacks, status writes and row deletions do not, and
 may fall between a check's listing of the rows and its decision.
 */
module CapacityProtocol {
  import opened Wrappers
  import opened SetSums
  import opened Capacity

  /** Where one caller stands. `seen` is the table at the moment it was listed. */
  datatype Phase =
    | Idle
    | Creating(vm: VM)
    | CreateLocked(vm: VM)
    | CreateListed(vm: VM, listed: seq<VM>, seen: Table)
    | Moving(vm: VM, target: string)                  // vm as GetVM read it
    | MoveLocked(vm: VM, target: string)
    | MoveListed(vm: VM, target: string, listed: seq<VM>, seen: Table)
    | Claimed(vm: VM, target: string)
    | Marked(vm: VM, target: string)
    | Moved(vm: VM, target: string)                   // the agent succeeded
    | NotMoved(vm: VM, target: string)                // the agent failed
    | Releasing(vm: VM, target: string)
  {
    predicate Locks() { CreateLocked? || CreateListed? || MoveLocked? || MoveListed? }

    predicate HoldsClaim() { Claimed? || Marked? || Moved? || NotMoved? || Releasing? }

    predicate HasList() { CreateListed? || MoveListed? }
  }

  datatype State = State(
    table: Table,
    claims: Table,
    lock: Option<nat>,
    calls: map<nat, Phase>,
    issued: map<string, VM>,   // every VM ID ever in the table, with its size
    at: Locations)             // where the agents run each VM

  function PhaseOf(s: State, c: nat): Phase {
    if c in s.calls then s.calls[c] else Idle
  }

  datatype Action =
    | StartCreate(c: nat, vm: VM)
    | StartMove(c: nat, id: string, target: string)
    | Lock(c: nat)
    | List(c: nat, listed: seq<VM>)
    | Insert(c: nat, counted: seq<VM>, newID: string)
    | PlaceClaim(c: nat, counted: seq<VM>)
    | GiveUp(c: nat)               // any error before a claim is placed
    | Mark(c: nat, ok: bool)
    | Agent(c: nat, ok: bool)
    | Commit(c: nat, ok: bool)
    | Rollback(c: nat, ok: bool)
    | Release(c: nat)
    | Delete(id: string)           // DeleteVM's row deletion
    | Boot(id: string)             // StartVM's agent call for a VM that no agent runs yet
    | WriteStatus(id: string, status: Status)   // any status write, such as StopVM's
  {
    /** A step of one of the callers above; the rest happen at any time. */
    predicate ByCaller() { !Delete? && !Boot? && !WriteStatus? }
  }

  type Hosts = map<string, Host>

  /** An admissible new VM: positive sizes, on a known host. */
  predicate NewVM(hosts: Hosts, vm: VM) {
    vm.cpus > 0 && vm.memory > 0 && vm.host.Some? && vm.host.value in hosts
  }

  ghost predicate Enabled(hosts: Hosts, s: State, a: Action) {
    match a
    case StartCreate(c, vm) => PhaseOf(s, c).Idle? && NewVM(hosts, vm)
    case StartMove(c, id, target) => PhaseOf(s, c).Idle? && Possible(s.table, id, target, Migrated) && target in hosts
    case Lock(c) => s.lock == None && (PhaseOf(s, c).Creating? || PhaseOf(s, c).Moving?)
    case List(c, listed) =>
      && (PhaseOf(s, c).CreateLocked? || (PhaseOf(s, c).MoveLocked? && s.calls[c].vm.id !in s.claims))
      && Lists(listed, s.table)
    case Insert(c, counted, newID) =>
      && PhaseOf(s, c).CreateListed? && newID !in s.issued
      && WithPending(s.calls[c].listed, s.calls[c].seen, s.claims, counted)
      && var vm := s.calls[c].vm;
         vm.host.Some? && vm.host.value in hosts && Fits(hosts[vm.host.value], counted, vm.cpus, vm.memory)
    case PlaceClaim(c, counted) =>
      && PhaseOf(s, c).MoveListed?
      && WithPending(s.calls[c].listed, s.calls[c].seen, s.claims, counted)
      && s.calls[c].target in hosts && Fits(hosts[s.calls[c].target], counted, s.calls[c].vm.cpus, s.calls[c].vm.memory)
    case GiveUp(c) => !PhaseOf(s, c).HoldsClaim() && !PhaseOf(s, c).Idle?
    case Mark(c, _) => PhaseOf(s, c).Claimed?
    // an agent can only hand over a VM that it runs
    case Agent(c, ok) => PhaseOf(s, c).Marked?
        && (ok ==> s.calls[c].vm.id in s.at && s.calls[c].vm.host == Some(s.at[s.calls[c].vm.id]))
    case Commit(c, _) => PhaseOf(s, c).Moved?
    case Rollback(c, _) => PhaseOf(s, c).NotMoved?
    case Release(c) => PhaseOf(s, c).Releasing? && s.lock == None
    case Delete(id) => true
    case Boot(id) => id in s.table && s.table[id].host.Some? && id !in s.at
    case WriteStatus(id, _) => true
  }

  /** UpdateVM: a missing row stays missing. */
  function Update(table: Table, id: string, host: Option<string>, status: Status): Table {
    if id in table then table[id := table[id].(host := host, status := status)] else table
  }

  function SetStatus(table: Table, id: string, status: Status): Table {
    if id in table then Update(table, id, table[id].host, status) else table
  }

  function Apply(hosts: Hosts, s: State, a: Action): State
    requires Enabled(hosts, s, a)
  {
    match a
    case StartCreate(c, vm) => s.(calls := s.calls[c := Creating(vm)])
    case StartMove(c, id, target) => s.(calls := s.calls[c := Moving(s.table[id], target)])
    case Lock(c) =>
      var p := s.calls[c];
      s.(lock := Some(c), calls := s.calls[c := if p.Creating? then CreateLocked(p.vm) else MoveLocked(p.vm, p.target)])
    case List(c, listed) =>
      var p := s.calls[c];
      s.(calls := s.calls[c := if p.CreateLocked? then CreateListed(p.vm, listed, s.table)
          else MoveListed(p.vm, p.target, listed, s.table)])
    case Insert(c, _, newID) =>
      var vm := s.calls[c].vm.(id := newID, status := Created);
      s.(table := s.table[newID := vm], issued := s.issued[newID := vm], lock := None, calls := s.calls[c := Idle])
    case PlaceClaim(c, _) =>
      var p := s.calls[c];
      s.(claims := s.claims[p.vm.id := Claim(p.vm, p.target)], lock := None,
          calls := s.calls[c := Claimed(p.vm, p.target)])
    case GiveUp(c) => s.(lock := if s.calls[c].Locks() then None else s.lock, calls := s.calls[c := Idle])
    case Mark(c, ok) =>
      var p := s.calls[c];
      if ok then s.(table := SetStatus(s.table, p.vm.id, Migrating), calls := s.calls[c := Marked(p.vm, p.target)])
      else s.(calls := s.calls[c := Releasing(p.vm, p.target)])
    case Agent(c, ok) =>
      var p := s.calls[c];
      if ok then s.(at := s.at[p.vm.id := p.target], calls := s.calls[c := Moved(p.vm, p.target)])
      else s.(calls := s.calls[c := NotMoved(p.vm, p.target)])
    case Commit(c, ok) =>
      var p := s.calls[c];
      s.(table := if ok then Update(s.table, p.vm.id, Some(p.target), p.vm.status) else s.table,
         calls := s.calls[c := Releasing(p.vm, p.target)])
    case Rollback(c, ok) =>
      var p := s.calls[c];
      s.(table := if ok then SetStatus(s.table, p.vm.id, p.vm.status) else s.table,
         calls := s.calls[c := Releasing(p.vm, p.target)])
    case Release(c) => s.(claims := s.claims - {s.calls[c].vm.id}, calls := s.calls[c := Idle])
    case Delete(id) => s.(table := s.table - {id})
    case Boot(id) => s.(at := s.at[id := s.table[id].host.value])
    case WriteStatus(id, status) => s.(table := SetStatus(s.table, id, status))
  }

  // ---------- The invariant ----------

  ghost predicate HostsOk(hosts: Hosts) {
    "" !in hosts && forall h | h in hosts :: hosts[h].id == h
  }

  /** The VM is one that was issued, with the size it was issued with. */
  predicate Known(s: State, vm: VM) {
    vm.id in s.issued && vm.SameSize(s.issued[vm.id]) && vm.cpus > 0 && vm.memory > 0
  }

  ghost predicate TableOk(s: State, t: Table) {
    Keyed(t) && forall id | id in t :: Known(s, t[id])
  }

  /**
   The table may differ from what was seen only by rows gone and by rows that
   arrived at the target they have a claim on.
   */
  predicate Stale(seen: Table, table: Table, claims: Table) {
    forall id | id in table ::
      id in seen && (table[id].host == seen[id].host || (id in claims && table[id].host == claims[id].host))
  }

  /** Exactly the caller inside the critical section holds the lock. */
  predicate LockOk(s: State, c: nat) {
    PhaseOf(s, c).Locks() <==> s.lock == Some(c)
  }

  /** What the caller carries from earlier steps is still sound. */
  predicate ValuesOk(hosts: Hosts, s: State, c: nat) {
    var p := PhaseOf(s, c);
    && (p.Creating? || p.CreateLocked? || p.CreateListed? ==> NewVM(hosts, p.vm))
    && (p.Moving? || p.MoveLocked? || p.MoveListed? || p.HoldsClaim() ==>
          Known(s, p.vm) && p.vm.status == Running && p.target in hosts)
  }

  predicate ClaimOk(s: State, c: nat) {
    var p := PhaseOf(s, c);
    && (p.HoldsClaim() ==> p.vm.id in s.claims && s.claims[p.vm.id] == Claim(p.vm, p.target))
    && (p.MoveListed? ==> p.vm.id !in s.claims)
  }

  ghost predicate ListOk(s: State, c: nat) {
    var p := PhaseOf(s, c);
    p.HasList() ==> Lists(p.listed, p.seen) && TableOk(s, p.seen) && Stale(p.seen, s.table, s.claims)
  }

  ghost predicate CallOk(hosts: Hosts, s: State, c: nat) {
    LockOk(s, c) && ValuesOk(hosts, s, c) && ClaimOk(s, c) && ListOk(s, c)
  }

  ghost predicate ClaimsHeld(hosts: Hosts, s: State) {
    && ClaimsOk(s.claims)
    && (forall id | id in s.claims :: Known(s, s.claims[id]) && s.claims[id].host.value in hosts)
    && (forall id | id in s.claims :: exists c | c in s.calls :: s.calls[c].HoldsClaim() && s.calls[c].vm.id == id)
    && (forall c, d | c in s.calls && d in s.calls && c != d && s.calls[c].HoldsClaim() && s.calls[d].HoldsClaim() ::
          s.calls[c].vm.id != s.calls[d].vm.id)
  }

  /** No host carries more than it has, rows and claims together. */
  ghost predicate WithinCapacity(hosts: Hosts, table: Table, claims: Table) {
    forall h, r: Resource | h in hosts :: Load(table, claims, h, r) <= hosts[h].Has(r)
  }

  ghost predicate Inv(hosts: Hosts, s: State) {
    && HostsOk(hosts)
    && TableOk(s, s.table)
    && (forall c: nat :: CallOk(hosts, s, c))
    && ClaimsHeld(hosts, s)
    && WithinCapacity(hosts, s.table, s.claims)
  }

  /** Nothing in progress, rows of positive size, every host within its capacity. */
  ghost predicate Init(hosts: Hosts, s: State) {
    && HostsOk(hosts)
    && s.claims == map[] && s.lock == None && s.calls == map[] && s.issued == s.table
    && TableOk(s, s.table)
    && WithinCapacity(hosts, s.table, s.claims)
  }

  // ---------- Loads ----------

  /** A table gone stale carries no more than the listed one and the claims showed. */
  lemma {:induction false} StaleNeverUnderstates(s: State, seen: Table, h: string, r: Resource)
    requires TableOk(s, s.table) && TableOk(s, seen) && Stale(seen, s.table, s.claims)
    requires Keyed(s.claims) && forall id | id in s.claims :: Known(s, s.claims[id])
    ensures Load(s.table, s.claims, h, r) <= Load(seen, s.claims, h, r)
  {
    forall id ensures Share(s.table, s.claims, h, r, id) <= Share(seen, s.claims, h, r, id) {
      if id in s.table {
        assert Known(s, s.table[id]) && Known(s, seen[id]);
      }
      if id in s.claims {
        assert Known(s, s.claims[id]);
      }
    }
    LoadAtMost(seen, s.claims, s.table, s.claims, h, r, "", 0);
  }

  /** What the check let through still fits at the moment it decides. */
  lemma {:induction false} CheckedLeavesRoom(hosts: Hosts, s: State, c: nat, counted: seq<VM>, h: string, r: Resource)
    requires Inv(hosts, s) && c in s.calls && s.calls[c].HasList() && h in hosts
    requires WithPending(s.calls[c].listed, s.calls[c].seen, s.claims, counted)
    requires Fits(hosts[h], counted, s.calls[c].vm.cpus, s.calls[c].vm.memory)
    ensures Load(s.table, s.claims, h, r) + s.calls[c].vm.Needs(r) <= hosts[h].Has(r)
  {
    assert CallOk(hosts, s, c);
    CountedIsLoad(s.calls[c].listed, s.calls[c].seen, s.claims, counted, h, r);
    StaleNeverUnderstates(s, s.calls[c].seen, h, r);
  }

  /** A fresh row adds its own size at its own host and nothing elsewhere. */
  lemma {:induction false} InsertAddsItsSize(table: Table, claims: Table, newID: string, vm: VM, h: string, r: Resource)
    requires newID !in table && newID !in claims && vm.Needs(r) > 0
    ensures Load(table[newID := vm], claims, h, r)
         <= Load(table, claims, h, r) + if vm.host == Some(h) then vm.Needs(r) else 0
  {
    LoadAtMost(table, claims, table[newID := vm], claims, h, r, newID, if vm.host == Some(h) then vm.Needs(r) else 0);
  }

  lemma {:induction false} NewIDsAreFresh(hosts: Hosts, s: State, id: string)
    requires Inv(hosts, s) && id !in s.issued
    ensures id !in s.table && id !in s.claims
  {
    forall k | k in s.claims ensures k in s.issued {
      assert Known(s, s.claims[k]);
    }
  }

  lemma {:induction false} InsertStaysWithin(hosts: Hosts, s: State, a: Action)
    requires Inv(hosts, s) && Enabled(hosts, s, a) && a.Insert?
    ensures WithinCapacity(hosts, Apply(hosts, s, a).table, Apply(hosts, s, a).claims)
  {
    var s' := Apply(hosts, s, a);
    var vm := s.calls[a.c].vm;
    assert NewVM(hosts, vm) by { assert CallOk(hosts, s, a.c); }
    NewIDsAreFresh(hosts, s, a.newID);
    var row := vm.(id := a.newID, status := Created);
    forall h, r: Resource | h in hosts ensures Load(s'.table, s'.claims, h, r) <= hosts[h].Has(r) {
      if vm.host == Some(h) {
        CheckedLeavesRoom(hosts, s, a.c, a.counted, h, r);
      }
      InsertAddsItsSize(s.table, s.claims, a.newID, row, h, r);
    }
  }

  lemma {:induction false} ClaimStaysWithin(hosts: Hosts, s: State, a: Action)
    requires Inv(hosts, s) && Enabled(hosts, s, a) && a.PlaceClaim?
    ensures WithinCapacity(hosts, Apply(hosts, s, a).table, Apply(hosts, s, a).claims)
  {
    var s' := Apply(hosts, s, a);
    var p := s.calls[a.c];
    assert CallOk(hosts, s, a.c);
    forall h, r: Resource | h in hosts ensures Load(s'.table, s'.claims, h, r) <= hosts[h].Has(r) {
      if p.target == h {
        CheckedLeavesRoom(hosts, s, a.c, a.counted, h, r);
      }
      LoadAtMost(s.table, s.claims, s'.table, s'.claims, h, r, p.vm.id, if p.target == h then p.vm.Needs(r) else 0);
    }
  }

  /** A row or claim that another step leaves at a host was already counted there. */
  lemma {:induction false} ShareNeverRises(hosts: Hosts, s: State, a: Action, h: string, r: Resource, id: string)
    requires Enabled(hosts, s, a) && !a.Insert? && !a.PlaceClaim? && (a.ByCaller() ==> ClaimOk(s, a.c))
    requires TableOk(s, s.table) && ClaimsOk(s.claims) && (id in s.claims ==> Known(s, s.claims[id]))
    ensures Share(Apply(hosts, s, a).table, Apply(hosts, s, a).claims, h, r, id) <= Share(s.table, s.claims, h, r, id)
  {
    if id in s.table {
      assert Known(s, s.table[id]);
    }
  }

  /** Every other step, locked or not, raises no host's load. */
  lemma {:induction false} OthersNeverRaise(hosts: Hosts, s: State, a: Action, h: string, r: Resource)
    requires Inv(hosts, s) && Enabled(hosts, s, a) && !a.Insert? && !a.PlaceClaim?
    ensures Load(Apply(hosts, s, a).table, Apply(hosts, s, a).claims, h, r) <= Load(s.table, s.claims, h, r)
  {
    var s' := Apply(hosts, s, a);
    assert a.ByCaller() ==> CallOk(hosts, s, a.c);
    forall id ensures Share(s'.table, s'.claims, h, r, id) <= Share(s.table, s.claims, h, r, id) {
      ShareNeverRises(hosts, s, a, h, r, id);
    }
    LoadAtMost(s.table, s.claims, s'.table, s'.claims, h, r, "", 0);
  }

  lemma {:induction false} StaysWithin(hosts: Hosts, s: State, a: Action)
    requires Inv(hosts, s) && Enabled(hosts, s, a)
    ensures WithinCapacity(hosts, Apply(hosts, s, a).table, Apply(hosts, s, a).claims)
  {
    if a.Insert? {
      InsertStaysWithin(hosts, s, a);
    } else if a.PlaceClaim? {
      ClaimStaysWithin(hosts, s, a);
    } else {
      var s' := Apply(hosts, s, a);
      forall h, r: Resource | h in hosts ensures Load(s'.table, s'.claims, h, r) <= hosts[h].Has(r) {
        OthersNeverRaise(hosts, s, a, h, r);
      }
    }
  }

  // ---------- The rest of the invariant ----------

  lemma {:induction false} IssuedGrows(hosts: Hosts, s: State, a: Action, vm: VM)
    requires Enabled(hosts, s, a) && Known(s, vm)
    ensures Known(Apply(hosts, s, a), vm)
  {
  }

  lemma {:induction false} TableStaysOk(hosts: Hosts, s: State, a: Action)
    requires Inv(hosts, s) && Enabled(hosts, s, a)
    ensures TableOk(Apply(hosts, s, a), Apply(hosts, s, a).table)
  {
    var s' := Apply(hosts, s, a);
    if a.Insert? {
      assert CallOk(hosts, s, a.c);
    }
    forall id | id in s'.table ensures s'.table[id].id == id && Known(s', s'.table[id]) {
      if id in s.table {
        IssuedGrows(hosts, s, a, s.table[id]);
      }
    }
  }

  /** The caller taking this step, if it is one caller's step. */
  predicate By(a: Action, c: nat) {
    a.ByCaller() && a.c == c
  }

  lemma {:induction false} LockStaysOk(hosts: Hosts, s: State, a: Action, c: nat)
    requires Enabled(hosts, s, a) && LockOk(s, c) && (a.ByCaller() ==> LockOk(s, a.c))
    ensures LockOk(Apply(hosts, s, a), c)
  {
  }

  /** While one caller holds the lock, no other inserts, claims, releases or lists. */
  lemma {:induction false} LockExcludes(hosts: Hosts, s: State, a: Action, c: nat)
    requires Enabled(hosts, s, a) && s.lock == Some(c) && !By(a, c)
        && (a.ByCaller() ==> LockOk(s, a.c))
    ensures !a.Insert? && Apply(hosts, s, a).claims == s.claims
  {
  }

  lemma {:induction false} OnlyActorMoves(hosts: Hosts, s: State, a: Action, c: nat)
    requires Enabled(hosts, s, a) && !By(a, c)
    ensures PhaseOf(Apply(hosts, s, a), c) == PhaseOf(s, c)
  {
  }

  lemma {:induction false} ActorValues(hosts: Hosts, s: State, a: Action)
    requires Enabled(hosts, s, a) && a.ByCaller() && ValuesOk(hosts, s, a.c) && TableOk(s, s.table)
    ensures var p := PhaseOf(Apply(hosts, s, a), a.c);
            && (p.Creating? || p.CreateLocked? || p.CreateListed? ==> NewVM(hosts, p.vm))
            && (p.Moving? || p.MoveLocked? || p.MoveListed? || p.HoldsClaim() ==>
          Known(s, p.vm) && p.vm.status == Running && p.target in hosts)
  {
  }

  lemma {:induction false} ValuesStayOk(hosts: Hosts, s: State, a: Action, c: nat)
    requires Enabled(hosts, s, a) && ValuesOk(hosts, s, c) && TableOk(s, s.table)
    ensures ValuesOk(hosts, Apply(hosts, s, a), c)
  {
    var p := PhaseOf(Apply(hosts, s, a), c);
    if By(a, c) {
      ActorValues(hosts, s, a);
    } else {
      OnlyActorMoves(hosts, s, a, c);
    }
    if (p.Moving? || p.MoveLocked? || p.MoveListed? || p.HoldsClaim()) {
      IssuedGrows(hosts, s, a, p.vm);
    }
  }

  function ClaimsAfter(s: State, a: Action): Table {
    match a
    case PlaceClaim(c, _) =>
      if PhaseOf(s, c).MoveListed? then s.claims[s.calls[c].vm.id := Claim(s.calls[c].vm, s.calls[c].target)]
      else s.claims
    case Release(c) => if PhaseOf(s, c).Releasing? then s.claims - {s.calls[c].vm.id} else s.claims
    case _ => s.claims
  }

  lemma {:induction false} ClaimsStep(hosts: Hosts, s: State, a: Action)
    requires Enabled(hosts, s, a)
    ensures Apply(hosts, s, a).claims == ClaimsAfter(s, a)
  {
  }

  lemma {:induction false} ActorClaim(hosts: Hosts, s: State, a: Action)
    requires Enabled(hosts, s, a) && a.ByCaller() && ClaimOk(s, a.c)
    ensures ClaimOk(Apply(hosts, s, a), a.c)
  {
  }

  /** A caller holding a claim after its step held it before or has just placed it. */
  lemma {:induction false} ActorHolds(hosts: Hosts, s: State, a: Action)
    requires Enabled(hosts, s, a) && a.ByCaller()
    ensures var p, p' := PhaseOf(s, a.c), PhaseOf(Apply(hosts, s, a), a.c);
            && (p'.HoldsClaim() ==> (p.HoldsClaim() || (p.MoveListed? && a.PlaceClaim?)) && p'.vm == p.vm)
            && (p.HoldsClaim() && !a.Release? ==> p'.HoldsClaim())
            && (a.PlaceClaim? ==> p'.HoldsClaim() && p.MoveListed?)
            && (a.Release? ==> p.Releasing?)
  {
  }

  /** Another caller's step leaves a held claim alone and does not claim a VM under check. */
  lemma {:induction false} OtherClaim(hosts: Hosts, s: State, a: Action, c: nat)
    requires Inv(hosts, s) && !By(a, c)
    requires a.PlaceClaim? ==> PhaseOf(s, a.c).MoveListed?
    ensures var p := PhaseOf(s, c);
            && (p.HoldsClaim() ==> p.vm.id in ClaimsAfter(s, a) && ClaimsAfter(s, a)[p.vm.id] == Claim(p.vm, p.target))
            && (p.MoveListed? ==> p.vm.id !in ClaimsAfter(s, a))
  {
    assert CallOk(hosts, s, c);
    if a.PlaceClaim? || a.Release? {
      assert CallOk(hosts, s, a.c);
    }
  }

  lemma {:induction false} ClaimStaysOk(hosts: Hosts, s: State, a: Action, c: nat)
    requires Inv(hosts, s) && Enabled(hosts, s, a)
    ensures ClaimOk(Apply(hosts, s, a), c)
  {
    if By(a, c) {
      assert CallOk(hosts, s, c);
      ActorClaim(hosts, s, a);
    } else {
      OnlyActorMoves(hosts, s, a, c);
      ClaimsStep(hosts, s, a);
      OtherClaim(hosts, s, a, c);
    }
  }

  /** Without an insert, every row was there before, on the same host or not yet at its claim's target. */
  lemma {:induction false} RowsOnlyArrive(hosts: Hosts, s: State, a: Action)
    requires Enabled(hosts, s, a) && !a.Insert? && (a.ByCaller() ==> ClaimOk(s, a.c))
    ensures forall id | id in Apply(hosts, s, a).table ::
              && id in s.table
              && (Apply(hosts, s, a).table[id].host == s.table[id].host
                  || (id in s.claims && Apply(hosts, s, a).table[id].host == s.claims[id].host))
  {
  }

  /** A list taken under the lock only goes stale in the permitted ways while the lock is held. */
  lemma {:induction false} ListStaysOk(hosts: Hosts, s: State, a: Action, c: nat)
    requires Enabled(hosts, s, a) && !By(a, c) && LockOk(s, c) && ListOk(s, c)
    requires a.ByCaller() ==> LockOk(s, a.c) && ClaimOk(s, a.c)
    ensures ListOk(Apply(hosts, s, a), c)
  {
    var s' := Apply(hosts, s, a);
    var p := PhaseOf(s, c);
    if p.HasList() {
      LockExcludes(hosts, s, a, c);
      RowsOnlyArrive(hosts, s, a);
      forall id | id in p.seen ensures Known(s', p.seen[id]) {
        IssuedGrows(hosts, s, a, p.seen[id]);
      }
      OnlyActorMoves(hosts, s, a, c);
    }
  }

  lemma {:induction false} NewListIsFresh(hosts: Hosts, s: State, a: Action)
    requires TableOk(s, s.table) && Enabled(hosts, s, a) && a.ByCaller()
    ensures ListOk(Apply(hosts, s, a), a.c)
  {
  }

  lemma {:induction false} CallsStayOk(hosts: Hosts, s: State, a: Action, c: nat)
    requires Inv(hosts, s) && Enabled(hosts, s, a)
    ensures CallOk(hosts, Apply(hosts, s, a), c)
  {
    assert CallOk(hosts, s, c) && (a.ByCaller() ==> CallOk(hosts, s, a.c));
    LockStaysOk(hosts, s, a, c);
    ValuesStayOk(hosts, s, a, c);
    ClaimStaysOk(hosts, s, a, c);
    if By(a, c) {
      NewListIsFresh(hosts, s, a);
    } else {
      ListStaysOk(hosts, s, a, c);
    }
  }

  lemma {:induction false} ClaimsStayKnown(hosts: Hosts, s: State, a: Action, id: string)
    requires Inv(hosts, s) && Enabled(hosts, s, a) && id in Apply(hosts, s, a).claims
    ensures var s' := Apply(hosts, s, a);
            && s'.claims[id].id == id && s'.claims[id].host.Some? && s'.claims[id].host.value in hosts
                && Known(s', s'.claims[id])
  {
    if id in s.claims {
      IssuedGrows(hosts, s, a, s.claims[id]);
    }
    if a.PlaceClaim? {
      assert CallOk(hosts, s, a.c);
    }
  }

  lemma {:induction false} ClaimsKeepHolder(hosts: Hosts, s: State, a: Action, id: string) returns (c: nat)
    requires Inv(hosts, s) && Enabled(hosts, s, a) && id in ClaimsAfter(s, a)
    ensures PhaseOf(Apply(hosts, s, a), c).HoldsClaim() && PhaseOf(Apply(hosts, s, a), c).vm.id == id
  {
    if id in s.claims {
      c :| c in s.calls && s.calls[c].HoldsClaim() && s.calls[c].vm.id == id;
    } else {
      c := a.c;
    }
    if By(a, c) {
      ActorHolds(hosts, s, a);
    } else {
      OnlyActorMoves(hosts, s, a, c);
    }
  }

  lemma {:induction false} ActorStaysDistinct(hosts: Hosts, s: State, a: Action, d: nat)
    requires Inv(hosts, s) && Enabled(hosts, s, a) && a.ByCaller() && d != a.c
    requires PhaseOf(Apply(hosts, s, a), a.c).HoldsClaim() && PhaseOf(s, d).HoldsClaim()
    ensures PhaseOf(Apply(hosts, s, a), a.c).vm.id != PhaseOf(s, d).vm.id
  {
    ActorHolds(hosts, s, a);
    assert CallOk(hosts, s, a.c) && CallOk(hosts, s, d);
  }

  lemma {:induction false} HoldersStayDistinct(hosts: Hosts, s: State, a: Action, c: nat, d: nat)
    requires Inv(hosts, s) && Enabled(hosts, s, a) && c != d
    requires PhaseOf(Apply(hosts, s, a), c).HoldsClaim() && PhaseOf(Apply(hosts, s, a), d).HoldsClaim()
    ensures PhaseOf(Apply(hosts, s, a), c).vm.id != PhaseOf(Apply(hosts, s, a), d).vm.id
  {
    if By(a, c) {
      OnlyActorMoves(hosts, s, a, d);
      ActorStaysDistinct(hosts, s, a, d);
    } else if By(a, d) {
      OnlyActorMoves(hosts, s, a, c);
      ActorStaysDistinct(hosts, s, a, c);
    } else {
      OnlyActorMoves(hosts, s, a, c);
      OnlyActorMoves(hosts, s, a, d);
    }
  }

  lemma {:induction false} ClaimsStayHeld(hosts: Hosts, s: State, a: Action)
    requires Inv(hosts, s) && Enabled(hosts, s, a)
    ensures ClaimsHeld(hosts, Apply(hosts, s, a))
  {
    var s' := Apply(hosts, s, a);
    forall id | id in s'.claims
      ensures s'.claims[id].id == id && s'.claims[id].host.Some? && s'.claims[id].host.value != ""
      ensures Known(s', s'.claims[id]) && s'.claims[id].host.value in hosts
      ensures exists c | c in s'.calls :: s'.calls[c].HoldsClaim() && s'.calls[c].vm.id == id
    {
      ClaimsStayKnown(hosts, s, a, id);
      ClaimsStep(hosts, s, a);
      var c := ClaimsKeepHolder(hosts, s, a, id);
    }
    forall c, d | c in s'.calls && d in s'.calls && c != d && s'.calls[c].HoldsClaim() && s'.calls[d].HoldsClaim()
      ensures s'.calls[c].vm.id != s'.calls[d].vm.id
    {
      HoldersStayDistinct(hosts, s, a, c, d);
    }
  }

  lemma {:induction false} StepKeepsInv(hosts: Hosts, s: State, a: Action)
    requires Inv(hosts, s) && Enabled(hosts, s, a)
    ensures Inv(hosts, Apply(hosts, s, a))
  {
    var s' := Apply(hosts, s, a);
    TableStaysOk(hosts, s, a);
    ClaimsStayHeld(hosts, s, a);
    StaysWithin(hosts, s, a);
    forall c: nat ensures CallOk(hosts, s', c) {
      CallsStayOk(hosts, s, a, c);
    }
  }

  // ---------- Runs ----------

  ghost predicate Legal(hosts: Hosts, s: State, actions: seq<Action>)
    decreases |actions|
  {
    actions != [] ==> Enabled(hosts, s, actions[0]) && Legal(hosts, Apply(hosts, s, actions[0]), actions[1..])
  }

  ghost function Reach(hosts: Hosts, s: State, actions: seq<Action>): State
    requires Legal(hosts, s, actions)
    decreases |actions|
  {
    if actions == [] then s else Reach(hosts, Apply(hosts, s, actions[0]), actions[1..])
  }

  lemma {:induction false} InitHasInv(hosts: Hosts, s: State)
    requires Init(hosts, s)
    ensures Inv(hosts, s)
  {
  }

  lemma {:induction false} RunsKeepInv(hosts: Hosts, s: State, actions: seq<Action>)
    requires Inv(hosts, s) && Legal(hosts, s, actions)
    ensures Inv(hosts, Reach(hosts, s, actions))
    decreases |actions|
  {
    if actions != [] {
      StepKeepsInv(hosts, s, actions[0]);
      RunsKeepInv(hosts, Apply(hosts, s, actions[0]), actions[1..]);
    }
  }

  /**
   In every state reached by any interleaving of any number of callers, on
   every host the rows together with the claims whose row has not arrived stay
   within the host's CPUs and memory.
   */
  lemma {:induction false} NoHostOverCommitted(hosts: Hosts, s: State, actions: seq<Action>, h: string, r: Resource)
    requires Init(hosts, s) && Legal(hosts, s, actions) && h in hosts
    ensures Load(Reach(hosts, s, actions).table, Reach(hosts, s, actions).claims, h, r) <= hosts[h].Has(r)
  {
    InitHasInv(hosts, s);
    RunsKeepInv(hosts, s, actions);
  }

  /** The rows alone, as ListVMs would return them, fit too. */
  lemma {:induction false} RowsFit(hosts: Hosts, s: State, actions: seq<Action>, h: string, listed: seq<VM>)
    requires Init(hosts, s) && Legal(hosts, s, actions) && h in hosts && Lists(listed, Reach(hosts, s, actions).table)
    ensures Fits(hosts[h], listed, 0, 0)
  {
    InitHasInv(hosts, s);
    RunsKeepInv(hosts, s, actions);
    var s' := Reach(hosts, s, actions);
    forall r: Resource ensures Allocated(listed, h, r) <= hosts[h].Has(r) {
      CountedIsLoad(listed, s'.table, map[], listed, h, r);
      LoadAtMost(s'.table, s'.claims, s'.table, map[], h, r, "", 0);
      assert Load(s'.table, s'.claims, h, r) <= hosts[h].Has(r);
    }
    assert Allocated(listed, h, CPU) <= hosts[h].Has(CPU) && Allocated(listed, h, Memory) <= hosts[h].Has(Memory);
  }

  /** When every caller has returned, no claim is left. */
  lemma {:induction false} NoClaimLeftBehind(hosts: Hosts, s: State, actions: seq<Action>)
    requires Init(hosts, s) && Legal(hosts, s, actions)
    requires forall c | c in Reach(hosts, s, actions).calls :: Reach(hosts, s, actions).calls[c].Idle?
    ensures Reach(hosts, s, actions).claims == map[] && Reach(hosts, s, actions).lock == None
  {
    InitHasInv(hosts, s);
    RunsKeepInv(hosts, s, actions);
    var s' := Reach(hosts, s, actions);
    forall c: nat ensures s'.lock != Some(c) {
      assert CallOk(hosts, s', c);
    }
  }
}

/**
 internal/manager/manager.go: the host capacity check, the claims that in-flight
 migrations hold on their targets, and the manager methods built on them.
 */
module Capacity {
  import opened Wrappers
  import opened SetSums

  datatype Resource = CPU | Memory

  datatype Host = Host(id: string, cpuCount: int, memoryTotal: int) {
    function Has(r: Resource): int { if r == CPU then cpuCount else memoryTotal }
  }

  datatype Status = Created | Running | Stopped | Migrating

  /** A row of the vm table; a claim is a VM at the target host. */
  datatype VM = VM(id: string, host: Option<string>, status: Status, cpus: int, memory: int) {
    function Needs(r: Resource): int { if r == CPU then cpus else memory }

    predicate SameSize(o: VM) { cpus == o.cpus && memory == o.memory }
  }

  type Table = map<string, VM>

  // ---------- The check ----------

  /** What the VMs of the list that are assigned to the host use. */
  function Allocated(vms: seq<VM>, host: string, r: Resource): int {
    if vms == [] then 0
    else
      Allocated(vms[..|vms| - 1], host, r)
      + if vms[|vms| - 1].host == Some(host) then vms[|vms| - 1].Needs(r) else 0
  }

  lemma {:induction false} AllocatedConcat(a: seq<VM>, b: seq<VM>, host: string, r: Resource)
    ensures Allocated(a + b, host, r) == Allocated(a, host, r) + Allocated(b, host, r)
    decreases |b|
  {
    if b == [] {
      assert a + b == a;
    } else {
      assert (a + b)[..|a + b| - 1] == a + b[..|b| - 1];
      AllocatedConcat(a, b[..|b| - 1], host, r);
    }
  }

  /** Both resources still fit on the host next to the listed VMs. */
  predicate Fits(host: Host, vms: seq<VM>, cpus: int, memory: int) {
    && Allocated(vms, host.id, CPU) + cpus <= host.cpuCount
    && Allocated(vms, host.id, Memory) + memory <= host.memoryTotal
  }

  datatype CheckResult =
    | Remaining(cpus: int, memory: int)
    | InsufficientCPU(requested: int, available: int)
    | InsufficientMemory(requested: int, available: int)

  /** What is left after the VM, or what was lacking and how much of it was free; the CPUs are looked at first. */
  predicate Answer(host: Host, vms: seq<VM>, vm: VM, r: CheckResult) {
    var freeCPUs := host.cpuCount - Allocated(vms, host.id, CPU);
    var freeMemory := host.memoryTotal - Allocated(vms, host.id, Memory);
    && (r.InsufficientCPU? <==> vm.cpus > freeCPUs)
    && (r.InsufficientMemory? <==> vm.cpus <= freeCPUs && vm.memory > freeMemory)
    && (r.InsufficientCPU? ==> r == InsufficientCPU(vm.cpus, freeCPUs))
    && (r.InsufficientMemory? ==> r == InsufficientMemory(vm.memory, freeMemory))
    && (r.Remaining? ==> r == Remaining(freeCPUs - vm.cpus, freeMemory - vm.memory))
  }

  method CheckHostCapacity(host: Host, vms: seq<VM>, cpus: int, memory: int) returns (r: CheckResult)
    ensures r.Remaining? <==> Fits(host, vms, cpus, memory)
    ensures r.Remaining? ==> r.cpus == host.cpuCount - Allocated(vms, host.id, CPU) - cpus
    ensures r.Remaining? ==> r.memory == host.memoryTotal - Allocated(vms, host.id, Memory) - memory
    ensures r.InsufficientCPU? <==> Allocated(vms, host.id, CPU) + cpus > host.cpuCount
    ensures r.InsufficientCPU? ==> r == InsufficientCPU(cpus, host.cpuCount - Allocated(vms, host.id, CPU))
    ensures r.InsufficientMemory? ==>
        r == InsufficientMemory(memory, host.memoryTotal - Allocated(vms, host.id, Memory))
  {
    var allocatedCPUs, allocatedMemory := 0, 0;
    for i := 0 to |vms|
      invariant allocatedCPUs == Allocated(vms[..i], host.id, CPU)
      invariant allocatedMemory == Allocated(vms[..i], host.id, Memory)
    {
      assert vms[..i + 1][..i] == vms[..i];
      if vms[i].host != None && vms[i].host.value == host.id {
        allocatedCPUs := allocatedCPUs + vms[i].cpus;
        allocatedMemory := allocatedMemory + vms[i].memory;
      }
    }
    assert vms[..|vms|] == vms;
    var availableCPUs := host.cpuCount - allocatedCPUs;
    if cpus > availableCPUs {
      return InsufficientCPU(cpus, availableCPUs);
    }
    var availableMemory := host.memoryTotal - allocatedMemory;
    if memory > availableMemory {
      return InsufficientMemory(memory, availableMemory);
    }
    return Remaining(availableCPUs - cpus, availableMemory - memory);
  }

  // ---------- Counting the claims ----------

  predicate DistinctIDs(vms: seq<VM>) {
    forall i, j | 0 <= i < j < |vms| :: vms[i].id != vms[j].id
  }

  /** The list is what ListVMs returns for the table, in some order. */
  ghost predicate Lists(vms: seq<VM>, table: Table) {
    && DistinctIDs(vms)
    && (forall i | 0 <= i < |vms| :: vms[i].id in table && table[vms[i].id] == vms[i])
    && (forall id | id in table :: exists i | 0 <= i < |vms| :: vms[i].id == id)
  }

  predicate Keyed(table: Table) {
    forall id | id in table :: table[id].id == id
  }

  /** Claims name a real target host. */
  predicate ClaimsOk(claims: Table) {
    Keyed(claims) && forall id | id in claims :: claims[id].host.Some? && claims[id].host.value != ""
  }

  /** The VM's row already points at its claim's target. */
  predicate Arrived(table: Table, claims: Table, id: string)
    requires id in claims
  {
    id in table && table[id].host == claims[id].host
  }

  /** The claims whose row has not arrived, one VM each. */
  ghost predicate Pending(table: Table, claims: Table, vms: seq<VM>) {
    && DistinctIDs(vms)
    && (forall i | 0 <= i < |vms| ::
        vms[i].id in claims && claims[vms[i].id] == vms[i] && !Arrived(table, claims, vms[i].id))
    && (forall id | id in claims && !Arrived(table, claims, id) :: exists i | 0 <= i < |vms| :: vms[i].id == id)
  }

  /** `counted` is the list with the pending claims appended. */
  ghost predicate WithPending(listed: seq<VM>, table: Table, claims: Table, counted: seq<VM>) {
    |listed| <= |counted| && counted[..|listed|] == listed && Pending(table, claims, counted[|listed|..])
  }

  // ---------- Load ----------

  /** What one VM costs the host: its row there or, failing that, its claim there. */
  function Share(table: Table, claims: Table, host: string, r: Resource, id: string): int {
    if id in table && table[id].host == Some(host) then table[id].Needs(r)
    else if id in claims && claims[id].host == Some(host) then claims[id].Needs(r)
    else 0
  }

  /** The rows on a host together with the claims aimed at it whose row is not there. */
  ghost function Load(table: Table, claims: Table, host: string, r: Resource): int {
    Sum(table.Keys + claims.Keys, id => Share(table, claims, host, r, id))
  }

  /** Loads compare as the shares do, with one VM allowed an excess. */
  lemma {:induction false} LoadAtMost(t: Table, c: Table, t': Table, c': Table, host: string, r: Resource, x: string,
      excess: int)
    requires excess >= 0
    requires forall id :: Share(t', c', host, r, id) <= Share(t, c, host, r, id) + if id == x then excess else 0
    ensures Load(t', c', host, r) <= Load(t, c, host, r) + excess
  {
    var f := id => Share(t, c, host, r, id);
    var f' := id => Share(t', c', host, r, id);
    var all := t.Keys + c.Keys + t'.Keys + c'.Keys;
    SumExtend(t.Keys + c.Keys, all, f);
    SumExtend(t'.Keys + c'.Keys, all, f');
    SumAtMost(all, f', f, x, excess);
  }

  /** Summing a list of distinct VMs is summing over their IDs. */
  lemma {:induction false} AllocatedIsSum(vms: seq<VM>, ids: set<string>, host: string, r: Resource, f: string -> int)
    requires DistinctIDs(vms) && ids == set i | 0 <= i < |vms| :: vms[i].id
    requires forall i | 0 <= i < |vms| :: f(vms[i].id) == if vms[i].host == Some(host) then vms[i].Needs(r) else 0
    ensures Allocated(vms, host, r) == Sum(ids, f)
    decreases |vms|
  {
    if vms != [] {
      var front, last := vms[..|vms| - 1], vms[|vms| - 1];
      var fewer := set i | 0 <= i < |front| :: front[i].id;
      assert last.id in ids;
      assert fewer == ids - {last.id} by {
        forall id ensures id in fewer <==> id in ids - {last.id} {
          if id in fewer {
            var i :| 0 <= i < |front| && front[i].id == id;
            assert vms[i].id == id;
          }
          if id in ids - {last.id} {
            var i :| 0 <= i < |vms| && vms[i].id == id;
            assert front[i].id == id;
          }
        }
      }
      SumRemove(ids, f, last.id);
      AllocatedIsSum(front, fewer, host, r, f);
    }
  }

  function RowShare(table: Table, host: string, r: Resource, id: string): int {
    if id in table && table[id].host == Some(host) then table[id].Needs(r) else 0
  }

  function ClaimShare(table: Table, claims: Table, host: string, r: Resource, id: string): int {
    if id in claims && !Arrived(table, claims, id) && claims[id].host == Some(host) then claims[id].Needs(r) else 0
  }

  lemma {:induction false} ListedIsSum(listed: seq<VM>, table: Table, all: set<string>, host: string, r: Resource)
    requires Lists(listed, table) && table.Keys <= all
    ensures Allocated(listed, host, r) == Sum(all, id => RowShare(table, host, r, id))
  {
    var f := id => RowShare(table, host, r, id);
    var ids := set i | 0 <= i < |listed| :: listed[i].id;
    AllocatedIsSum(listed, ids, host, r, f);
    SumExtend(ids, all, f);
  }

  lemma {:induction false} PendingIsSum(pending: seq<VM>, table: Table, claims: Table, all: set<string>,
      host: string, r: Resource)
    requires Pending(table, claims, pending) && claims.Keys <= all
    ensures Allocated(pending, host, r) == Sum(all, id => ClaimShare(table, claims, host, r, id))
  {
    var f := id => ClaimShare(table, claims, host, r, id);
    var ids := set i | 0 <= i < |pending| :: pending[i].id;
    AllocatedIsSum(pending, ids, host, r, f);
    SumExtend(ids, all, f);
  }

  lemma {:induction false} ShareSplits(table: Table, claims: Table, host: string, r: Resource, id: string)
    ensures Share(table, claims, host, r, id) == RowShare(table, host, r, id) + ClaimShare(table, claims, host, r, id)
  {
  }

  /** The list the check looks at allocates exactly the host's load. */
  lemma {:induction false} CountedIsLoad(listed: seq<VM>, table: Table, claims: Table, counted: seq<VM>,
      host: string, r: Resource)
    requires Lists(listed, table) && WithPending(listed, table, claims, counted)
    ensures Allocated(counted, host, r) == Load(table, claims, host, r)
  {
    var pending := counted[|listed|..];
    var all := table.Keys + claims.Keys;
    assert counted == listed + pending;
    AllocatedConcat(listed, pending, host, r);
    ListedIsSum(listed, table, all, host, r);
    PendingIsSum(pending, table, claims, all, host, r);
    forall id | id in all
      ensures Share(table, claims, host, r, id) == RowShare(table, host, r, id) + ClaimShare(table, claims, host, r, id)
    {
      ShareSplits(table, claims, host, r, id);
    }
    SumOfSums(all, id => RowShare(table, host, r, id), id => ClaimShare(table, claims, host, r, id),
        id => Share(table, claims, host, r, id));
  }

  /** So the check asks whether the load leaves room. */
  lemma {:induction false} FitsMeansRoom(listed: seq<VM>, table: Table, claims: Table, counted: seq<VM>, host: Host,
      vm: VM)
    requires Lists(listed, table) && WithPending(listed, table, claims, counted)
    ensures Fits(host, counted, vm.cpus, vm.memory) <==> HasRoom(table, claims, host, vm)
  {
    CountedIsLoad(listed, table, claims, counted, host.id, CPU);
    CountedIsLoad(listed, table, claims, counted, host.id, Memory);
    assert Allocated(counted, host.id, CPU) + vm.cpus <= host.cpuCount <==> RoomFor(table, claims, host, vm, CPU);
    assert Allocated(counted, host.id, Memory) + vm.memory <= host.memoryTotal
        <==> RoomFor(table, claims, host, vm, Memory);
  }

  ghost predicate RoomFor(table: Table, claims: Table, host: Host, vm: VM, r: Resource) {
    Load(table, claims, host.id, r) + vm.Needs(r) <= host.Has(r)
  }

  ghost predicate HasRoom(table: Table, claims: Table, host: Host, vm: VM) {
    RoomFor(table, claims, host, vm, CPU) && RoomFor(table, claims, host, vm, Memory)
  }

  // ---------- The manager ----------

  /** What the store and the agents answer during one MigrateVM. */
  datatype Faults = Faults(targetUsable: bool, listOk: bool, markOk: bool, agentOk: bool, rollbackOk: bool,
      commitOk: bool)

  datatype MigrateResult = Refused | MarkFailed | AgentFailed | RollbackFailed | CommitFailed | Migrated

  /** Running VMs and where they really are. */
  type Locations = map<string, string>

  /** A call can only get past the checks for a running VM on another host. */
  predicate Possible(table: Table, id: string, target: string, r: MigrateResult) {
    r != Refused ==>
      id in table && table[id].status == Running && table[id].host.Some? && table[id].host.value != ""
          && table[id].host != Some(target)
  }

  /** A call goes ahead: the VM runs elsewhere and is not claimed, and the target has room for it. */
  ghost predicate Movable(table: Table, claims: Table, id: string, target: Host, f: Faults) {
    && Possible(table, id, target.id, Migrated) && id !in claims && f.targetUsable && f.listOk
    && HasRoom(table, claims, target, table[id])
  }

  /** How a call that goes ahead ends. */
  function ResultOf(f: Faults): MigrateResult {
    if !f.markOk then MarkFailed
    else if f.agentOk then (if f.commitOk then Migrated else CommitFailed)
    else if f.rollbackOk then AgentFailed
    else RollbackFailed
  }

  /** The rows and the locations after a call with that result. */
  function After(table: Table, at: Locations, id: string, target: string, r: MigrateResult): (Table, Locations)
    requires Possible(table, id, target, r)
  {
    match r
    case Refused => (table, at)
    case MarkFailed => (table, at)
    case AgentFailed => (table, at)
    case RollbackFailed => (table[id := table[id].(status := Migrating)], at)
    case CommitFailed => (table[id := table[id].(status := Migrating)], at[id := target])
    case Migrated => (table[id := table[id].(host := Some(target))], at[id := target])
  }

  /** When each result of a migration arises, and the rows and locations that it leaves. */
  ghost predicate Explained(t: Table, claims: Table, at: Locations, id: string, target: Host, f: Faults,
      r: MigrateResult, t': Table, at': Locations) {
    var go :=
      && id in t && t[id].status == Running && id !in claims
      && t[id].host.Some? && t[id].host.value != "" && t[id].host.value != target.id
      && f.targetUsable && f.listOk
      && Load(t, claims, target.id, CPU) + t[id].cpus <= target.cpuCount
      && Load(t, claims, target.id, Memory) + t[id].memory <= target.memoryTotal;
    && (r == Refused <==> !go)
    && (r == MarkFailed <==> go && !f.markOk)
    && (r == AgentFailed <==> go && f.markOk && !f.agentOk && f.rollbackOk)
    && (r == RollbackFailed <==> go && f.markOk && !f.agentOk && !f.rollbackOk)
    && (r == CommitFailed <==> go && f.markOk && f.agentOk && !f.commitOk)
    && (r == Migrated <==> go && f.markOk && f.agentOk && f.commitOk)
    && (r == Refused || r == MarkFailed || r == AgentFailed ==> t' == t && at' == at)
    && (r == RollbackFailed ==> t' == t[id := t[id].(status := Migrating)] && at' == at)
    && (r == CommitFailed ==> t' == t[id := t[id].(status := Migrating)] && at' == at[id := target.id])
    && (r == Migrated ==>
          t' == t[id := t[id].(host := Some(target.id), status := Running)] && at' == at[id := target.id])
  }

  lemma {:induction false} ResultsExplained(
    t: Table, claims: Table, at: Locations, id: string, target: Host, f: Faults)
    ensures var r := if Movable(t, claims, id, target, f) then ResultOf(f) else Refused;
            && Possible(t, id, target.id, r)
            && Explained(t, claims, at, id, target, f, r,
                 After(t, at, id, target.id, r).0, After(t, at, id, target.id, r).1)
  {
    assert id in t ==> (HasRoom(t, claims, target, t[id]) <==>
                          && Load(t, claims, target.id, CPU) + t[id].cpus <= target.cpuCount
                          && Load(t, claims, target.id, Memory) + t[id].memory <= target.memoryTotal);
  }

  class Manager {
    var table: Table
    var migrations: Table
    var at: Locations   // maintained by the agents

    constructor ()
      ensures table == map[] && migrations == map[] && at == map[]
    {
      table, migrations, at := map[], map[], map[];
    }

    /** SELECT over the vm table; the order is the store's. */
    method ListVMs() returns (vms: seq<VM>)
      requires Keyed(table)
      ensures Lists(vms, table)
    {
      vms := [];
      var todo := table.Keys;
      while todo != {}
        invariant todo <= table.Keys && DistinctIDs(vms)
        invariant forall i | 0 <= i < |vms| :: vms[i].id in table && vms[i].id !in todo && table[vms[i].id] == vms[i]
        invariant forall id | id in table && id !in todo :: exists i | 0 <= i < |vms| :: vms[i].id == id
      {
        var id :| id in todo;
        ghost var before := vms;
        vms := vms + [table[id]];
        assert vms[|before|].id == id;
        forall k | k in table && k !in todo - {id} ensures exists i | 0 <= i < |vms| :: vms[i].id == k {
          if k != id {
            var i :| 0 <= i < |before| && before[i].id == k;
            assert vms[i].id == k;
          }
        }
        todo := todo - {id};
      }
    }

    /** The list plus one entry per in-flight migration not yet arrived, in map order. */
    method WithPendingMigrations(vms: seq<VM>, ghost seen: Table) returns (out: seq<VM>)
      requires Lists(vms, seen) && ClaimsOk(migrations)
      ensures WithPending(vms, seen, migrations, out)
    {
      if |migrations| == 0 {
        return vms;
      }
      var arrived := ArrivedHosts(vms);
      out := vms;
      ghost var added: seq<VM> := [];
      var todo := migrations.Keys;
      while todo != {}
        invariant todo <= migrations.Keys && out == vms + added
        invariant PendingBeyond(seen, migrations, added, todo)
      {
        var id :| id in todo;
        var pending := migrations[id];
        var arrivedAt := if id in arrived then arrived[id] else "";
        ArrivedLookup(vms, seen, migrations, arrived, id);
        PendingStep(seen, migrations, added, todo, id);
        todo := todo - {id};
        if arrivedAt == pending.host.value {
          continue;
        }
        out := out + [pending];
        added := added + [pending];
      }
      assert out[|vms|..] == added;
    }

    /**
     allocateVM from the moment ListVMs has answered: `listed` may be older than
     the table. The row is inserted only if the VM fits next to everything
     listed and every pending claim.
     */
    method AllocateVM(host: Host, vm: VM, listed: Option<seq<VM>>, ghost seen: Table, newID: string, insertOk: bool)
      returns (r: Option<CheckResult>, ghost counted: seq<VM>)
      requires ClaimsOk(migrations) && (listed.Some? ==> Lists(listed.value, seen))
      modifies this`table
      ensures listed.Some? ==> WithPending(listed.value, seen, migrations, counted)
      ensures r.Some? ==> listed.Some?
      ensures r.Some? && r.value.Remaining? ==> Fits(host, counted, vm.cpus, vm.memory) && insertOk
      ensures r.Some? ==> Answer(host, counted, vm, r.value)
      ensures table == if r.Some? && r.value.Remaining? then old(table)[newID := vm.(id := newID)] else old(table)
      ensures r == None <==> listed == None || (Fits(host, counted, vm.cpus, vm.memory) && !insertOk)
    {
      counted := [];
      if listed == None {
        return None, counted;
      }
      var vms := WithPendingMigrations(listed.value, seen);
      counted := vms;
      var check := CheckHostCapacity(host, vms, vm.cpus, vm.memory);
      if !check.Remaining? {
        return Some(check), counted;
      }
      if !insertOk {
        return None, counted;
      }
      table := table[newID := vm.(id := newID)];
      return Some(check), counted;
    }

    /** reserveMigration, given what ListVMs answered. */
    method ReserveMigration(vm: VM, target: Host, listed: Option<seq<VM>>, ghost seen: Table)
      returns (ok: bool, ghost counted: seq<VM>)
      requires ClaimsOk(migrations) && (listed.Some? ==> Lists(listed.value, seen)) && target.id != ""
      modifies this`migrations
      ensures listed.Some? && vm.id !in old(migrations) ==> WithPending(listed.value, seen, old(migrations), counted)
      ensures ok <==> vm.id !in old(migrations) && listed.Some? && Fits(target, counted, vm.cpus, vm.memory)
      ensures migrations == if ok then old(migrations)[vm.id := Claim(vm, target.id)] else old(migrations)
      ensures ClaimsOk(migrations)
    {
      counted := [];
      if vm.id in migrations {
        return false, counted;
      }
      if listed == None {
        return false, counted;
      }
      var vms := WithPendingMigrations(listed.value, seen);
      counted := vms;
      var check := CheckHostCapacity(target, vms, vm.cpus, vm.memory);
      if !check.Remaining? {
        return false, counted;
      }
      migrations := migrations[vm.id := Claim(vm, target.id)];
      return true, counted;
    }

    method ReleaseMigration(id: string)
      modifies this`migrations
      ensures migrations == old(migrations) - {id}
    {
      migrations := migrations - {id};
    }

    /** One write of UpdateVM: a missing row is left missing. */
    method UpdateVM(id: string, host: Option<string>, status: Status)
      modifies this`table
      ensures table == if id in old(table) then old(table)[id := old(table)[id].(host := host, status := status)]
          else old(table)
    {
      if id in table {
        table := table[id := table[id].(host := host, status := status)];
      }
    }

    /**
     MigrateVM without interference. No claim outlives the call, and the rows and
     locations change exactly as the result says.
     */
    method MigrateVM(id: string, target: Host, f: Faults) returns (r: MigrateResult)
      requires Keyed(table) && ClaimsOk(migrations) && target.id != ""
      modifies this
      ensures migrations == old(migrations)
      ensures r == if Movable(old(table), old(migrations), id, target, f) then ResultOf(f) else Refused
      ensures Possible(old(table), id, target.id, r)
      ensures Explained(old(table), old(migrations), old(at), id, target, f, r, table, at)
      ensures table == After(old(table), old(at), id, target.id, r).0
      ensures at == After(old(table), old(at), id, target.id, r).1
    {
      ResultsExplained(table, migrations, at, id, target, f);
      if id !in table {
        return Refused;
      }
      var vm := table[id];
      if vm.status != Running {
        return Refused;
      }
      if vm.host == None || vm.host.value == "" || vm.host.value == target.id {
        return Refused;
      }
      if !f.targetUsable {
        return Refused;
      }
      var listed: Option<seq<VM>> := None;
      if f.listOk {
        var vms := ListVMs();
        listed := Some(vms);
      }
      var ok;
      ghost var counted;
      ok, counted := ReserveMigration(vm, target, listed, table);
      if listed.Some? && id !in old(migrations) {
        FitsMeansRoom(listed.value, table, old(migrations), counted, target, vm);
      }
      if !ok {
        return Refused;
      }
      r := Transfer(vm, target.id, f);
      ReleaseMigration(id);
    }

    /** From marking the row to recording the new host. */
    method Transfer(vm: VM, target: string, f: Faults) returns (r: MigrateResult)
      requires vm.id in table && table[vm.id] == vm && Possible(table, vm.id, target, Migrated)
      modifies this`table, this`at
      ensures r == ResultOf(f)
      ensures table == After(old(table), old(at), vm.id, target, r).0
      ensures at == After(old(table), old(at), vm.id, target, r).1
    {
      if !f.markOk {
        return MarkFailed;
      }
      UpdateVM(vm.id, vm.host, Migrating);
      if !f.agentOk {
        if !f.rollbackOk {
          return RollbackFailed;
        }
        UpdateVM(vm.id, vm.host, vm.status);
        return AgentFailed;
      }
      at := at[vm.id := target];
      if !f.commitOk {
        return CommitFailed;
      }
      UpdateVM(vm.id, Some(target), vm.status);
      return Migrated;
    }

    /**
     DeleteVM: a running VM is stopped first, and the row goes only after the
     agent destroyed the VM. A call that fails leaves at most a stopped row.
     `agent` says whether the host has a registered node agent.
     */
    method DeleteVM(id: string, agent: bool, stopOk: bool, statusOk: bool, destroyOk: bool, deleteOk: bool)
      returns (ok: bool)
      modifies this`table
      ensures ok <==>
                && id in old(table) && old(table)[id].host.Some? && old(table)[id].host.value != ""
                && (old(table)[id].status == Running ==> agent && stopOk)
                && (agent ==> destroyOk) && deleteOk
      ensures ok ==> table == old(table) - {id}
      ensures !ok && Stopping(old(table), id) && agent && stopOk && statusOk ==>
                table == old(table)[id := old(table)[id].(status := Stopped)]
      ensures !ok && !(Stopping(old(table), id) && agent && stopOk && statusOk) ==> table == old(table)
    {
      if id !in table {
        return false;
      }
      var vm := table[id];
      var placed := vm.host != None && vm.host.value != "";
      if vm.status == Running {
        if !placed || !agent || !stopOk {
          return false;
        }
        if statusOk {
          UpdateVM(id, vm.host, Stopped);
        }
      }
      if !placed {
        return false;
      }
      if agent && !destroyOk {
        return false;
      }
      if !deleteOk {
        return false;
      }
      table := table - {id};
      return true;
    }
  }

  /** A running VM with a host: the delete stops it first. */
  predicate Stopping(table: Table, id: string) {
    id in table && table[id].status == Running && table[id].host.Some? && table[id].host.value != ""
  }

  function Claim(vm: VM, target: string): VM {
    VM(vm.id, Some(target), Created, vm.cpus, vm.memory)
  }

  /** The host of every listed VM that has one. */
  ghost predicate IsArrivedMap(vms: seq<VM>, arrived: map<string, string>) {
    && (forall id | id in arrived :: exists i | 0 <= i < |vms| :: vms[i].id == id && vms[i].host == Some(arrived[id]))
    && (forall i | 0 <= i < |vms| && vms[i].host.Some? :: vms[i].id in arrived)
  }

  method ArrivedHosts(vms: seq<VM>) returns (arrived: map<string, string>)
    requires DistinctIDs(vms)
    ensures IsArrivedMap(vms, arrived)
  {
    arrived := map[];
    for i := 0 to |vms|
      invariant forall id | id in arrived :: exists k | 0 <= k < i ::
          vms[k].id == id && vms[k].host == Some(arrived[id])
      invariant forall k | 0 <= k < i && vms[k].host.Some? :: vms[k].id in arrived
    {
      if vms[i].host != None {
        arrived := arrived[vms[i].id := vms[i].host.value];
      }
    }
  }

  /** Looking a VM up in the arrived map tells whether its row is at the claim's target. */
  lemma {:induction false} ArrivedLookup(vms: seq<VM>, seen: Table, claims: Table, arrived: map<string, string>,
      id: string)
    requires Lists(vms, seen) && ClaimsOk(claims) && id in claims && IsArrivedMap(vms, arrived)
    ensures (if id in arrived then arrived[id] else "") == claims[id].host.value <==> Arrived(seen, claims, id)
  {
    if id in seen {
      var i :| 0 <= i < |vms| && vms[i].id == id;
      assert seen[id] == vms[i];
      if id in arrived {
        var k :| 0 <= k < |vms| && vms[k].id == id && vms[k].host == Some(arrived[id]);
        assert k == i;
      }
    }
  }

  /** The pending claims outside todo, one VM each. */
  ghost predicate PendingBeyond(table: Table, claims: Table, vms: seq<VM>, todo: set<string>) {
    && DistinctIDs(vms)
    && (forall i | 0 <= i < |vms| ::
          vms[i].id in claims && vms[i].id !in todo && claims[vms[i].id] == vms[i]
              && !Arrived(table, claims, vms[i].id))
    && (forall id | id in claims && id !in todo && !Arrived(table, claims, id) :: exists i | 0 <= i < |vms| ::
        vms[i].id == id)
  }

  lemma {:induction false} PendingStep(table: Table, claims: Table, vms: seq<VM>, todo: set<string>, id: string)
    requires PendingBeyond(table, claims, vms, todo) && id in todo && id in claims && Keyed(claims)
    ensures PendingBeyond(table, claims, if Arrived(table, claims, id) then vms else vms + [claims[id]], todo - {id})
  {
    var more := if Arrived(table, claims, id) then vms else vms + [claims[id]];
    forall k | k in claims && k !in todo - {id} && !Arrived(table, claims, k)
      ensures exists i | 0 <= i < |more| :: more[i].id == k
    {
      if k == id {
        assert more[|vms|].id == k;
      } else {
        var i :| 0 <= i < |vms| && vms[i].id == k;
        assert more[i].id == k;
      }
    }
  }

  // ---------- Back-to-back migrations ----------

  datatype Call = Call(id: string, target: string, result: MigrateResult)

  /** Each call's result is one its state allows. */
  predicate CallsPossible(table: Table, at: Locations, calls: seq<Call>)
    decreases |calls|
  {
    calls != [] ==>
      && Possible(table, calls[0].id, calls[0].target, calls[0].result)
      && var (t, a) := After(table, at, calls[0].id, calls[0].target, calls[0].result);
         CallsPossible(t, a, calls[1..])
  }

  function AfterAll(table: Table, at: Locations, calls: seq<Call>): (Table, Locations)
    requires CallsPossible(table, at, calls)
    decreases |calls|
  {
    if calls == [] then (table, at)
    else
      var (t, a) := After(table, at, calls[0].id, calls[0].target, calls[0].result);
      AfterAll(t, a, calls[1..])
  }

  /** The row is right about where the VM is, or says that it is migrating. */
  predicate Truthful(table: Table, at: Locations, id: string) {
    id in table ==> table[id].status == Migrating || (id in at && table[id].host == Some(at[id]))
  }

  /** Over any run of calls with any faults, a row is wrong about its VM only while marked migrating. */
  lemma {:induction false} RowsStayTruthful(table: Table, at: Locations, calls: seq<Call>, id: string)
    requires CallsPossible(table, at, calls) && Truthful(table, at, id)
    ensures var (t, a) := AfterAll(table, at, calls); Truthful(t, a, id)
    decreases |calls|
  {
    if calls != [] {
      var (t, a) := After(table, at, calls[0].id, calls[0].target, calls[0].result);
      RowsStayTruthful(t, a, calls[1..], id);
    }
  }

  /** Once a row is marked migrating, every further call refuses and neither the row nor the VM moves. */
  lemma {:induction false} MigratingIsFinal(table: Table, at: Locations, calls: seq<Call>, id: string)
    requires CallsPossible(table, at, calls) && id in table && table[id].status == Migrating
    ensures forall k | 0 <= k < |calls| && calls[k].id == id :: calls[k].result == Refused
    ensures var (t, a) := AfterAll(table, at, calls);
            id in t && t[id] == table[id] && (id in a <==> id in at) && (id in at ==> a[id] == at[id])
    decreases |calls|
  {
    if calls != [] {
      var (t, a) := After(table, at, calls[0].id, calls[0].target, calls[0].result);
      MigratingIsFinal(t, a, calls[1..], id);
      forall k | 0 <= k < |calls| && calls[k].id == id ensures calls[k].result == Refused {
        if k > 0 {
          assert calls[1..][k - 1] == calls[k];
        }
      }
    }
  }
}

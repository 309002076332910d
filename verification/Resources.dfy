/** structure/resource_manager.go and structure/vm.go: cores, VMs and the in-memory tables about them. */
module Resources {
  import opened Common

  // ---------------------------------------------------------------- values

  datatype Amounts = Amounts(memory: U32, cpu: U32, disk: U32)

  datatype Kind = Memory | Cpu | Disk

  function Get(a: Amounts, kind: Kind): U32 {
    match kind case Memory => a.memory case Cpu => a.cpu case Disk => a.disk
  }

  predicate Covers(free: Amounts, req: Amounts) {
    free.memory >= req.memory && free.cpu >= req.cpu && free.disk >= req.disk
  }

  /** uint32 subtraction and addition, field by field. */
  function Charge(free: Amounts, req: Amounts): Amounts {
    Amounts(Sub32(free.memory, req.memory), Sub32(free.cpu, req.cpu), Sub32(free.disk, req.disk))
  }

  function Refund(free: Amounts, req: Amounts): Amounts {
    Amounts(Add32(free.memory, req.memory), Add32(free.cpu, req.cpu), Add32(free.disk, req.disk))
  }

  /** A VM record is never changed once it has been made, so it is a value here. */
  datatype VMInfo = VMInfo(uuid: UUID, ip: string, guacPassword: string, mac: string, hw: Amounts)

  datatype CoreState = CoreState(total: Amounts, isAlive: bool, free: Amounts, vms: map<UUID, VMInfo>)

  /** The state of a ResourceManager; a *Core is its position in cores. */
  datatype ResourceState = ResourceState(cores: seq<CoreState>, location: map<UUID, nat>, aliveVM: seq<VMInfo>)

  // ---------------------------------------------------------------- what the operations do to the state

  predicate Suitable(c: CoreState, req: Amounts) { c.isAlive && Covers(c.free, req) }

  /** choice is the first alive core with enough of everything, or None if there is no such core. */
  predicate FirstFit(s: ResourceState, req: Amounts, choice: Option<nat>) {
    match choice
    case None => forall i :: 0 <= i < |s.cores| ==> !Suitable(s.cores[i], req)
    case Some(c) => c < |s.cores| && Suitable(s.cores[c], req) && forall i :: 0 <= i < c ==> !Suitable(s.cores[i], req)
  }

  function CountAlive(cores: seq<CoreState>): nat {
    if cores == [] then 0
    else CountAlive(cores[..|cores| - 1]) + (if cores[|cores| - 1].isAlive then 1 else 0)
  }

  /** How many of the cores are alive. */
  lemma {:induction false} CountAliveIs(cores: seq<CoreState>)
    ensures CountAlive(cores) == |set i | 0 <= i < |cores| && cores[i].isAlive|
    decreases |cores|
  {
    if cores != [] {
      var n := |cores| - 1;
      CountAliveIs(cores[..n]);
      var before := set i | 0 <= i < n && cores[..n][i].isAlive;
      assert (set i | 0 <= i < |cores| && cores[i].isAlive) == if cores[n].isAlive then before + {n} else before;
    }
  }

  /** What FirstFit means, spelled out. */
  lemma FirstFitIs(s: ResourceState, req: Amounts, choice: Option<nat>)
    requires FirstFit(s, req, choice)
    ensures choice.Some? ==>
              choice.value < |s.cores| && s.cores[choice.value].isAlive &&
              s.cores[choice.value].free.memory >= req.memory && s.cores[choice.value].free.cpu >= req.cpu &&
              s.cores[choice.value].free.disk >= req.disk
    ensures forall i :: 0 <= i < (if choice.Some? then choice.value else |s.cores|) ==>
              !s.cores[i].isAlive || s.cores[i].free.memory < req.memory ||
              s.cores[i].free.cpu < req.cpu || s.cores[i].free.disk < req.disk
  {
  }

  function Allocate(s: ResourceState, core: nat, uuid: UUID, vm: VMInfo, req: Amounts): ResourceState
    requires core < |s.cores|
  {
    var c := s.cores[core];
    s.(cores := s.cores[core := c.(vms := c.vms[uuid := vm], free := Charge(c.free, req))])
  }

  function Deallocate(s: ResourceState, core: nat, uuid: UUID, req: Amounts): ResourceState
    requires core < |s.cores|
  {
    var c := s.cores[core];
    s.(cores := s.cores[core := c.(vms := c.vms - {uuid}, free := Refund(c.free, req))])
  }

  function Register(s: ResourceState, uuid: UUID, core: nat, vm: VMInfo): ResourceState {
    s.(location := s.location[uuid := core], aliveVM := s.aliveVM + [vm])
  }

  function Unregister(s: ResourceState, uuid: UUID): ResourceState {
    s.(aliveVM := RemoveFirst(s.aliveVM, uuid))
  }

  function RemoveFirst(vms: seq<VMInfo>, uuid: UUID): seq<VMInfo> {
    if vms == [] then [] else if vms[0].uuid == uuid then vms[1..] else [vms[0]] + RemoveFirst(vms[1..], uuid)
  }

  /** service/network.go, GetVMIPByUUID: the record reached through VMLocation and then VMInfoIdx. */
  function LookupVM(s: ResourceState, uuid: UUID): Option<VMInfo> {
    if uuid in s.location && s.location[uuid] < |s.cores| && uuid in s.cores[s.location[uuid]].vms then
      Some(s.cores[s.location[uuid]].vms[uuid])
    else
      None
  }

  // ---------------------------------------------------------------- facts about them

  lemma ChargeThenRefund(free: Amounts, req: Amounts)
    ensures Refund(Charge(free, req), req) == free
  {
    forall kind: Kind ensures Add32(Sub32(Get(free, kind), Get(req, kind)), Get(req, kind)) == Get(free, kind) {
      SubThenAdd(Get(free, kind), Get(req, kind));
    }
    assert Get(free, Memory) == free.memory && Get(free, Cpu) == free.cpu && Get(free, Disk) == free.disk;
  }

  lemma SubThenAdd(a: U32, b: U32)
    ensures Add32(Sub32(a, b), b) == a
  {
  }

  /** DeallocateResources undoes AllocateResources, wrap-around included, unless it overwrote a record. */
  lemma DeallocateUndoesAllocate(s: ResourceState, core: nat, uuid: UUID, vm: VMInfo, req: Amounts)
    requires core < |s.cores|
    ensures Deallocate(Allocate(s, core, uuid, vm, req), core, uuid, req) == s <==> uuid !in s.cores[core].vms
  {
    var c := s.cores[core];
    var t := Deallocate(Allocate(s, core, uuid, vm, req), core, uuid, req);
    ChargeThenRefund(c.free, req);
    assert t.cores[core].vms == c.vms - {uuid};
    if uuid !in c.vms {
      assert c.vms - {uuid} == c.vms;
      assert t.cores[core] == c;
      assert t.cores == s.cores;
    } else {
      assert uuid !in t.cores[core].vms;
    }
  }

  ghost predicate DistinctUUIDs(vms: seq<VMInfo>) {
    forall i, j :: 0 <= i < j < |vms| ==> vms[i].uuid != vms[j].uuid
  }

  predicate FirstAt(vms: seq<VMInfo>, i: nat, uuid: UUID) {
    i < |vms| && vms[i].uuid == uuid && forall j :: 0 <= j < i ==> vms[j].uuid != uuid
  }

  /** left is vms without its first VM of the given UUID. */
  ghost predicate IsWithoutFirst(vms: seq<VMInfo>, left: seq<VMInfo>, uuid: UUID) {
    exists i: nat :: FirstAt(vms, i, uuid) && left == vms[..i] + vms[i + 1..]
  }

  lemma {:induction false} RemoveFirstAt(vms: seq<VMInfo>, i: nat, uuid: UUID)
    requires i < |vms| && vms[i].uuid == uuid
    requires forall j :: 0 <= j < i ==> vms[j].uuid != uuid
    ensures RemoveFirst(vms, uuid) == vms[..i] + vms[i + 1..]
  {
    if i > 0 {
      RemoveFirstAt(vms[1..], i - 1, uuid);
      assert vms[..i] == [vms[0]] + vms[1..][..i - 1];
    }
  }

  lemma {:induction false} RemoveFirstAbsent(vms: seq<VMInfo>, uuid: UUID)
    requires forall j :: 0 <= j < |vms| ==> vms[j].uuid != uuid
    ensures RemoveFirst(vms, uuid) == vms
  {
    if vms != [] {
      RemoveFirstAbsent(vms[1..], uuid);
    }
  }

  /** RemoveFirst takes the first VM of that UUID out, if there is one. */
  lemma {:induction false} RemoveFirstIs(vms: seq<VMInfo>, uuid: UUID)
    ensures if exists vm :: vm in vms && vm.uuid == uuid then IsWithoutFirst(vms, RemoveFirst(vms, uuid), uuid)
            else RemoveFirst(vms, uuid) == vms
  {
    if vms != [] {
      if vms[0].uuid == uuid {
        assert FirstAt(vms, 0, uuid);
      } else if vm :| vm in vms && vm.uuid == uuid {
        assert vm in vms[1..];
        RemoveFirstIs(vms[1..], uuid);
        var i: nat :| FirstAt(vms[1..], i, uuid);
        assert FirstAt(vms, i + 1, uuid);
        RemoveFirstAt(vms, i + 1, uuid);
      } else {
        RemoveFirstAbsent(vms, uuid);
      }
    }
  }

  /** Without duplicates, exactly the given VM leaves; the others stay, in order. */
  lemma {:induction false} RemoveFirstRemovesExactly(vms: seq<VMInfo>, uuid: UUID)
    requires DistinctUUIDs(vms)
    ensures DistinctUUIDs(RemoveFirst(vms, uuid))
    ensures forall vm :: vm in RemoveFirst(vms, uuid) <==> vm in vms && vm.uuid != uuid
    ensures IsSubsequence(RemoveFirst(vms, uuid), vms)
  {
    RemoveFirstIsSubsequence(vms, uuid);
    if i :| 0 <= i < |vms| && vms[i].uuid == uuid {
      RemoveFirstAt(vms, i, uuid);
    } else {
      RemoveFirstAbsent(vms, uuid);
    }
  }

  /** a arises from b by leaving elements out. */
  ghost predicate IsSubsequence(a: seq<VMInfo>, b: seq<VMInfo>) {
    if a == [] then true
    else b != [] && ((a[0] == b[0] && IsSubsequence(a[1..], b[1..])) || IsSubsequence(a, b[1..]))
  }

  lemma {:induction false} SubsequenceRefl(a: seq<VMInfo>)
    ensures IsSubsequence(a, a)
  {
    if a != [] {
      SubsequenceRefl(a[1..]);
    }
  }

  lemma {:induction false} RemoveFirstIsSubsequence(vms: seq<VMInfo>, uuid: UUID)
    ensures IsSubsequence(RemoveFirst(vms, uuid), vms)
  {
    if vms != [] {
      if vms[0].uuid == uuid {
        SubsequenceRefl(vms[1..]);
      } else {
        RemoveFirstIsSubsequence(vms[1..], uuid);
        assert RemoveFirst(vms, uuid)[1..] == RemoveFirst(vms[1..], uuid);
      }
    }
  }

  lemma {:induction false} SubsequenceTrans(a: seq<VMInfo>, b: seq<VMInfo>, c: seq<VMInfo>)
    requires IsSubsequence(a, b) && IsSubsequence(b, c)
    ensures IsSubsequence(a, c)
    decreases |b| + |c|
  {
    if a != [] {
      if b[0] == c[0] && IsSubsequence(b[1..], c[1..]) {
        if a[0] == b[0] && IsSubsequence(a[1..], b[1..]) {
          SubsequenceTrans(a[1..], b[1..], c[1..]);
        } else {
          SubsequenceTrans(a, b[1..], c[1..]);
        }
      } else {
        SubsequenceTrans(a, b, c[1..]);
      }
    }
  }

  lemma {:induction false} SubsequenceAppend(a: seq<VMInfo>, b: seq<VMInfo>, vm: VMInfo)
    requires IsSubsequence(a, b)
    ensures IsSubsequence(a + [vm], b + [vm])
  {
    if a == [] {
      SubsequenceSingle(b, vm);
      assert a + [vm] == [vm];
    } else {
      assert (a + [vm])[1..] == a[1..] + [vm] && (b + [vm])[1..] == b[1..] + [vm];
      if a[0] == b[0] && IsSubsequence(a[1..], b[1..]) {
        SubsequenceAppend(a[1..], b[1..], vm);
      } else {
        SubsequenceAppend(a, b[1..], vm);
      }
    }
  }

  lemma {:induction false} SubsequenceSingle(b: seq<VMInfo>, vm: VMInfo)
    ensures IsSubsequence([vm], b + [vm])
  {
    if b == [] {
      SubsequenceRefl([vm]);
      assert b + [vm] == [vm];
    } else {
      SubsequenceSingle(b[1..], vm);
      assert (b + [vm])[1..] == b[1..] + [vm];
    }
  }

  // ---------------------------------------------------------------- the objects

  class Core {
    const ip: string
    const port: int
    var coreInfoIdx: Amounts
    var isAlive: bool
    var vmInfoIdx: map<UUID, VMInfo>
    var freeMemory: U32
    var freeCPU: U32
    var freeDisk: U32

    constructor (ip: string, port: int)
      ensures State() == CoreState(Amounts(0, 0, 0), true, Amounts(0, 0, 0), map[])
      ensures this.ip == ip && this.port == port
    {
      this.ip := ip;
      this.port := port;
      coreInfoIdx := Amounts(0, 0, 0);
      isAlive := true;
      vmInfoIdx := map[];
      freeMemory, freeCPU, freeDisk := 0, 0, 0;
    }

    function State(): CoreState
      reads this
    {
      CoreState(coreInfoIdx, isAlive, Amounts(freeMemory, freeCPU, freeDisk), vmInfoIdx)
    }
  }

  datatype CoreSelectionResult = CoreSelectionResult(core: Core?, index: int, aliveCount: nat, totalCores: nat)

  class ResourceManager {
    var cores: seq<Core>
    var aliveVM: seq<VMInfo>
    var vmLocation: map<UUID, Core>

    constructor ()
      ensures Valid() && cores == [] && State() == ResourceState([], map[], [])
    {
      cores, aliveVM, vmLocation := [], [], map[];
      new;
      assert State().location == map[];
    }

    ghost predicate Valid()
      reads this
    {
      (forall i, j :: 0 <= i < j < |cores| ==> cores[i] != cores[j]) &&
      (forall u :: u in vmLocation ==> vmLocation[u] in cores)
    }

    /** The position a *Core stands for. */
    ghost function IndexOf(core: Core): (i: nat)
      requires core in cores
      reads this
      ensures i < |cores| && cores[i] == core
    {
      var i :| 0 <= i < |cores| && cores[i] == core;
      i
    }

    ghost function State(): (s: ResourceState)
      requires Valid()
      reads this, cores
      ensures |s.cores| == |cores| && forall i :: 0 <= i < |cores| ==> s.cores[i] == cores[i].State()
      ensures s.location.Keys == vmLocation.Keys && s.aliveVM == aliveVM
      ensures forall u :: u in vmLocation ==> s.location[u] < |cores| && cores[s.location[u]] == vmLocation[u]
    {
      ResourceState(
        seq(|cores|, i requires 0 <= i < |cores| reads this, cores => cores[i].State()),
        map u | u in vmLocation :: IndexOf(vmLocation[u]),
        aliveVM)
    }

    /** A state is known once each core, each location and the list of running VMs are. */
    lemma StateIs(s: ResourceState)
      requires Valid()
      requires |s.cores| == |cores| && forall i :: 0 <= i < |cores| ==> s.cores[i] == cores[i].State()
      requires s.location.Keys == vmLocation.Keys
      requires forall u :: u in vmLocation ==> s.location[u] < |cores| && cores[s.location[u]] == vmLocation[u]
      requires s.aliveVM == aliveVM
      ensures State() == s
    {
      assert State().cores == s.cores;
      forall u | u in vmLocation ensures State().location[u] == s.location[u] {
        assert cores[State().location[u]] == cores[s.location[u]];
      }
      assert State().location == s.location;
    }

    method Locate(uuid: UUID, core: Core)
      requires Valid() && core in cores
      modifies this`vmLocation
      ensures Valid() && State() == old(State()).(location := old(State()).location[uuid := IndexOf(core)])
      ensures vmLocation == old(vmLocation)[uuid := core]
    {
      hide State, IndexOf;
      ghost var known, cached := State().location, vmLocation;
      ghost var s := State().(location := known[uuid := IndexOf(core)]);
      vmLocation := vmLocation[uuid := core];
      assert s.location.Keys == cached.Keys + {uuid} == vmLocation.Keys;
      StateIs(s);
    }

    method SelectCore(req: Amounts) returns (result: CoreSelectionResult)
      requires Valid()
      ensures result.core != null ==> 0 <= result.index < |cores| && result.core == cores[result.index]
      ensures result.core == null ==> result.index == -1
      ensures FirstFit(State(), req, if result.core == null then None else Some(result.index))
      ensures result.core != null ==>
                result.core.isAlive && result.core.freeMemory >= req.memory &&
                result.core.freeCPU >= req.cpu && result.core.freeDisk >= req.disk
      ensures forall i :: 0 <= i < (if result.core == null then |cores| else result.index) ==>
                !cores[i].isAlive || cores[i].freeMemory < req.memory ||
                cores[i].freeCPU < req.cpu || cores[i].freeDisk < req.disk
      ensures result.totalCores == |cores|
      ensures result.aliveCount ==
              CountAlive(if result.core == null then State().cores else State().cores[..result.index + 1])
      ensures result.aliveCount ==
              |set i | 0 <= i < (if result.core == null then |cores| else result.index + 1) && cores[i].isAlive|
    {
      result := CoreSelectionResult(null, -1, 0, |cores|);
      ghost var s := State().cores;
      for i := 0 to |cores|
        invariant result.core == null && result.index == -1 && result.totalCores == |cores|
        invariant forall j :: 0 <= j < i ==> !Suitable(s[j], req)
        invariant result.aliveCount == CountAlive(s[..i])
      {
        var core := cores[i];
        assert s[..i + 1][..i] == s[..i];
        if !core.isAlive {
          continue;
        }
        result := result.(aliveCount := result.aliveCount + 1);
        if core.freeMemory >= req.memory && core.freeCPU >= req.cpu && core.freeDisk >= req.disk {
          AliveUpTo(i + 1, s);
          return result.(core := core, index := i);
        }
      }
      assert s[..|cores|] == s;
      AliveUpTo(|cores|, s);
    }

    lemma AliveUpTo(n: nat, s: seq<CoreState>)
      requires n <= |cores| == |s| && forall i :: 0 <= i < |s| ==> s[i] == cores[i].State()
      ensures CountAlive(s[..n]) == |set i | 0 <= i < n && cores[i].isAlive|
    {
      CountAliveIs(s[..n]);
      assert (set i | 0 <= i < n && cores[i].isAlive) == set i | 0 <= i < |s[..n]| && s[..n][i].isAlive;
    }

    method AllocateResources(core: Core, uuid: UUID, vm: VMInfo, req: Amounts)
      requires Valid() && core in cores
      modifies core
      ensures Valid() && State() == Allocate(old(State()), IndexOf(core), uuid, vm, req)
      ensures core.vmInfoIdx == old(core.vmInfoIdx)[uuid := vm]
      ensures core.freeMemory ==
                old(core.freeMemory) - req.memory + if req.memory <= old(core.freeMemory) then 0 else 0x1_0000_0000
      ensures core.freeCPU ==
                old(core.freeCPU) - req.cpu + if req.cpu <= old(core.freeCPU) then 0 else 0x1_0000_0000
      ensures core.freeDisk ==
                old(core.freeDisk) - req.disk + if req.disk <= old(core.freeDisk) then 0 else 0x1_0000_0000
      ensures core.coreInfoIdx == old(core.coreInfoIdx) && core.isAlive == old(core.isAlive)
    {
      hide State, IndexOf;
      ghost var s := Allocate(State(), IndexOf(core), uuid, vm, req);
      core.vmInfoIdx := core.vmInfoIdx[uuid := vm];
      core.freeMemory := Sub32(core.freeMemory, req.memory);
      core.freeCPU := Sub32(core.freeCPU, req.cpu);
      core.freeDisk := Sub32(core.freeDisk, req.disk);
      StateIs(s);
    }

    method DeallocateResources(core: Core, uuid: UUID, req: Amounts)
      requires Valid() && core in cores
      modifies core
      ensures Valid() && State() == Deallocate(old(State()), IndexOf(core), uuid, req)
      ensures core.vmInfoIdx == old(core.vmInfoIdx) - {uuid}
      ensures core.freeMemory == old(core.freeMemory) + req.memory -
                if old(core.freeMemory) + req.memory < 0x1_0000_0000 then 0 else 0x1_0000_0000
      ensures core.freeCPU == old(core.freeCPU) + req.cpu -
                if old(core.freeCPU) + req.cpu < 0x1_0000_0000 then 0 else 0x1_0000_0000
      ensures core.freeDisk == old(core.freeDisk) + req.disk -
                if old(core.freeDisk) + req.disk < 0x1_0000_0000 then 0 else 0x1_0000_0000
      ensures core.coreInfoIdx == old(core.coreInfoIdx) && core.isAlive == old(core.isAlive)
    {
      hide State, IndexOf;
      ghost var s := Deallocate(State(), IndexOf(core), uuid, req);
      core.vmInfoIdx := core.vmInfoIdx - {uuid};
      core.freeMemory := Add32(core.freeMemory, req.memory);
      core.freeCPU := Add32(core.freeCPU, req.cpu);
      core.freeDisk := Add32(core.freeDisk, req.disk);
      StateIs(s);
    }

    method RegisterVM(uuid: UUID, core: Core, vm: VMInfo)
      requires Valid() && core in cores
      modifies this`vmLocation, this`aliveVM
      ensures Valid() && State() == Register(old(State()), uuid, IndexOf(core), vm)
      ensures vmLocation == old(vmLocation)[uuid := core] && aliveVM == old(aliveVM) + [vm]
    {
      hide State, IndexOf;
      ghost var s := Register(State(), uuid, IndexOf(core), vm);
      Locate(uuid, core);
      aliveVM := aliveVM + [vm];
      StateIs(s);
    }

    method UnregisterAlive(uuid: UUID) returns (found: bool)
      requires Valid()
      modifies this`aliveVM
      ensures Valid() && State() == Unregister(old(State()), uuid)
      ensures found <==> exists vm :: vm in old(aliveVM) && vm.uuid == uuid
      ensures if found then IsWithoutFirst(old(aliveVM), aliveVM, uuid) else aliveVM == old(aliveVM)
    {
      hide State, IndexOf;
      ghost var s := Unregister(State(), uuid);
      for i := 0 to |aliveVM|
        invariant aliveVM == old(aliveVM)
        invariant forall j :: 0 <= j < i ==> aliveVM[j].uuid != uuid
      {
        if aliveVM[i].uuid == uuid {
          RemoveFirstAt(aliveVM, i, uuid);
          assert FirstAt(aliveVM, i, uuid);
          assert aliveVM[i] in aliveVM;
          aliveVM := aliveVM[..i] + aliveVM[i + 1..];
          StateIs(s);
          return true;
        }
      }
      RemoveFirstAbsent(aliveVM, uuid);
      return false;
    }
  }
}

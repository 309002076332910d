/** service/vm.go as a machine: any number of calls in flight, interleaved between their locks and transactions. */
module Saga {
  import opened Common
  import opened Resources
  import opened Instances
  import G = Guacamole
  import Network

  // ---------------------------------------------------------------- state

  datatype Stores = Stores(rs: ResourceState, tables: Tables, guac: G.Db)

  /** StartVM, the status queries and GetGuacamoleToken look a core up and change nothing else:
      they are Shutdown calls whose core request fails. */
  datatype Request =
    | Create(uuid: UUID, hw: Amounts, users: seq<string>, subnetType: string)
    | Delete(uuid: UUID)
    | Shutdown(uuid: UUID)

  /** The closures CreateVM pushes on its cleanup chain. */
  datatype Compensation = DropGuacamole | ReleaseResources

  datatype Phase =
    | Idle
    | Failed
    // CreateVM
    | Selected(core: nat)
    | Addressed(core: nat, ip: string, mac: string)
    | Reachable(core: nat, vm: VMInfo)                // Guacamole is configured
    | Reserved(core: nat, vm: VMInfo)
    | Accepted(core: nat, vm: VMInfo)                 // the core has created the VM
    | Persisted(core: nat, vm: VMInfo)
    | Completed(core: nat, vm: VMInfo)
    | Undoing(core: nat, chain: seq<Compensation>)
    // FindCoreByVmUUID
    | Asking
    | Missed(index: int)
    | Found(core: nat)
    // DeleteVM and ShutdownVM
    | Stopped
    | Purged
    | Finished

  datatype World = World(stores: Stores, requests: seq<Request>, phases: seq<Phase>)

  /** Actions carry the answers of the outside world. */
  datatype Action =
    | Select(choice: Option<nat>)
    | Address(keyOk: bool, cms: Option<CmsResponse>)
    | Configure(pass: string, credentials: G.Credentials, privateKey: string, fault: Fault)
    | Reserve
    | CoreReply(ok: bool)
    | Persist(fault: Fault)
    | RegisterNew
    | Compensate(fault: Fault)
    | Look
    | Ask(fault: Fault)
    | Fill
    | Purge(fault: Fault)
    | Drop(fault: Fault)
    | UnregisterStopped

  datatype Step = Step(call: nat, action: Action)

  // ---------------------------------------------------------------- transitions of the shared stores

  function NewVM(r: Request, ip: string, mac: string, pass: string): VMInfo
    requires r.Create?
  {
    VMInfo(r.uuid, ip, pass, mac, r.hw)
  }

  /** AddCmsSubnet: the subnet of the VM's own recorded address. */
  function OwnSubnet(rs: ResourceState, uuid: UUID): Option<string> {
    match LookupVM(rs, uuid)
    case None => None
    case Some(vm) => Network.GetSubnetFromIP(vm.ip)
  }

  predicate AddressFails(rs: ResourceState, r: Request, keyOk: bool, cms: Option<CmsResponse>)
    requires r.Create?
  {
    !keyOk || r.users == [] || (r.subnetType == "Add" && OwnSubnet(rs, r.uuid).None?) || cms.None?
  }

  function Undo(st: Stores, r: Request, core: nat, c: Compensation, fault: Fault): Stores
    requires r.Create? && core < |st.rs.cores|
  {
    match c
    case DropGuacamole => st.(guac := G.AfterCleanup(st.guac, r.uuid, fault))
    case ReleaseResources => st.(rs := Deallocate(st.rs, core, r.uuid, r.hw))
  }

  function CacheLocation(rs: ResourceState, uuid: UUID, core: nat): ResourceState {
    rs.(location := rs.location[uuid := core])
  }

  /** One action of one call: the new stores and the call's new phase. An action the call is not up to does nothing. */
  function Act(st: Stores, r: Request, p: Phase, a: Action): (Stores, Phase) {
    match r
    case Create(_, _, _, _) => ActCreate(st, r, p, a)
    case Delete(_) => if p.Stopped? || p.Purged? then ActDelete(st, r, p, a) else ActFind(st, r, p, a)
    case Shutdown(_) =>
      if p.Stopped? && a.UnregisterStopped? then (st.(rs := Unregister(st.rs, r.uuid)), Finished)
      else if p.Stopped? then (st, p)
      else ActFind(st, r, p, a)
  }

  function ActCreate(st: Stores, r: Request, p: Phase, a: Action): (Stores, Phase)
    requires r.Create?
  {
    match (p, a)
    case (Idle, Select(choice)) =>
      if choice.Some? && choice.value < |st.rs.cores| then (st, Selected(choice.value)) else (st, Failed)
    case (Selected(core), Address(keyOk, cms)) =>
      if AddressFails(st.rs, r, keyOk, cms) then (st, Failed) else (st, Addressed(core, cms.value.ip, cms.value.mac))
    case (Addressed(core, ip, mac), Configure(pass, credentials, privateKey, fault)) =>
      var user := if r.users == [] then "" else r.users[0];
      var guac := G.AfterConfigure(st.guac, r.uuid, credentials, G.Access(ip, user, privateKey), fault);
      (st.(guac := guac),
       if StrikesBefore(fault, G.CONFIGURE_STATEMENTS) then Failed else Reachable(core, NewVM(r, ip, mac, pass)))
    case (Reachable(core, vm), Reserve) =>
      if core < |st.rs.cores| then (st.(rs := Allocate(st.rs, core, r.uuid, vm, r.hw)), Reserved(core, vm)) else (st, p)
    case (Reserved(core, vm), CoreReply(ok)) =>
      (st, if ok then Accepted(core, vm) else Undoing(core, [DropGuacamole, ReleaseResources]))
    case (Accepted(core, vm), Persist(fault)) =>
      (st.(tables := Add(st.tables, vm, core, fault)),
       if AddSucceeds(st.tables, vm.uuid, fault) then Persisted(core, vm)
       else Undoing(core, [DropGuacamole, ReleaseResources]))
    case (Persisted(core, vm), RegisterNew) =>
      (st.(rs := Register(st.rs, r.uuid, core, vm)), Completed(core, vm))
    case (Undoing(core, chain), Compensate(fault)) =>
      if chain == [] then (st, Failed)
      else if core < |st.rs.cores| then
        var last := |chain| - 1;
        (Undo(st, r, core, chain[last], fault), if last == 0 then Failed else Undoing(core, chain[..last]))
      else (st, p)
    case _ => (st, p)
  }

  /** FindCoreByVmUUID, then the request to the core. */
  function ActFind(st: Stores, r: Request, p: Phase, a: Action): (Stores, Phase) {
    match (p, a)
    case (Idle, Look) =>
      if r.uuid in st.rs.location then (st, Found(st.rs.location[r.uuid])) else (st, Asking)
    case (Asking, Ask(fault)) =>
      if StrikesBefore(fault, 3) || r.uuid !in st.tables.loc then (st, Failed)
      else (st, Missed(st.tables.loc[r.uuid]))
    case (Missed(index), Fill) =>
      if 0 <= index < |st.rs.cores| then (st.(rs := CacheLocation(st.rs, r.uuid, index)), Found(index))
      else (st, Failed)
    case (Found(core), CoreReply(ok)) => (st, if ok then Stopped else Failed)
    case _ => (st, p)
  }

  function ActDelete(st: Stores, r: Request, p: Phase, a: Action): (Stores, Phase) {
    match (p, a)
    case (Stopped, Purge(fault)) =>
      (st.(tables := Remove(st.tables, r.uuid, fault)), if StrikesBefore(fault, 4) then Failed else Purged)
    case (Purged, Drop(fault)) => (st.(guac := G.AfterCleanup(st.guac, r.uuid, fault)), Finished)
    case _ => (st, p)
  }

  predicate Valid(w: World) { |w.requests| == |w.phases| }

  function Apply(w: World, s: Step): (w': World)
    requires Valid(w)
    ensures Valid(w') && w'.requests == w.requests
  {
    if s.call >= |w.phases| then w
    else
      var (st, p) := Act(w.stores, w.requests[s.call], w.phases[s.call], s.action);
      World(st, w.requests, w.phases[s.call := p])
  }

  function Exec(w: World, steps: seq<Step>): (w': World)
    requires Valid(w)
    ensures Valid(w') && w'.requests == w.requests
    decreases |steps|
  {
    if steps == [] then w else Exec(Apply(w, steps[0]), steps[1..])
  }

  /** Nothing has begun yet. */
  predicate AllIdle(w: World) {
    Valid(w) && forall k :: 0 <= k < |w.phases| ==> w.phases[k] == Idle
  }

  predicate IsActive(p: Phase) { !p.Idle? && !p.Failed? && !p.Completed? && !p.Finished? }

  // ---------------------------------------------------------------- what every step keeps

  const FULL_CHAIN: seq<Compensation> := [DropGuacamole, ReleaseResources]

  /** What is true of a call's phase in every run. */
  predicate PhaseOk(st: Stores, r: Request, p: Phase) {
    match p
    case Selected(core) => r.Create? && core < |st.rs.cores|
    case Addressed(core, _, _) => r.Create? && core < |st.rs.cores|
    case Reachable(core, vm) => r.Create? && core < |st.rs.cores| && vm.uuid == r.uuid && vm.hw == r.hw
    case Reserved(core, vm) => r.Create? && core < |st.rs.cores| && vm.uuid == r.uuid && vm.hw == r.hw
    case Accepted(core, vm) => r.Create? && core < |st.rs.cores| && vm.uuid == r.uuid && vm.hw == r.hw
    case Persisted(core, vm) => r.Create? && core < |st.rs.cores| && vm.uuid == r.uuid && vm.hw == r.hw
    case Completed(core, vm) => r.Create? && core < |st.rs.cores| && vm.uuid == r.uuid && vm.hw == r.hw
    case Undoing(core, chain) =>
      r.Create? && core < |st.rs.cores| && (chain == [DropGuacamole] || chain == FULL_CHAIN)
    case Asking => !r.Create?
    case Missed(_) => !r.Create?
    case Found(_) => !r.Create?
    case Stopped => !r.Create?
    case Purged => r.Delete?
    case Finished => !r.Create?
    case Idle => true
    case Failed => true
  }

  ghost predicate PhasesOk(w: World)
  {
    Valid(w) && forall k :: 0 <= k < |w.phases| ==> PhaseOk(w.stores, w.requests[k], w.phases[k])
  }

  lemma ActKeepsPhaseOk(st: Stores, r: Request, p: Phase, a: Action)
    requires PhaseOk(st, r, p)
    ensures |Act(st, r, p, a).0.rs.cores| == |st.rs.cores|
    ensures PhaseOk(Act(st, r, p, a).0, r, Act(st, r, p, a).1)
  {
    if p.Undoing? {
      assert FULL_CHAIN[..1] == [DropGuacamole];
    }
  }

  lemma ApplyKeepsPhasesOk(w: World, s: Step)
    requires PhasesOk(w)
    ensures PhasesOk(Apply(w, s)) && |Apply(w, s).stores.rs.cores| == |w.stores.rs.cores|
  {
    if s.call < |w.phases| {
      hide Act;
      ActKeepsPhaseOk(w.stores, w.requests[s.call], w.phases[s.call], s.action);
    }
  }

  lemma {:induction false} RunKeepsPhasesOk(w: World, steps: seq<Step>)
    requires PhasesOk(w)
    ensures PhasesOk(Exec(w, steps)) && |Exec(w, steps).stores.rs.cores| == |w.stores.rs.cores|
    decreases |steps|
  {
    if steps != [] {
      hide Apply, PhasesOk;
      ApplyKeepsPhasesOk(w, steps[0]);
      RunKeepsPhasesOk(Apply(w, steps[0]), steps[1..]);
    }
  }

  /** An "Add" create can only be addressed if the new VM is already registered: a fresh UUID always fails. */
  lemma AddNeedsOwnRecord(st: Stores, r: Request, core: nat, keyOk: bool, cms: Option<CmsResponse>)
    requires r.Create? && r.subnetType == "Add"
    ensures LookupVM(st.rs, r.uuid).None? ==> Act(st, r, Selected(core), Address(keyOk, cms)) == (st, Failed)
    ensures Act(st, r, Selected(core), Address(keyOk, cms)).1.Addressed? <==>
            keyOk && r.users != [] && cms.Some? &&
            LookupVM(st.rs, r.uuid).Some? && Network.GetSubnetFromIP(LookupVM(st.rs, r.uuid).value.ip).Some?
  {
  }
}

/** A create that fails leaves nothing behind, whatever else was going on. */
module SagaTrace {
  import opened Common
  import opened Resources
  import opened Instances
  import opened Saga
  import G = Guacamole
  import GV = GuacamoleView
  import Index = SagaIndex
  import Ledger = SagaLedger

  /** The run without the steps of the given calls. */
  function Erase(steps: seq<Step>, calls: set<nat>): seq<Step>
    decreases |steps|
  {
    if steps == [] then []
    else if steps[0].call in calls then Erase(steps[1..], calls)
    else [steps[0]] + Erase(steps[1..], calls)
  }

  predicate DistinctCreates(requests: seq<Request>) {
    forall j, k :: 0 <= j < k < |requests| && requests[j].Create? && requests[k].Create? ==>
      requests[j].uuid != requests[k].uuid
  }

  /** The given calls' compensating guacamole.Cleanup calls get to their end. */
  predicate CleanUpsWork(steps: seq<Step>, calls: set<nat>) {
    forall i :: 0 <= i < |steps| && steps[i].call in calls ==> CleanUpWorks(steps[i].action)
  }

  predicate CleanUpWorks(a: Action) { a.Compensate? ==> !StrikesBefore(a.fault, G.CLEANUP_STATEMENTS) }

  // ---------------------------------------------------------------- two worlds side by side

  /** failing: the UUIDs of the creates that are erased; gone: those that are missing in the second world just now;
      tidy: whether the accounts of the failing creates are watched, too. */
  datatype Scope = Scope(gone: set<UUID>, failing: set<UUID>, tidy: bool)

  /** st' is st without what belongs to the VMs that are gone; the free counters are left aside. */
  ghost predicate SameBut(st: Stores, st': Stores, sc: Scope) {
    SameCoresBut(st.rs.cores, st'.rs.cores, sc.gone) &&
    st'.rs.location == st.rs.location && st'.rs.aliveVM == st.rs.aliveVM && st'.tables == st.tables &&
    SameAccountsBut(st.guac, st'.guac, sc) && sc.gone <= sc.failing &&
    forall u :: u in sc.gone ==> u !in st.rs.location && u !in st.tables.info && u !in st.tables.loc
  }

  ghost predicate SameCoresBut(cs: seq<CoreState>, cs': seq<CoreState>, gone: set<UUID>) {
    |cs'| == |cs| && forall i :: 0 <= i < |cs| ==> SameCoreBut(cs[i], cs'[i], gone)
  }

  ghost predicate SameCoreBut(c: CoreState, c': CoreState, gone: set<UUID>) {
    c'.total == c.total && c'.isAlive == c.isAlive && c'.vms == c.vms - gone
  }

  ghost predicate SameAccountsBut(g: G.Db, g': G.Db, sc: Scope) {
    G.Inv(g) && G.Inv(g') && SameViewsBut(GV.View(g), GV.View(g'), sc)
  }

  ghost predicate SameViewsBut(v: GV.Accounts, v': GV.Accounts, sc: Scope) {
    v' - sc.failing == v - sc.failing && (sc.tidy ==> v' == v - sc.gone)
  }

  predicate HasAccount(p: Phase) {
    p.Reachable? || p.Reserved? || p.Accepted? || p.Persisted? || p.Completed? || p.Undoing?
  }

  /** What a create for a fresh UUID has left so far in the cores and, if that is watched, in Guacamole. */
  ghost predicate TraceIs(st: Stores, r: Request, p: Phase, tidy: bool) {
    (forall i :: 0 <= i < |st.rs.cores| ==> (r.uuid in st.rs.cores[i].vms <==> Ledger.HoldsOn(p, i))) &&
    (tidy ==> (r.uuid in GV.View(st.guac) <==> HasAccount(p)))
  }

  predicate Settled(p: Phase) { p.Persisted? || p.Completed? }

  /** A lookup of a VM that was never recorded gets no further than this. */
  predicate FindsNothing(p: Phase) { p.Idle? || p.Asking? || p.Failed? }

  // ---------------------------------------------------------------- steps of the surviving calls

  lemma SurvivorActs(st: Stores, st': Stores, sc: Scope, r: Request, p: Phase, a: Action)
    requires SameBut(st, st', sc) && PhaseOk(st, r, p) && r.uuid !in sc.gone
    ensures Act(st', r, p, a).1 == Act(st, r, p, a).1
    ensures SameBut(Act(st, r, p, a).0, Act(st', r, p, a).0, sc)
  {
    if r.Create? {
      SurvivorCreates(st, st', sc, r, p, a);
    } else {
      SurvivorLooks(st, st', sc, r, p, a);
    }
  }

  lemma SurvivorCreates(st: Stores, st': Stores, sc: Scope, r: Request, p: Phase, a: Action)
    requires SameBut(st, st', sc) && PhaseOk(st, r, p) && r.uuid !in sc.gone && r.Create?
    ensures Act(st', r, p, a).1 == Act(st, r, p, a).1
    ensures SameBut(Act(st, r, p, a).0, Act(st', r, p, a).0, sc)
  {
    hide SameAccountsBut, SameCoresBut, AddressFails, G.AfterCleanup, G.AfterConfigure;
    hide Allocate, Deallocate, Add, AddSucceeds;
    SameLookup(st.rs, st'.rs, sc.gone, r);
    match (p, a)
    case (Addressed(core, ip, mac), Configure(pass, credentials, privateKey, fault)) =>
      var user := if r.users == [] then "" else r.users[0];
      SameConfigure(st.guac, st'.guac, sc, r.uuid, credentials, G.Access(ip, user, privateKey), fault);
    case (Reachable(core, vm), Reserve) => SameAllocate(st.rs, st'.rs, sc.gone, core, vm, r);
    case (Accepted(core, vm), Persist(fault)) => GoneFromTables(st.tables, sc.gone, vm, core, fault);
    case (Undoing(core, chain), Compensate(fault)) =>
      SameCleanup(st.guac, st'.guac, sc, r.uuid, fault);
      SameDeallocate(st.rs, st'.rs, sc.gone, core, r);
    case _ =>
  }

  lemma SurvivorLooks(st: Stores, st': Stores, sc: Scope, r: Request, p: Phase, a: Action)
    requires SameBut(st, st', sc) && PhaseOk(st, r, p) && r.uuid !in sc.gone && !r.Create?
    ensures Act(st', r, p, a).1 == Act(st, r, p, a).1
    ensures SameBut(Act(st, r, p, a).0, Act(st', r, p, a).0, sc)
  {
    hide SameAccountsBut, G.AfterCleanup, Remove;
    match (p, a)
    case (Stopped, Purge(fault)) => GoneAfterRemove(st.tables, sc.gone, r.uuid, fault);
    case (Purged, Drop(fault)) => SameCleanup(st.guac, st'.guac, sc, r.uuid, fault);
    case _ =>
  }

  lemma SameLookup(rs: ResourceState, rs': ResourceState, gone: set<UUID>, r: Request)
    requires SameCoresBut(rs.cores, rs'.cores, gone) && rs'.location == rs.location && r.uuid !in gone
    ensures |rs'.cores| == |rs.cores| && LookupVM(rs', r.uuid) == LookupVM(rs, r.uuid)
    ensures forall keyOk, cms :: r.Create? ==> AddressFails(rs', r, keyOk, cms) == AddressFails(rs, r, keyOk, cms)
  {
    assert r.uuid in rs.location && rs.location[r.uuid] < |rs.cores| ==>
      SameCoreBut(rs.cores[rs.location[r.uuid]], rs'.cores[rs.location[r.uuid]], gone);
  }

  lemma SameAllocate(rs: ResourceState, rs': ResourceState, gone: set<UUID>, core: nat, vm: VMInfo, r: Request)
    requires SameCoresBut(rs.cores, rs'.cores, gone) && r.uuid !in gone && r.Create? && core < |rs.cores|
    ensures |rs'.cores| == |rs.cores|
    ensures SameCoresBut(Allocate(rs, core, r.uuid, vm, r.hw).cores, Allocate(rs', core, r.uuid, vm, r.hw).cores, gone)
    ensures Allocate(rs', core, r.uuid, vm, r.hw).location == rs'.location
    ensures Allocate(rs', core, r.uuid, vm, r.hw).aliveVM == rs'.aliveVM
    ensures Allocate(rs, core, r.uuid, vm, r.hw).location == rs.location
    ensures Allocate(rs, core, r.uuid, vm, r.hw).aliveVM == rs.aliveVM
  {
    assert SameCoreBut(rs.cores[core], rs'.cores[core], gone);
    assert rs.cores[core].vms[r.uuid := vm] - gone == (rs.cores[core].vms - gone)[r.uuid := vm];
  }

  lemma SameDeallocate(rs: ResourceState, rs': ResourceState, gone: set<UUID>, core: nat, r: Request)
    requires SameCoresBut(rs.cores, rs'.cores, gone) && r.Create? && core < |rs.cores|
    ensures |rs'.cores| == |rs.cores|
    ensures SameCoresBut(Deallocate(rs, core, r.uuid, r.hw).cores, Deallocate(rs', core, r.uuid, r.hw).cores, gone)
    ensures Deallocate(rs', core, r.uuid, r.hw).location == rs'.location
    ensures Deallocate(rs', core, r.uuid, r.hw).aliveVM == rs'.aliveVM
    ensures Deallocate(rs, core, r.uuid, r.hw).location == rs.location
    ensures Deallocate(rs, core, r.uuid, r.hw).aliveVM == rs.aliveVM
  {
    assert SameCoreBut(rs.cores[core], rs'.cores[core], gone);
    assert rs.cores[core].vms - {r.uuid} - gone == rs.cores[core].vms - gone - {r.uuid};
  }

  lemma GoneFromTables(t: Tables, gone: set<UUID>, vm: VMInfo, core: nat, fault: Fault)
    requires forall u :: u in gone ==> u !in t.info && u !in t.loc
    ensures vm.uuid !in gone ==>
              forall u :: u in gone ==> u !in Add(t, vm, core, fault).info && u !in Add(t, vm, core, fault).loc
  {
  }

  lemma GoneAfterRemove(t: Tables, gone: set<UUID>, uuid: UUID, fault: Fault)
    requires forall u :: u in gone ==> u !in t.info && u !in t.loc
    ensures forall u :: u in gone ==> u !in Remove(t, uuid, fault).info && u !in Remove(t, uuid, fault).loc
  {
  }

  lemma SameConfigure(g: G.Db, g': G.Db, sc: Scope, u: UUID, credentials: G.Credentials, access: G.Access, fault: Fault)
    requires SameAccountsBut(g, g', sc) && u !in sc.gone
    ensures SameAccountsBut(G.AfterConfigure(g, u, credentials, access, fault),
                            G.AfterConfigure(g', u, credentials, access, fault), sc)
  {
    hide G.Inv, GV.View, SameViewsBut;
    var op := GV.OpConfigure(u, credentials, access, fault);
    GV.ApplyRefines(g, op);
    GV.ApplyRefines(g', op);
    SameViewApply(GV.View(g), GV.View(g'), sc, op);
  }

  lemma SameCleanup(g: G.Db, g': G.Db, sc: Scope, u: UUID, fault: Fault)
    requires SameAccountsBut(g, g', sc) && u !in sc.gone
    ensures SameAccountsBut(G.AfterCleanup(g, u, fault), G.AfterCleanup(g', u, fault), sc)
  {
    hide G.Inv, GV.View, SameViewsBut;
    var op := GV.OpCleanup(u, fault);
    GV.ApplyRefines(g, op);
    GV.ApplyRefines(g', op);
    SameViewApply(GV.View(g), GV.View(g'), sc, op);
  }

  lemma SameViewApply(v: GV.Accounts, v': GV.Accounts, sc: Scope, op: GV.Op)
    requires SameViewsBut(v, v', sc) && op.uuid !in sc.gone
    ensures SameViewsBut(GV.ViewApply(v, op), GV.ViewApply(v', op), sc)
  {
    hide GV.ViewApply;
    ApplyOutside(v, v', sc.failing, op);
    if sc.tidy {
      assert (v - sc.gone) - sc.gone == v - sc.gone;
      ApplyOutside(v, v', sc.gone, op);
      NothingOf(v', sc.gone, op);
    }
  }

  /** An operation works alike on accounts that agree outside some UUIDs. */
  lemma ApplyOutside(v: GV.Accounts, v': GV.Accounts, some: set<UUID>, op: GV.Op)
    requires v' - some == v - some
    ensures GV.ViewApply(v', op) - some == GV.ViewApply(v, op) - some
  {
    var u := op.uuid;
    if u !in some {
      assert u in v <==> u in v - some;
      assert u in v' <==> u in v' - some;
      assert u in v ==> v[u] == (v - some)[u] == (v' - some)[u] == v'[u];
      assert GV.Earlier(v', u) == GV.Earlier(v, u);
      if op.OpConfigure? {
        var account := GV.Account(op.credentials, GV.Earlier(v, u) + [GV.Granted(op.access)]);
        assert v[u := account] - some == (v - some)[u := account];
        assert v'[u := account] - some == (v' - some)[u := account];
      } else {
        assert (v - {u}) - some == (v - some) - {u};
        assert (v' - {u}) - some == (v' - some) - {u};
      }
    } else {
      OwnViewApply(v, some, op);
      OwnViewApply(v', some, op);
    }
  }

  lemma NothingOf(v: GV.Accounts, some: set<UUID>, op: GV.Op)
    requires v - some == v && op.uuid !in some
    ensures GV.ViewApply(v, op) - some == GV.ViewApply(v, op)
  {
    forall u | u in some ensures u !in v {
      assert u !in v - some;
    }
  }

  // ---------------------------------------------------------------- steps of the erased calls

  /** A lookup for a VM that is nowhere recorded finds nothing. */
  lemma LookupFindsNothing(st: Stores, st': Stores, r: Request, p: Phase, a: Action)
    requires !r.Create? && FindsNothing(p)
    requires r.uuid !in st.rs.location && r.uuid !in st.tables.loc
    requires r.uuid !in st'.rs.location && r.uuid !in st'.tables.loc
    ensures Act(st, r, p, a).0 == st && FindsNothing(Act(st, r, p, a).1)
    ensures Act(st', r, p, a) == (st', Act(st, r, p, a).1)
  {
  }

  ghost predicate FailingContext(st: Stores, st': Stores, sc: Scope, r: Request, p: Phase) {
    SameBut(st, st', sc) && PhaseOk(st, r, p) && r.Create? && r.uuid in sc.gone && !Settled(p) &&
    TraceIs(st, r, p, sc.tidy)
  }

  ghost predicate StaysOwn(st: Stores, st': Stores, sc: Scope, r: Request, st1: Stores, p1: Phase) {
    SameBut(st1, st', sc) && TraceIs(st1, r, p1, sc.tidy) && forall u :: u != r.uuid ==> SameTraceOf(st, st1, u)
  }

  /** A step of a create that will fail stays within what belongs to its own VM. */
  lemma FailingActs(st: Stores, st': Stores, sc: Scope, r: Request, p: Phase, a: Action)
    requires FailingContext(st, st', sc, r, p) && !Settled(Act(st, r, p, a).1)
    requires sc.tidy ==> CleanUpWorks(a)
    ensures StaysOwn(st, st', sc, r, Act(st, r, p, a).0, Act(st, r, p, a).1)
  {
    if p.Addressed? && a.Configure? {
      FailingConfigures(st, st', sc, r, p, a);
    } else if p.Reachable? && a.Reserve? {
      FailingReserves(st, st', sc, r, p);
    } else if p.Undoing? && a.Compensate? {
      FailingCompensates(st, st', sc, r, p, a.fault);
    } else {
      FailingWaits(st, st', sc, r, p, a);
    }
  }

  lemma FailingConfigures(st: Stores, st': Stores, sc: Scope, r: Request, p: Phase, a: Action)
    requires FailingContext(st, st', sc, r, p) && p.Addressed? && a.Configure?
    ensures StaysOwn(st, st', sc, r, Act(st, r, p, a).0, Act(st, r, p, a).1)
  {
    hide SameAccountsBut, SameCoresBut, G.AfterConfigure, GV.View;
    var user := if r.users == [] then "" else r.users[0];
    OwnConfigure(st.guac, st'.guac, sc, r.uuid, a.credentials, G.Access(p.ip, user, a.privateKey), a.fault);
  }

  lemma FailingReserves(st: Stores, st': Stores, sc: Scope, r: Request, p: Phase)
    requires FailingContext(st, st', sc, r, p) && p.Reachable?
    ensures StaysOwn(st, st', sc, r, Act(st, r, p, Reserve).0, Act(st, r, p, Reserve).1)
  {
    hide SameAccountsBut, SameCoresBut, Allocate, GV.View;
    OwnAllocate(st.rs, st'.rs, sc.gone, p.core, p.vm, r);
  }

  lemma FailingCompensates(st: Stores, st': Stores, sc: Scope, r: Request, p: Phase, fault: Fault)
    requires FailingContext(st, st', sc, r, p) && p.Undoing? && (sc.tidy ==> CleanUpWorks(Compensate(fault)))
    ensures StaysOwn(st, st', sc, r, Act(st, r, p, Compensate(fault)).0, Act(st, r, p, Compensate(fault)).1)
  {
    hide SameAccountsBut, SameCoresBut, Deallocate, GV.View, G.AfterCleanup;
    if |p.chain| == 1 {
      OwnCleanup(st.guac, st'.guac, sc, r.uuid, fault);
    } else {
      assert p.chain[..1] == [DropGuacamole] && p.chain[1] == ReleaseResources;
      OwnDeallocate(st.rs, st'.rs, sc.gone, p.core, r);
    }
  }

  lemma FailingWaits(st: Stores, st': Stores, sc: Scope, r: Request, p: Phase, a: Action)
    requires FailingContext(st, st', sc, r, p) && !Settled(Act(st, r, p, a).1)
    requires !(p.Addressed? && a.Configure?) && !(p.Reachable? && a.Reserve?) && !(p.Undoing? && a.Compensate?)
    ensures StaysOwn(st, st', sc, r, Act(st, r, p, a).0, Act(st, r, p, a).1)
  {
    hide SameAccountsBut, SameCoresBut, AddressFails, GV.View;
  }

  ghost predicate SameTraceOf(st: Stores, st1: Stores, u: UUID) {
    |st1.rs.cores| == |st.rs.cores| &&
    (forall i :: 0 <= i < |st.rs.cores| ==> (u in st1.rs.cores[i].vms <==> u in st.rs.cores[i].vms)) &&
    (u in GV.View(st1.guac) <==> u in GV.View(st.guac))
  }

  lemma OwnConfigure(g: G.Db, g': G.Db, sc: Scope, u: UUID, credentials: G.Credentials, access: G.Access, fault: Fault)
    requires SameAccountsBut(g, g', sc) && u in sc.gone && sc.gone <= sc.failing
    ensures var g1 := G.AfterConfigure(g, u, credentials, access, fault);
            SameAccountsBut(g1, g', sc) &&
            GV.View(g1).Keys == GV.View(g).Keys + if StrikesBefore(fault, G.CONFIGURE_STATEMENTS) then {} else {u}
  {
    hide G.Inv, GV.View;
    var op := GV.OpConfigure(u, credentials, access, fault);
    GV.ApplyRefines(g, op);
    OwnViewApply(GV.View(g), sc.gone, op);
    OwnViewApply(GV.View(g), sc.failing, op);
  }

  lemma OwnCleanup(g: G.Db, g': G.Db, sc: Scope, u: UUID, fault: Fault)
    requires SameAccountsBut(g, g', sc) && u in sc.gone && sc.gone <= sc.failing
    ensures var g1 := G.AfterCleanup(g, u, fault);
            SameAccountsBut(g1, g', sc) &&
            GV.View(g1).Keys == GV.View(g).Keys - if StrikesBefore(fault, G.CLEANUP_STATEMENTS) then {} else {u}
  {
    hide G.Inv, GV.View;
    var op := GV.OpCleanup(u, fault);
    GV.ApplyRefines(g, op);
    OwnViewApply(GV.View(g), sc.gone, op);
    OwnViewApply(GV.View(g), sc.failing, op);
  }

  lemma OwnViewApply(v: GV.Accounts, gone: set<UUID>, op: GV.Op)
    requires op.uuid in gone
    ensures GV.ViewApply(v, op) - gone == v - gone
  {
  }

  lemma OwnAllocate(rs: ResourceState, rs': ResourceState, gone: set<UUID>, core: nat, vm: VMInfo, r: Request)
    requires SameCoresBut(rs.cores, rs'.cores, gone) && r.uuid in gone && r.Create? && core < |rs.cores|
    ensures var rs1 := Allocate(rs, core, r.uuid, vm, r.hw);
            SameCoresBut(rs1.cores, rs'.cores, gone) && rs1.location == rs.location && rs1.aliveVM == rs.aliveVM &&
            |rs1.cores| == |rs.cores| &&
            forall i, u :: 0 <= i < |rs.cores| ==>
              (u in rs1.cores[i].vms <==> u in rs.cores[i].vms || (i == core && u == r.uuid))
  {
    assert SameCoreBut(rs.cores[core], rs'.cores[core], gone);
    assert rs.cores[core].vms[r.uuid := vm] - gone == rs.cores[core].vms - gone;
  }

  lemma OwnDeallocate(rs: ResourceState, rs': ResourceState, gone: set<UUID>, core: nat, r: Request)
    requires SameCoresBut(rs.cores, rs'.cores, gone) && r.uuid in gone && r.Create? && core < |rs.cores|
    ensures var rs1 := Deallocate(rs, core, r.uuid, r.hw);
            SameCoresBut(rs1.cores, rs'.cores, gone) && rs1.location == rs.location && rs1.aliveVM == rs.aliveVM &&
            |rs1.cores| == |rs.cores| &&
            forall i, u :: 0 <= i < |rs.cores| ==>
              (u in rs1.cores[i].vms <==> u in rs.cores[i].vms && !(i == core && u == r.uuid))
  {
    assert SameCoreBut(rs.cores[core], rs'.cores[core], gone);
    assert rs.cores[core].vms - {r.uuid} - gone == rs.cores[core].vms - gone;
  }

  // ---------------------------------------------------------------- starts and lookups

  /** No record, no location, no row and, if that is watched, no account. */
  ghost predicate Fresh(st: Stores, u: UUID, tidy: bool) {
    u !in st.rs.location && u !in st.tables.info && u !in st.tables.loc &&
    (tidy ==> u !in GV.View(st.guac)) && Clean(st, u)
  }

  ghost predicate Clean(st: Stores, u: UUID) {
    forall i :: 0 <= i < |st.rs.cores| ==> u !in st.rs.cores[i].vms
  }

  predicate Starts(w: World, s: Step)
    requires Valid(w)
  {
    s.call < |w.phases| && w.requests[s.call].Create? && w.phases[s.call].Idle? && s.action.Select?
  }

  ghost predicate NoOtherCreate(w: World, k: nat)
    requires Valid(w) && k < |w.phases|
  {
    forall j :: 0 <= j < |w.phases| && j != k && w.requests[j].Create? && IsActive(w.phases[j]) ==>
      w.requests[j].uuid != w.requests[k].uuid
  }

  /** Creates of one of the given UUIDs do not overlap, and each of them starts when nothing is left of the UUID. */
  ghost predicate FreshStarts(w: World, steps: seq<Step>, uuids: set<UUID>, tidy: bool)
    requires Valid(w)
    decreases |steps|
  {
    steps == [] || (StartsFresh(w, steps[0], uuids, tidy) && FreshStarts(Apply(w, steps[0]), steps[1..], uuids, tidy))
  }

  ghost predicate StartsFresh(w: World, s: Step, uuids: set<UUID>, tidy: bool)
    requires Valid(w)
  {
    Starts(w, s) && w.requests[s.call].uuid in uuids ==>
      Fresh(w.stores, w.requests[s.call].uuid, tidy) && NoOtherCreate(w, s.call)
  }

  /** A lookup that has found something leaves an entry of VMLocation or a row behind. */
  predicate Trail(st: Stores, r: Request, p: Phase) {
    (p.Found? || p.Stopped? || p.Purged? || p.Finished? ==> r.uuid in st.rs.location) &&
    (p.Missed? ==> r.uuid in st.rs.location || r.uuid in st.tables.loc)
  }

  ghost predicate Trails(w: World)
    requires Valid(w)
  {
    forall k :: 0 <= k < |w.phases| ==> Trail(w.stores, w.requests[k], w.phases[k])
  }

  /** No location is ever lost, and a row only if its VM is located. */
  ghost predicate KeepsTrails(st: Stores, st': Stores) {
    (forall u :: u in st.rs.location ==> u in st'.rs.location) &&
    (forall u :: u in st.tables.loc && u !in st'.tables.loc ==> u in st.rs.location)
  }

  lemma ActLeavesTrail(st: Stores, r: Request, p: Phase, a: Action)
    requires PhaseOk(st, r, p) && Trail(st, r, p)
    ensures Trail(Act(st, r, p, a).0, r, Act(st, r, p, a).1) && KeepsTrails(st, Act(st, r, p, a).0)
  {
    hide Act;
    if r.Create? {
      CreateKeepsTrails(st, r, p, a);
      ActKeepsPhaseOk(st, r, p, a);
    } else {
      LookupLeavesTrail(st, r, p, a);
    }
  }

  lemma CreateKeepsTrails(st: Stores, r: Request, p: Phase, a: Action)
    requires r.Create?
    ensures KeepsTrails(st, Act(st, r, p, a).0)
  {
    hide AddressFails, G.AfterCleanup, G.AfterConfigure, AddSucceeds, Charge, Refund;
  }

  lemma LookupLeavesTrail(st: Stores, r: Request, p: Phase, a: Action)
    requires !r.Create? && Trail(st, r, p)
    ensures Trail(Act(st, r, p, a).0, r, Act(st, r, p, a).1) && KeepsTrails(st, Act(st, r, p, a).0)
  {
    hide Act;
    if p.Stopped? && a.Purge? {
      PurgeKeepsTrails(st, r, a);
    } else {
      LookupKeepsRows(st, r, p, a);
    }
  }

  lemma PurgeKeepsTrails(st: Stores, r: Request, a: Action)
    requires !r.Create? && a.Purge? && r.uuid in st.rs.location
    ensures Act(st, r, Stopped, a).0.rs == st.rs && KeepsTrails(st, Act(st, r, Stopped, a).0)
    ensures !Act(st, r, Stopped, a).1.Missed?
  {
  }

  lemma LookupKeepsRows(st: Stores, r: Request, p: Phase, a: Action)
    requires !r.Create? && Trail(st, r, p) && !(p.Stopped? && a.Purge?)
    ensures Trail(Act(st, r, p, a).0, r, Act(st, r, p, a).1)
    ensures Act(st, r, p, a).0.tables == st.tables
    ensures forall u :: u in st.rs.location ==> u in Act(st, r, p, a).0.rs.location
  {
    hide G.AfterCleanup, RemoveFirst, Remove;
  }

  lemma StepLeavesTrails(w: World, s: Step)
    requires PhasesOk(w) && Trails(w)
    ensures Trails(Apply(w, s))
  {
    hide Act, PhaseOk;
    if s.call < |w.phases| {
      assert PhaseOk(w.stores, w.requests[s.call], w.phases[s.call]);
      ActLeavesTrail(w.stores, w.requests[s.call], w.phases[s.call], s.action);
    }
  }

  lemma NoTrailFindsNothing(st: Stores, r: Request, p: Phase)
    requires PhaseOk(st, r, p) && Trail(st, r, p) && !r.Create?
    requires r.uuid !in st.rs.location && r.uuid !in st.tables.loc
    ensures FindsNothing(p)
  {
  }

  /** A call keeps Guacamole sound, and leaves the account of u alone if it is about another VM. */
  lemma ActOnAccounts(st: Stores, r: Request, p: Phase, a: Action, u: UUID)
    requires PhaseOk(st, r, p) && G.Inv(st.guac)
    ensures G.Inv(Act(st, r, p, a).0.guac)
    ensures u != r.uuid ==>
              var g := Act(st, r, p, a).0.guac;
              (u in GV.View(g) <==> u in GV.View(st.guac)) &&
              (u in GV.View(st.guac) ==> GV.View(g)[u] == GV.View(st.guac)[u])
  {
    hide AddressFails, G.AfterCleanup, G.AfterConfigure, GV.View, G.Inv, Add, AddSucceeds, Remove, Allocate, Deallocate;
    match (p, a)
    case (Addressed(core, ip, mac), Configure(pass, credentials, privateKey, fault)) =>
      if r.Create? {
        var user := if r.users == [] then "" else r.users[0];
        GV.ApplyRefines(st.guac, GV.OpConfigure(r.uuid, credentials, G.Access(ip, user, privateKey), fault));
      }
    case (Undoing(core, chain), Compensate(fault)) => GV.ApplyRefines(st.guac, GV.OpCleanup(r.uuid, fault));
    case (Purged, Drop(fault)) => GV.ApplyRefines(st.guac, GV.OpCleanup(r.uuid, fault));
    case _ =>
  }

  lemma OthersKeepTrace(st: Stores, r: Request, p: Phase, a: Action, u: UUID)
    requires PhaseOk(st, r, p) && G.Inv(st.guac) && u != r.uuid
    ensures SameTraceOf(st, Act(st, r, p, a).0, u)
  {
    hide Act, GV.View, G.Inv;
    ActOnAccounts(st, r, p, a, u);
    OthersKeepRecords(st, r, p, a, u);
  }

  lemma OthersKeepRecords(st: Stores, r: Request, p: Phase, a: Action, u: UUID)
    requires PhaseOk(st, r, p) && u != r.uuid
    ensures var cores := Act(st, r, p, a).0.rs.cores;
            |cores| == |st.rs.cores| &&
            forall i :: 0 <= i < |cores| ==> (u in cores[i].vms <==> u in st.rs.cores[i].vms)
  {
    hide AddressFails, G.AfterCleanup, G.AfterConfigure, Add, AddSucceeds, Remove, Charge, Refund, RemoveFirst;
  }

  // ---------------------------------------------------------------- runs

  ghost predicate Simulates(w: World, w': World, erased: set<nat>, sc: Scope) {
    PhasesOk(w) && Valid(w') && w'.requests == w.requests && |w'.phases| == |w.phases| && Trails(w) &&
    SameBut(w.stores, w'.stores, sc) &&
    (forall k :: 0 <= k < |w.phases| ==> PhaseSimulates(w, w', erased, sc, k)) &&
    CreatesApart(w, sc.failing) &&
    (forall u :: u in sc.gone ==> Owned(w, erased, u) || Left(w.stores, u, sc.tidy))
  }

  ghost predicate CreatesApart(w: World, uuids: set<UUID>)
    requires Valid(w)
  {
    forall k :: 0 <= k < |w.phases| && IsActiveCreate(w, k, uuids) ==> NoOtherCreate(w, k)
  }

  predicate IsActiveCreate(w: World, k: nat, uuids: set<UUID>)
    requires Valid(w) && k < |w.phases|
  {
    w.requests[k].Create? && w.requests[k].uuid in uuids && IsActive(w.phases[k])
  }

  ghost predicate PhaseSimulates(w: World, w': World, erased: set<nat>, sc: Scope, k: nat)
    requires Valid(w) && Valid(w') && |w'.phases| == |w.phases| && k < |w.phases|
  {
    var r, p := w.requests[k], w.phases[k];
    if k in erased then
      r.Create? && r.uuid in sc.failing && w'.phases[k] == Idle && !Settled(p) &&
      (IsActive(p) ==> r.uuid in sc.gone && TraceIs(w.stores, r, p, sc.tidy))
    else
      w'.phases[k] == p && (r.uuid in sc.gone ==> if r.Create? then !IsActive(p) else FindsNothing(p))
  }

  /** An erased create of u is under way. */
  ghost predicate Owned(w: World, erased: set<nat>, u: UUID)
    requires Valid(w)
  {
    exists k :: k in erased && IsOwner(w, k, u)
  }

  predicate IsOwner(w: World, k: nat, u: UUID)
    requires Valid(w)
  {
    k < |w.phases| && w.requests[k].uuid == u && IsActive(w.phases[k])
  }

  ghost predicate Left(st: Stores, u: UUID, tidy: bool) {
    Clean(st, u) && (tidy ==> u !in GV.View(st.guac))
  }

  lemma CreateStartsBySelect(st: Stores, r: Request, p: Phase, a: Action)
    requires r.Create?
    ensures p.Idle? && !a.Select? ==> Act(st, r, p, a) == (st, p)
    ensures !p.Idle? && !IsActive(p) ==> Act(st, r, p, a) == (st, p)
    ensures p.Idle? && a.Select? ==>
              Act(st, r, p, a).0 == st && (Act(st, r, p, a).1.Selected? || Act(st, r, p, a).1.Failed?)
  {
    hide AddressFails, G.AfterConfigure, G.AfterCleanup, Add, AddSucceeds, Allocate, Register;
  }

  lemma StepKeepsApart(w: World, s: Step, uuids: set<UUID>, tidy: bool)
    requires Valid(w) && CreatesApart(w, uuids) && StartsFresh(w, s, uuids, tidy)
    ensures CreatesApart(Apply(w, s), uuids)
  {
    hide Act, Fresh;
    if s.call < |w.phases| {
      var c, w' := s.call, Apply(w, s);
      if w.requests[c].Create? {
        CreateStartsBySelect(w.stores, w.requests[c], w.phases[c], s.action);
      }
      assert IsActiveCreate(w', c, uuids) ==> NoOtherCreate(w, c) by {
        assert IsActive(w.phases[c]) && w.requests[c].Create? && w.requests[c].uuid in uuids ==>
          IsActiveCreate(w, c, uuids);
      }
      forall k | 0 <= k < |w'.phases| && IsActiveCreate(w', k, uuids) ensures NoOtherCreate(w', k) {
        if k != c {
          assert IsActiveCreate(w, k, uuids) && NoOtherCreate(w, k);
        }
      }
    }
  }

  // ---------------------------------------------------------------- a UUID comes into the scope and leaves it

  function Widen(sc: Scope, u: UUID): Scope { sc.(gone := sc.gone + {u}) }

  function Narrow(sc: Scope, u: UUID): Scope { sc.(gone := sc.gone - {u}) }

  lemma FreshIsInvisible(st: Stores, st': Stores, sc: Scope, u: UUID)
    requires SameBut(st, st', sc) && Fresh(st, u, sc.tidy) && u in sc.failing
    ensures SameBut(st, st', Widen(sc, u)) && SameBut(st, st', Narrow(sc, u))
  {
    hide GV.View, G.Inv;
    forall i | 0 <= i < |st.rs.cores|
      ensures SameCoreBut(st.rs.cores[i], st'.rs.cores[i], sc.gone + {u})
      ensures SameCoreBut(st.rs.cores[i], st'.rs.cores[i], sc.gone - {u})
    {
      assert SameCoreBut(st.rs.cores[i], st'.rs.cores[i], sc.gone);
      var vms := st.rs.cores[i].vms;
      assert vms - (sc.gone + {u}) == vms - sc.gone == vms - (sc.gone - {u});
    }
    if sc.tidy {
      var v := GV.View(st.guac);
      assert v - (sc.gone + {u}) == v - sc.gone == v - (sc.gone - {u});
    }
  }

  lemma ScopeMoves(w: World, w': World, erased: set<nat>, sc: Scope, k: nat)
    requires Simulates(w, w', erased, sc) && k < |w.phases| && w.requests[k].Create? && w.phases[k].Idle?
    requires w.requests[k].uuid in sc.failing && Fresh(w.stores, w.requests[k].uuid, sc.tidy) && NoOtherCreate(w, k)
    ensures k in erased ==> Simulates(w, w', erased, Widen(sc, w.requests[k].uuid))
    ensures k !in erased ==> Simulates(w, w', erased, Narrow(sc, w.requests[k].uuid))
  {
    hide SameBut, PhaseOk, TraceIs, Trail, Left, Owned;
    var u := w.requests[k].uuid;
    FreshIsInvisible(w.stores, w'.stores, sc, u);
    FreshIsLeft(w.stores, u, sc.tidy);
    var sc' := if k in erased then Widen(sc, u) else Narrow(sc, u);
    forall j | 0 <= j < |w.phases| ensures PhaseSimulates(w, w', erased, sc', j) {
      assert PhaseSimulates(w, w', erased, sc, j);
      if w.requests[j].uuid == u && !w.requests[j].Create? {
        assert Trail(w.stores, w.requests[j], w.phases[j]);
        NoTrailFindsNothing(w.stores, w.requests[j], w.phases[j]);
      }
    }
  }

  lemma FreshIsLeft(st: Stores, u: UUID, tidy: bool)
    requires Fresh(st, u, tidy)
    ensures Left(st, u, tidy)
  {
  }

  // ---------------------------------------------------------------- steps of both kinds of calls

  lemma LeftCarries(st: Stores, st1: Stores, u: UUID, tidy: bool)
    requires Left(st, u, tidy) && (st1 == st || SameTraceOf(st, st1, u))
    ensures Left(st1, u, tidy)
  {
  }

  lemma TraceCarries(st: Stores, st1: Stores, r: Request, p: Phase, tidy: bool)
    requires TraceIs(st, r, p, tidy) && (st1 == st || SameTraceOf(st, st1, r.uuid))
    ensures TraceIs(st1, r, p, tidy)
  {
  }

  lemma TraceEnds(st: Stores, r: Request, p: Phase, tidy: bool)
    requires TraceIs(st, r, p, tidy) && r.Create? && !IsActive(p) && !Settled(p)
    ensures PhaseOk(st, r, p) ==> Left(st, r.uuid, tidy)
  {
  }

  lemma TraceBegins(st: Stores, r: Request, p: Phase, tidy: bool)
    requires Fresh(st, r.uuid, tidy) && (p.Selected? || p.Failed?)
    ensures TraceIs(st, r, p, tidy)
  {
  }

  /** The phases and the stores after a step of call k, seen from the other calls. */
  ghost predicate OthersCarry(w: World, w1: World, sc: Scope, k: nat)
    requires Valid(w) && k < |w.phases|
  {
    Valid(w1) && w1.requests == w.requests && |w1.phases| == |w.phases| &&
    (forall j :: 0 <= j < |w.phases| && j != k ==> w1.phases[j] == w.phases[j]) &&
    forall u :: u in sc.gone && u != w.requests[k].uuid ==> w1.stores == w.stores || SameTraceOf(w.stores, w1.stores, u)
  }

  lemma OwnedOrLeftCarries(w: World, w1: World, erased: set<nat>, sc: Scope, k: nat, u: UUID)
    requires Valid(w) && k < |w.phases| && OthersCarry(w, w1, sc, k) && u in sc.gone && u != w.requests[k].uuid
    requires Owned(w, erased, u) || Left(w.stores, u, sc.tidy)
    ensures Owned(w1, erased, u) || Left(w1.stores, u, sc.tidy)
  {
    hide Left, SameTraceOf;
    if Owned(w, erased, u) {
      var j: nat :| j in erased && IsOwner(w, j, u);
      assert IsOwner(w1, j, u);
    } else {
      LeftCarries(w.stores, w1.stores, u, sc.tidy);
    }
  }

  lemma OtherPhaseCarries(w: World, w': World, w1: World, w1': World, erased: set<nat>, sc: Scope, k: nat, j: nat)
    requires Valid(w) && Valid(w') && |w'.phases| == |w.phases| && k < |w.phases| && j < |w.phases| && j != k
    requires OthersCarry(w, w1, sc, k) && Valid(w1') && |w1'.phases| == |w.phases| && w1'.phases[j] == w'.phases[j]
    requires PhaseSimulates(w, w', erased, sc, j)
    requires j in erased && IsActive(w.phases[j]) ==> w.requests[j].uuid != w.requests[k].uuid
    ensures PhaseSimulates(w1, w1', erased, sc, j)
  {
    hide TraceIs, SameTraceOf;
    if j in erased && IsActive(w.phases[j]) {
      TraceCarries(w.stores, w1.stores, w.requests[j], w.phases[j], sc.tidy);
    }
  }

  /** An erased create that is under way. */
  lemma ErasedActs(w: World, w': World, erased: set<nat>, sc: Scope, s: Step)
    requires Simulates(w, w', erased, sc) && s.call in erased && s.call < |w.phases| && IsActive(w.phases[s.call])
    requires !Settled(Apply(w, s).phases[s.call]) && (sc.tidy ==> CleanUpWorks(s.action))
    requires Trails(Apply(w, s)) && PhasesOk(Apply(w, s)) && CreatesApart(Apply(w, s), sc.failing)
    ensures Simulates(Apply(w, s), w', erased, sc)
  {
    hide Act, PhaseOk, SameBut, TraceIs, SameTraceOf, Trail, Left, Owned, CleanUpWorks;
    var k, w1 := s.call, Apply(w, s);
    var r := w.requests[k];
    assert PhaseSimulates(w, w', erased, sc, k);
    FailingActs(w.stores, w'.stores, sc, r, w.phases[k], s.action);
    assert OthersCarry(w, w1, sc, k);
    assert IsActiveCreate(w, k, sc.failing) && NoOtherCreate(w, k);
    forall j | 0 <= j < |w.phases| ensures PhaseSimulates(w1, w', erased, sc, j) {
      assert PhaseSimulates(w, w', erased, sc, j);
      if j != k {
        OtherPhaseCarries(w, w', w1, w', erased, sc, k, j);
      } else {
        ActiveStaysBegun(w.stores, r, w.phases[k], s.action);
      }
    }
    forall u | u in sc.gone ensures Owned(w1, erased, u) || Left(w1.stores, u, sc.tidy) {
      if u != r.uuid {
        OwnedOrLeftCarries(w, w1, erased, sc, k, u);
      } else {
        OwnerOrLeft(w1, erased, sc, k);
      }
    }
  }

  lemma ActiveStaysBegun(st: Stores, r: Request, p: Phase, a: Action)
    requires !p.Idle?
    ensures !Act(st, r, p, a).1.Idle?
  {
    Index.ActStartsAndEnds(st, r, p, a);
  }

  lemma OwnerOrLeft(w: World, erased: set<nat>, sc: Scope, k: nat)
    requires PhasesOk(w) && k in erased && k < |w.phases| && w.requests[k].Create? && !Settled(w.phases[k])
    requires TraceIs(w.stores, w.requests[k], w.phases[k], sc.tidy)
    ensures Owned(w, erased, w.requests[k].uuid) || Left(w.stores, w.requests[k].uuid, sc.tidy)
  {
    hide TraceIs, Left;
    if IsActive(w.phases[k]) {
      assert IsOwner(w, k, w.requests[k].uuid);
    } else {
      assert PhaseOk(w.stores, w.requests[k], w.phases[k]);
      TraceEnds(w.stores, w.requests[k], w.phases[k], sc.tidy);
    }
  }

  /** An erased create that begins. */
  lemma ErasedBegins(w: World, w': World, erased: set<nat>, sc: Scope, s: Step)
    requires Simulates(w, w', erased, sc) && s.call in erased && Starts(w, s)
    requires w.requests[s.call].uuid in sc.gone && Fresh(w.stores, w.requests[s.call].uuid, sc.tidy)
    requires Trails(Apply(w, s)) && PhasesOk(Apply(w, s)) && CreatesApart(Apply(w, s), sc.failing)
    ensures Simulates(Apply(w, s), w', erased, sc)
  {
    hide Act, PhaseOk, SameBut, TraceIs, SameTraceOf, Trail, Left, Owned, Fresh;
    var k, w1 := s.call, Apply(w, s);
    var r := w.requests[k];
    assert PhaseSimulates(w, w', erased, sc, k);
    CreateStartsBySelect(w.stores, r, w.phases[k], s.action);
    TraceBegins(w1.stores, r, w1.phases[k], sc.tidy);
    FreshIsLeft(w1.stores, r.uuid, sc.tidy);
    forall j | 0 <= j < |w.phases| ensures PhaseSimulates(w1, w', erased, sc, j) {
      assert PhaseSimulates(w, w', erased, sc, j);
    }
    forall u | u in sc.gone ensures Owned(w1, erased, u) || Left(w1.stores, u, sc.tidy) {
      if u != r.uuid {
        OwnedOrLeftCarries(w, w1, erased, sc, k, u);
      }
    }
  }

  /** A call that is kept, if it is not a create that begins although its UUID is gone. */
  lemma KeptActs(w: World, w': World, erased: set<nat>, sc: Scope, s: Step)
    requires Simulates(w, w', erased, sc) && s.call !in erased && s.call < |w.phases|
    requires Starts(w, s) ==> w.requests[s.call].uuid !in sc.gone
    requires Trails(Apply(w, s)) && PhasesOk(Apply(w, s)) && CreatesApart(Apply(w, s), sc.failing)
    ensures Simulates(Apply(w, s), Apply(w', s), erased, sc)
  {
    hide Act, PhaseOk, SameBut, TraceIs, SameTraceOf, Trail, Left, Owned;
    var k, w1, w1' := s.call, Apply(w, s), Apply(w', s);
    var r := w.requests[k];
    assert PhaseSimulates(w, w', erased, sc, k);
    KeptActsAlike(w, w', erased, sc, s);
    forall j | 0 <= j < |w.phases| ensures PhaseSimulates(w1, w1', erased, sc, j) {
      assert PhaseSimulates(w, w', erased, sc, j);
      if j != k {
        assert j in erased && IsActive(w.phases[j]) ==> w.requests[j].uuid in sc.gone;
        if w1.stores == w.stores {
        } else {
          OtherPhaseCarries(w, w', w1, w1', erased, sc, k, j);
        }
      }
    }
    forall u | u in sc.gone ensures Owned(w1, erased, u) || Left(w1.stores, u, sc.tidy) {
      if w1.stores == w.stores && u == r.uuid {
        OwnedOrLeftStays(w, w1, erased, sc, k, u);
      } else {
        OwnedOrLeftCarries(w, w1, erased, sc, k, u);
      }
    }
  }

  lemma OwnedOrLeftStays(w: World, w1: World, erased: set<nat>, sc: Scope, k: nat, u: UUID)
    requires Valid(w) && k < |w.phases| && k !in erased && OthersCarry(w, w1, sc, k) && w1.stores == w.stores
    requires Owned(w, erased, u) || Left(w.stores, u, sc.tidy)
    ensures Owned(w1, erased, u) || Left(w1.stores, u, sc.tidy)
  {
    hide Left, SameTraceOf;
    if Owned(w, erased, u) {
      var j: nat :| j in erased && IsOwner(w, j, u);
      assert IsOwner(w1, j, u);
    }
  }

  lemma KeptActsAlike(w: World, w': World, erased: set<nat>, sc: Scope, s: Step)
    requires Simulates(w, w', erased, sc) && s.call !in erased && s.call < |w.phases|
    requires Starts(w, s) ==> w.requests[s.call].uuid !in sc.gone
    ensures SameBut(Apply(w, s).stores, Apply(w', s).stores, sc)
    ensures OthersCarry(w, Apply(w, s), sc, s.call)
    ensures Apply(w', s).phases[s.call] == Apply(w, s).phases[s.call]
    ensures var r, p1 := w.requests[s.call], Apply(w, s).phases[s.call];
            r.uuid in sc.gone ==>
              Apply(w, s).stores == w.stores && if r.Create? then !IsActive(p1) else FindsNothing(p1)
  {
    hide Act, PhaseOk, SameBut, TraceIs, SameTraceOf, Trail, Left, Owned;
    var k := s.call;
    var r, p := w.requests[k], w.phases[k];
    assert PhaseSimulates(w, w', erased, sc, k);
    if r.uuid !in sc.gone {
      SurvivorActs(w.stores, w'.stores, sc, r, p, s.action);
      SoundIn(w.stores, w'.stores, sc);
      forall u | u in sc.gone ensures SameTraceOf(w.stores, Act(w.stores, r, p, s.action).0, u) {
        OthersKeepTrace(w.stores, r, p, s.action, u);
      }
    } else if r.Create? {
      CreateStartsBySelect(w.stores, r, p, s.action);
      CreateStartsBySelect(w'.stores, r, p, s.action);
    } else {
      SameButGone(w.stores, w'.stores, sc, r.uuid);
      LookupFindsNothing(w.stores, w'.stores, r, p, s.action);
    }
  }

  lemma SoundIn(st: Stores, st': Stores, sc: Scope)
    requires SameBut(st, st', sc)
    ensures G.Inv(st.guac) && G.Inv(st'.guac)
  {
  }

  lemma SameButGone(st: Stores, st': Stores, sc: Scope, u: UUID)
    requires SameBut(st, st', sc) && u in sc.gone
    ensures u !in st.rs.location && u !in st.tables.loc && u !in st'.rs.location && u !in st'.tables.loc
  {
  }

  lemma {:induction false} SettledStays(w: World, steps: seq<Step>, k: nat)
    requires Valid(w) && k < |w.phases| && Settled(w.phases[k]) && w.requests[k].Create?
    ensures Settled(Exec(w, steps).phases[k])
    decreases |steps|
  {
    if steps != [] {
      SettledStays(Apply(w, steps[0]), steps[1..], k);
    }
  }

  /** The UUIDs that are missing in the second world after a step. */
  function NextScope(w: World, s: Step, erased: set<nat>, sc: Scope): Scope
    requires Valid(w)
  {
    if Starts(w, s) && w.requests[s.call].uuid in sc.failing then
      if s.call in erased then Widen(sc, w.requests[s.call].uuid) else Narrow(sc, w.requests[s.call].uuid)
    else sc
  }

  lemma ErasureStep(w: World, w': World, s: Step, erased: set<nat>, sc: Scope)
    requires Simulates(w, w', erased, sc) && StartsFresh(w, s, sc.failing, sc.tidy)
    requires sc.tidy && s.call in erased ==> CleanUpWorks(s.action)
    requires s.call in erased ==> s.call < |w.phases| && !Settled(Apply(w, s).phases[s.call])
    ensures Simulates(Apply(w, s), if s.call in erased then w' else Apply(w', s), erased, NextScope(w, s, erased, sc))
  {
    hide Act, PhaseOk, SameBut, TraceIs, Trail, Left, Owned, Fresh, CleanUpWorks;
    ApplyKeepsPhasesOk(w, s);
    StepLeavesTrails(w, s);
    StepKeepsApart(w, s, sc.failing, sc.tidy);
    if s.call < |w.phases| {
      var k := s.call;
      var sc' := NextScope(w, s, erased, sc);
      assert PhaseSimulates(w, w', erased, sc, k);
      if Starts(w, s) && w.requests[k].uuid in sc.failing {
        ScopeMoves(w, w', erased, sc, k);
      }
      assert Simulates(w, w', erased, sc') && PhaseSimulates(w, w', erased, sc', k);
      if k !in erased {
        if Starts(w, s) {
          NotGoneAtStart(w, w', s, erased, sc);
        }
        KeptActs(w, w', erased, sc', s);
      } else if IsActive(w.phases[k]) {
        ErasedActs(w, w', erased, sc', s);
      } else if Starts(w, s) {
        ErasedBegins(w, w', erased, sc', s);
      } else {
        CreateStartsBySelect(w.stores, w.requests[k], w.phases[k], s.action);
        assert Apply(w, s).phases == w.phases;
      }
    }
  }

  lemma NotGoneAtStart(w: World, w': World, s: Step, erased: set<nat>, sc: Scope)
    requires Simulates(w, w', erased, sc) && s.call !in erased && Starts(w, s)
    ensures w.requests[s.call].uuid !in NextScope(w, s, erased, sc).gone
  {
    hide PhaseOk, TraceIs, Trail, Left, Owned, SameAccountsBut, SameCoresBut;
  }

  lemma {:induction false} ErasureSimulates(w: World, w': World, steps: seq<Step>, erased: set<nat>, sc: Scope)
    returns (sc': Scope)
    requires Simulates(w, w', erased, sc) && FreshStarts(w, steps, sc.failing, sc.tidy)
    requires sc.tidy ==> CleanUpsWork(steps, erased)
    requires forall k :: k in erased ==> k < |w.phases| && w.requests[k].Create? && !Settled(Exec(w, steps).phases[k])
    ensures Simulates(Exec(w, steps), Exec(w', Erase(steps, erased)), erased, sc')
    ensures sc'.failing == sc.failing && sc'.tidy == sc.tidy
    decreases |steps|
  {
    if steps == [] {
      sc' := sc;
    } else {
      hide Simulates, Apply, StartsFresh, Starts, CleanUpWorks;
      var s := steps[0];
      var w1 := Apply(w, s);
      var sc1 := NextScope(w, s, erased, sc);
      ErasureBegins(w, w', steps, erased, sc);
      if s.call in erased {
        sc' := ErasureSimulates(w1, w', steps[1..], erased, sc1);
      } else {
        assert ([s] + Erase(steps[1..], erased))[1..] == Erase(steps[1..], erased);
        sc' := ErasureSimulates(w1, Apply(w', s), steps[1..], erased, sc1);
      }
    }
  }

  /** The first step of a run. */
  lemma ErasureBegins(w: World, w': World, steps: seq<Step>, erased: set<nat>, sc: Scope)
    requires Simulates(w, w', erased, sc) && steps != [] && StartsFresh(w, steps[0], sc.failing, sc.tidy)
    requires sc.tidy ==> CleanUpsWork(steps, erased)
    requires forall k :: k in erased ==> k < |w.phases| && w.requests[k].Create? && !Settled(Exec(w, steps).phases[k])
    ensures Valid(w) && Valid(w')
    ensures var s, sc1 := steps[0], NextScope(w, steps[0], erased, sc);
            Simulates(Apply(w, s), if s.call in erased then w' else Apply(w', s), erased, sc1) &&
            sc1.failing == sc.failing && sc1.tidy == sc.tidy && (sc.tidy ==> CleanUpsWork(steps[1..], erased))
  {
    hide Simulates, Act, StartsFresh, Starts, CleanUpWorks, Settled;
    var s := steps[0];
    ValidOfSimulates(w, w', erased, sc);
    NotYetSettled(w, steps, erased);
    assert s.call in erased && sc.tidy ==> CleanUpWorks(steps[0].action);
    ErasureStep(w, w', s, erased, sc);
  }

  lemma NotYetSettled(w: World, steps: seq<Step>, erased: set<nat>)
    requires Valid(w) && steps != []
    requires forall k :: k in erased ==> k < |w.phases| && w.requests[k].Create? && !Settled(Exec(w, steps).phases[k])
    ensures forall k :: k in erased ==> !Settled(Apply(w, steps[0]).phases[k])
  {
    hide Apply, Settled;
    forall k | k in erased ensures !Settled(Apply(w, steps[0]).phases[k]) {
      if Settled(Apply(w, steps[0]).phases[k]) {
        SettledStays(Apply(w, steps[0]), steps[1..], k);
        assert false;
      }
    }
  }

  lemma ValidOfSimulates(w: World, w': World, erased: set<nat>, sc: Scope)
    requires Simulates(w, w', erased, sc)
    ensures Valid(w) && Valid(w')
  {
  }

  function UuidsOf(w: World, calls: set<nat>): set<UUID>
    requires Valid(w) && forall k :: k in calls ==> k < |w.phases|
  {
    set k | k in calls :: w.requests[k].uuid
  }

  /** Aborted sagas leave no trace: in any interleaving of creates, deletes, shutdowns and lookups, with any failures,
      erase the steps of any creates that have failed and been rolled back. The cores with their counters and records,
      the locations, the list of running VMs, the instance tables and the phases of all other calls are the same, and
      so are the accounts of all other VMs. Creates of one of the erased UUIDs, retries included, must not overlap and
      must each start when nothing is left of the UUID; what they leave in Guacamole is watched if tidy. Then, if the
      erased creates' guacamole.Cleanup calls work, the whole Guacamole database is the same, too, up to renamed ids.
      */
  lemma AbortedSagasLeaveNoTrace(w: World, steps: seq<Step>, failed: set<nat>, tidy: bool)
    returns (full: World, reduced: World, re: map<G.Id, G.Id>, rc: map<G.Id, G.Id>)
    requires AllIdle(w) && G.Inv(w.stores.guac)
    requires forall k :: k in failed ==>
               k < |w.phases| && w.requests[k].Create? && Exec(w, steps).phases[k] == Failed
    requires FreshStarts(w, steps, UuidsOf(w, failed), tidy)
    requires tidy ==> CleanUpsWork(steps, failed)
    ensures full == Exec(w, steps) && reduced == Exec(w, Erase(steps, failed))
    ensures reduced.stores.rs == full.stores.rs && reduced.stores.tables == full.stores.tables
    ensures GV.View(reduced.stores.guac) - UuidsOf(w, failed) == GV.View(full.stores.guac) - UuidsOf(w, failed)
    ensures tidy ==> GV.IsRenaming(full.stores.guac.rows, reduced.stores.guac.rows, re, rc)
    ensures forall k :: 0 <= k < |w.phases| ==>
              reduced.phases[k] == if k in failed then Idle else full.phases[k]
  {
    hide GV.IsRenaming, GV.View, G.Inv, FreshStarts;
    full, reduced := Exec(w, steps), Exec(w, Erase(steps, failed));
    var sc := Scope({}, UuidsOf(w, failed), tidy);
    StartSimulates(w, failed, sc);
    var sc' := ErasureSimulates(w, w, steps, failed, sc);
    hide Exec, Simulates;
    NothingLeft(full, reduced, failed, sc');
    SameFree(w, steps, failed);
    if tidy {
      re, rc := GV.SameViewIsRenaming(full.stores.guac, reduced.stores.guac);
    } else {
      re, rc := map[], map[];
    }
  }

  lemma StartSimulates(w: World, failed: set<nat>, sc: Scope)
    requires AllIdle(w) && G.Inv(w.stores.guac) && sc.gone == {}
    requires forall k :: k in failed ==> k < |w.phases| && w.requests[k].Create? && w.requests[k].uuid in sc.failing
    ensures Simulates(w, w, failed, sc)
  {
    hide GV.View, G.Inv;
    assert GV.View(w.stores.guac) - {} == GV.View(w.stores.guac);
    forall i | 0 <= i < |w.stores.rs.cores| ensures w.stores.rs.cores[i].vms - {} == w.stores.rs.cores[i].vms {
    }
  }

  lemma NothingLeft(w: World, w': World, failed: set<nat>, sc: Scope)
    requires Simulates(w, w', failed, sc)
    requires forall k :: k in failed ==> k < |w.phases| && w.phases[k] == Failed
    ensures |w'.stores.rs.cores| == |w.stores.rs.cores|
    ensures forall i :: 0 <= i < |w.stores.rs.cores| ==>
              w'.stores.rs.cores[i].(free := w.stores.rs.cores[i].free) == w.stores.rs.cores[i]
    ensures w'.stores.rs.location == w.stores.rs.location && w'.stores.rs.aliveVM == w.stores.rs.aliveVM
    ensures w'.stores.tables == w.stores.tables
    ensures G.Inv(w.stores.guac) && G.Inv(w'.stores.guac)
    ensures GV.View(w'.stores.guac) - sc.failing == GV.View(w.stores.guac) - sc.failing
    ensures sc.tidy ==> GV.View(w'.stores.guac) == GV.View(w.stores.guac)
    ensures |w'.phases| == |w.phases|
    ensures forall k :: 0 <= k < |w.phases| ==> w'.phases[k] == if k in failed then Idle else w.phases[k]
  {
    hide GV.View, G.Inv, PhaseOk, Trail;
    forall u | u in sc.gone ensures Left(w.stores, u, sc.tidy) {
      assert !Owned(w, failed, u);
    }
    if sc.tidy {
      assert GV.View(w.stores.guac) - sc.gone == GV.View(w.stores.guac);
    }
    forall i | 0 <= i < |w.stores.rs.cores|
      ensures w'.stores.rs.cores[i].(free := w.stores.rs.cores[i].free) == w.stores.rs.cores[i]
    {
      assert SameCoreBut(w.stores.rs.cores[i], w'.stores.rs.cores[i], sc.gone);
      assert w.stores.rs.cores[i].vms - sc.gone == w.stores.rs.cores[i].vms;
    }
    forall k | 0 <= k < |w.phases| ensures w'.phases[k] == if k in failed then Idle else w.phases[k] {
      assert PhaseSimulates(w, w', failed, sc, k);
    }
  }

  // ---------------------------------------------------------------- UUIDs used once

  /** The creates that have not begun find nothing of their UUIDs, and lookups of these find nothing either. */
  ghost predicate Untouched(w: World)
    requires Valid(w)
  {
    (forall k :: 0 <= k < |w.phases| && w.requests[k].Create? && w.phases[k].Idle? ==>
       Fresh(w.stores, w.requests[k].uuid, true)) &&
    forall j, k ::
      0 <= j < |w.phases| && 0 <= k < |w.phases| && IsLookupOf(w.requests[j], w.requests[k]) && w.phases[k].Idle? ==>
      FindsNothing(w.phases[j])
  }

  predicate IsLookupOf(r: Request, create: Request) { !r.Create? && create.Create? && r.uuid == create.uuid }

  lemma FreshStays(st: Stores, r: Request, p: Phase, a: Action, u: UUID)
    requires PhaseOk(st, r, p) && G.Inv(st.guac) && Fresh(st, u, true)
    requires u == r.uuid ==> !r.Create? && FindsNothing(p)
    ensures Fresh(Act(st, r, p, a).0, u, true)
    ensures u == r.uuid ==> FindsNothing(Act(st, r, p, a).1)
  {
    hide Act, GV.View, G.Inv;
    if u == r.uuid {
      LookupFindsNothing(st, st, r, p, a);
    } else {
      Index.ActIsLocal(st, r, p, a, u);
      OthersKeepTrace(st, r, p, a, u);
    }
  }

  lemma UntouchedStays(w: World, s: Step)
    requires PhasesOk(w) && G.Inv(w.stores.guac) && DistinctCreates(w.requests) && Untouched(w)
    ensures Untouched(Apply(w, s))
  {
    hide Act, PhaseOk, Fresh, FindsNothing, G.Inv;
    if s.call < |w.phases| {
      var c, w' := s.call, Apply(w, s);
      var r, p := w.requests[c], w.phases[c];
      forall k | 0 <= k < |w.phases| && w.requests[k].Create? && w'.phases[k].Idle?
        ensures Fresh(w'.stores, w.requests[k].uuid, true)
        ensures IsLookupOf(r, w.requests[k]) ==> FindsNothing(w'.phases[c])
        ensures w.phases[k].Idle?
      {
        if k == c {
          if !p.Idle? {
            ActiveStaysBegun(w.stores, r, p, s.action);
          }
          Index.ActStartsAndEnds(w.stores, r, p, s.action);
        } else {
          FreshStays(w.stores, r, p, s.action, w.requests[k].uuid);
        }
      }
    }
  }

  /** Creates with distinct UUIDs that are fresh at the beginning of a run are fresh when they start. */
  lemma {:induction false} DistinctCreatesStartFresh(w: World, steps: seq<Step>, uuids: set<UUID>, tidy: bool)
    requires PhasesOk(w) && G.Inv(w.stores.guac) && DistinctCreates(w.requests) && Untouched(w)
    ensures FreshStarts(w, steps, uuids, tidy)
    decreases |steps|
  {
    if steps != [] {
      hide Apply, PhaseOk, G.Inv, DistinctCreates, Untouched, StartsFresh;
      var s := steps[0];
      UntouchedStartsFresh(w, s, uuids, tidy);
      ApplyKeepsPhasesOk(w, s);
      StepKeepsSound(w, s);
      UntouchedStays(w, s);
      DistinctCreatesStartFresh(Apply(w, s), steps[1..], uuids, tidy);
    }
  }

  lemma UntouchedStartsFresh(w: World, s: Step, uuids: set<UUID>, tidy: bool)
    requires Valid(w) && DistinctCreates(w.requests) && Untouched(w)
    ensures StartsFresh(w, s, uuids, tidy)
  {
  }

  lemma StepKeepsSound(w: World, s: Step)
    requires PhasesOk(w) && G.Inv(w.stores.guac)
    ensures G.Inv(Apply(w, s).stores.guac)
  {
    hide Act, PhaseOk, G.Inv;
    if s.call < |w.phases| {
      assert PhaseOk(w.stores, w.requests[s.call], w.phases[s.call]);
      ActOnAccounts(w.stores, w.requests[s.call], w.phases[s.call], s.action, "");
    }
  }

  /** So no trace is left either in any interleaving of creates with distinct UUIDs that are fresh at the beginning. */
  lemma NoTraceOfDistinctCreates(w: World, steps: seq<Step>, failed: set<nat>, tidy: bool)
    returns (full: World, reduced: World, re: map<G.Id, G.Id>, rc: map<G.Id, G.Id>)
    requires AllIdle(w) && DistinctCreates(w.requests) && G.Inv(w.stores.guac)
    requires forall k :: 0 <= k < |w.requests| && w.requests[k].Create? ==> Fresh(w.stores, w.requests[k].uuid, true)
    requires forall k :: k in failed ==>
               k < |w.phases| && w.requests[k].Create? && Exec(w, steps).phases[k] == Failed
    requires tidy ==> CleanUpsWork(steps, failed)
    ensures full == Exec(w, steps) && reduced == Exec(w, Erase(steps, failed))
    ensures reduced.stores.rs == full.stores.rs && reduced.stores.tables == full.stores.tables
    ensures tidy ==> GV.IsRenaming(full.stores.guac.rows, reduced.stores.guac.rows, re, rc)
  {
    hide Exec, GV.IsRenaming, GV.View, G.Inv, Fresh;
    DistinctCreatesStartFresh(w, steps, UuidsOf(w, failed), tidy);
    hide FreshStarts;
    full, reduced, re, rc := AbortedSagasLeaveNoTrace(w, steps, failed, tidy);
  }

  /** The counters agree because both ledgers balance. */
  lemma SameFree(w: World, steps: seq<Step>, failed: set<nat>)
    requires AllIdle(w)
    requires forall k :: k in failed ==> k < |w.phases| && Exec(w, steps).phases[k] == Failed
    requires var full, reduced := Exec(w, steps), Exec(w, Erase(steps, failed));
             |reduced.phases| == |full.phases| && |reduced.stores.rs.cores| == |full.stores.rs.cores| &&
             forall k :: 0 <= k < |full.phases| ==> reduced.phases[k] == if k in failed then Idle else full.phases[k]
    ensures var full, reduced := Exec(w, steps), Exec(w, Erase(steps, failed));
            forall i :: 0 <= i < |full.stores.rs.cores| ==>
              reduced.stores.rs.cores[i].free == full.stores.rs.cores[i].free
  {
    var full, reduced := Exec(w, steps), Exec(w, Erase(steps, failed));
    var start := w.stores.rs.cores;
    Ledger.StartConserved(w);
    Ledger.Conservation(w, steps, start);
    Ledger.Conservation(w, Erase(steps, failed), start);
    hide Exec, PhasesOk, Ledger.Conserved;
    forall i | 0 <= i < |full.stores.rs.cores|
      ensures reduced.stores.rs.cores[i].free == full.stores.rs.cores[i].free
    {
      forall kind: Kind
        ensures Get(reduced.stores.rs.cores[i].free, kind) == Get(full.stores.rs.cores[i].free, kind)
      {
        SameHeld(full.requests, full.phases, reduced.phases, i, kind);
        SameBalance(full, reduced, start, i, kind);
      }
      SameAmounts(reduced.stores.rs.cores[i].free, full.stores.rs.cores[i].free);
    }
  }

  lemma SameBalance(w: World, w': World, start: seq<CoreState>, i: nat, kind: Kind)
    requires Valid(w) && Valid(w') && Ledger.Conserved(w, start) && Ledger.Conserved(w', start) && i < |start|
    requires Ledger.HeldIn(w, i, kind) == Ledger.HeldIn(w', i, kind)
    ensures Get(w'.stores.rs.cores[i].free, kind) == Get(w.stores.rs.cores[i].free, kind)
  {
    assert Ledger.FreeOf(w.stores, i, kind) == Ledger.FreeOf(w'.stores, i, kind);
  }

  lemma SameAmounts(a: Amounts, b: Amounts)
    requires forall kind: Kind :: Get(a, kind) == Get(b, kind)
    ensures a == b
  {
    assert Get(a, Memory) == Get(b, Memory) && Get(a, Cpu) == Get(b, Cpu) && Get(a, Disk) == Get(b, Disk);
  }

  lemma {:induction false} SameHeld(requests: seq<Request>, p: seq<Phase>, q: seq<Phase>, i: nat, kind: Kind)
    requires |requests| == |p| == |q|
    requires forall k :: 0 <= k < |p| ==> q[k] == p[k] || (p[k] == Failed && q[k] == Idle)
    ensures Ledger.Held(requests, p, i, kind) == Ledger.Held(requests, q, i, kind)
    decreases |p|
  {
    if p != [] {
      var n := |p| - 1;
      SameHeld(requests[..n], p[..n], q[..n], i, kind);
    }
  }
}

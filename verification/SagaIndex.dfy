/** The in-memory index and the instance tables describe the same VMs. */
module SagaIndex {
  import opened Common
  import opened Resources
  import opened Instances
  import opened Saga
  import G = Guacamole

  // ---------------------------------------------------------------- agreement about one VM

  /** The core's record of u is the one in inst_info. */
  predicate RecordAgrees(st: Stores, u: UUID, core: int) {
    0 <= core < |st.rs.cores| && u in st.rs.cores[core].vms && u in st.tables.info &&
    st.rs.cores[core].vms[u].uuid == u && RowOf(st.rs.cores[core].vms[u]) == st.tables.info[u]
  }

  /** cached says whether every persisted VM has to be in VMLocation. */
  predicate Agrees(st: Stores, u: UUID, cached: bool) {
    (u in st.tables.info <==> u in st.tables.loc) &&
    (u in st.tables.loc ==>
       RecordAgrees(st, u, st.tables.loc[u]) &&
       (cached ==> u in st.rs.location) &&
       (u in st.rs.location ==> st.rs.location[u] == st.tables.loc[u]))
  }

  predicate Unrecorded(t: Tables, u: UUID) { u !in t.info && u !in t.loc }

  /** What holds about a call's VM while it is the only call about that VM. */
  predicate CallAgrees(st: Stores, r: Request, p: Phase, cached: bool) {
    match p
    case Selected(_) => Unrecorded(st.tables, r.uuid)
    case Addressed(_, _, _) => Unrecorded(st.tables, r.uuid)
    case Reachable(_, _) => Unrecorded(st.tables, r.uuid)
    case Undoing(_, _) => Unrecorded(st.tables, r.uuid)
    case Reserved(core, vm) => Unrecorded(st.tables, r.uuid) && HasRecord(st, r.uuid, core, vm)
    case Accepted(core, vm) => Unrecorded(st.tables, r.uuid) && HasRecord(st, r.uuid, core, vm)
    case Persisted(core, vm) =>
      r.uuid in st.tables.loc && st.tables.loc[r.uuid] == core && RecordAgrees(st, r.uuid, core)
    case Missed(index) => Agrees(st, r.uuid, cached) && r.uuid in st.tables.loc && st.tables.loc[r.uuid] == index
    case _ => Agrees(st, r.uuid, cached)
  }

  predicate HasRecord(st: Stores, u: UUID, core: nat, vm: VMInfo) {
    core < |st.rs.cores| && u in st.rs.cores[core].vms && st.rs.cores[core].vms[u] == vm
  }

  /** Everything the stores hold about u, other than in Guacamole, is the same. */
  ghost predicate SameEntries(st: Stores, st': Stores, u: UUID) {
    |st'.rs.cores| == |st.rs.cores| &&
    (forall i :: 0 <= i < |st.rs.cores| ==> SameRecord(st.rs.cores[i].vms, st'.rs.cores[i].vms, u)) &&
    (u in st'.rs.location <==> u in st.rs.location) &&
    (u in st.rs.location ==> st'.rs.location[u] == st.rs.location[u]) &&
    (u in st'.tables.info <==> u in st.tables.info) && (u in st'.tables.loc <==> u in st.tables.loc) &&
    (u in st.tables.info ==> st'.tables.info[u] == st.tables.info[u]) &&
    (u in st.tables.loc ==> st'.tables.loc[u] == st.tables.loc[u])
  }

  predicate SameRecord(vms: map<UUID, VMInfo>, vms': map<UUID, VMInfo>, u: UUID) {
    (u in vms' <==> u in vms) && (u in vms ==> vms'[u] == vms[u])
  }

  /** A call touches nothing but the entries of its own VM. */
  lemma ActIsLocal(st: Stores, r: Request, p: Phase, a: Action, u: UUID)
    requires PhaseOk(st, r, p) && u != r.uuid
    ensures SameEntries(st, Act(st, r, p, a).0, u)
  {
    hide AddressFails, G.AfterConfigure, G.AfterCleanup;
  }

  lemma SameEntriesAgree(st: Stores, st': Stores, r: Request, p: Phase, u: UUID, cached: bool)
    requires SameEntries(st, st', u)
    ensures Agrees(st', u, cached) == Agrees(st, u, cached)
    ensures r.uuid == u && CallAgrees(st, r, p, cached) ==> CallAgrees(st', r, p, cached)
  {
    assert u in st.tables.loc && 0 <= st.tables.loc[u] < |st.rs.cores| ==>
      SameRecord(st.rs.cores[st.tables.loc[u]].vms, st'.rs.cores[st.tables.loc[u]].vms, u);
  }

  /** A call keeps the agreement about its own VM, provided a create starts without a stored VM of that name. */
  lemma ActAgrees(st: Stores, r: Request, p: Phase, a: Action, cached: bool)
    requires PhaseOk(st, r, p) && CallAgrees(st, r, p, cached)
    requires p.Idle? && r.Create? ==> r.uuid !in st.tables.loc
    ensures CallAgrees(Act(st, r, p, a).0, r, Act(st, r, p, a).1, cached)
  {
    hide AddressFails, G.AfterConfigure, G.AfterCleanup;
    if r.Create? {
      CreateAgrees(st, r, p, a, cached);
    } else if p.Missed? {
      FillAgrees(st, r, p, a, cached);
    } else {
      LookupAgrees(st, r, p, a, cached);
    }
  }

  lemma CreateAgrees(st: Stores, r: Request, p: Phase, a: Action, cached: bool)
    requires PhaseOk(st, r, p) && CallAgrees(st, r, p, cached) && r.Create?
    requires p.Idle? ==> r.uuid !in st.tables.loc
    ensures CallAgrees(Act(st, r, p, a).0, r, Act(st, r, p, a).1, cached)
  {
    hide AddressFails, G.AfterConfigure, G.AfterCleanup;
  }

  lemma FillAgrees(st: Stores, r: Request, p: Phase, a: Action, cached: bool)
    requires PhaseOk(st, r, p) && CallAgrees(st, r, p, cached) && p.Missed?
    ensures CallAgrees(Act(st, r, p, a).0, r, Act(st, r, p, a).1, cached)
  {
    hide AddressFails, G.AfterConfigure, G.AfterCleanup, Allocate, Deallocate, Register, Add, Remove;
  }

  lemma LookupAgrees(st: Stores, r: Request, p: Phase, a: Action, cached: bool)
    requires PhaseOk(st, r, p) && CallAgrees(st, r, p, cached) && !r.Create? && !p.Missed?
    ensures CallAgrees(Act(st, r, p, a).0, r, Act(st, r, p, a).1, cached)
  {
    hide AddressFails, G.AfterConfigure, G.AfterCleanup, Allocate, Deallocate, Register, Add, RemoveFirst;
  }

  /** A finished call does nothing more, and a call that has not begun has done nothing. */
  lemma ActStartsAndEnds(st: Stores, r: Request, p: Phase, a: Action)
    ensures !p.Idle? && !IsActive(p) ==> Act(st, r, p, a) == (st, p)
    ensures p.Idle? && Act(st, r, p, a).1.Idle? ==> Act(st, r, p, a).0 == st
    ensures !p.Idle? ==> !Act(st, r, p, a).1.Idle?
  {
    hide AddressFails, G.AfterConfigure, G.AfterCleanup, Add, Remove, Allocate, Deallocate;
  }

  // ---------------------------------------------------------------- agreement in every run

  /** No call about u is under way. */
  ghost predicate Quiet(w: World, u: UUID)
    requires Valid(w)
  {
    forall k :: 0 <= k < |w.phases| && IsActive(w.phases[k]) ==> w.requests[k].uuid != u
  }

  ghost predicate OthersQuiet(w: World, k: nat)
    requires Valid(w) && k < |w.phases|
  {
    forall j :: 0 <= j < |w.phases| && j != k && IsActive(w.phases[j]) ==> w.requests[j].uuid != w.requests[k].uuid
  }

  /** Calls about one VM do not overlap, and a create is made for a VM that is not stored.
      Calls about different VMs interleave freely. */
  ghost predicate OneAtATime(w: World, steps: seq<Step>)
    requires Valid(w)
    decreases |steps|
  {
    steps == [] || (MayStep(w, steps[0]) && OneAtATime(Apply(w, steps[0]), steps[1..]))
  }

  ghost predicate MayStep(w: World, s: Step)
    requires Valid(w)
  {
    s.call < |w.phases| && w.phases[s.call].Idle? ==>
      OthersQuiet(w, s.call) && (w.requests[s.call].Create? ==> w.requests[s.call].uuid !in w.stores.tables.loc)
  }

  ghost predicate Exclusive(w: World)
    requires Valid(w)
  {
    forall k :: 0 <= k < |w.phases| && IsActive(w.phases[k]) ==> OthersQuiet(w, k)
  }

  ghost predicate CallsAgree(w: World, cached: bool)
    requires Valid(w)
  {
    forall k :: 0 <= k < |w.phases| && IsActive(w.phases[k]) ==>
      CallAgrees(w.stores, w.requests[k], w.phases[k], cached)
  }

  ghost predicate RestAgrees(w: World, cached: bool)
    requires Valid(w)
  {
    forall u :: Quiet(w, u) ==> Agrees(w.stores, u, cached)
  }

  ghost predicate Agreement(w: World, cached: bool) {
    PhasesOk(w) && Exclusive(w) && CallsAgree(w, cached) && RestAgrees(w, cached)
  }

  lemma StepAgrees(w: World, s: Step, cached: bool)
    requires Agreement(w, cached) && MayStep(w, s)
    ensures Agreement(Apply(w, s), cached)
  {
    hide Act, PhaseOk, Agrees, CallAgrees, SameEntries;
    if s.call < |w.phases| {
      var k := s.call;
      var r, p := w.requests[k], w.phases[k];
      var (st', p') := Act(w.stores, r, p, s.action);
      ApplyKeepsPhasesOk(w, s);
      ActStartsAndEnds(w.stores, r, p, s.action);
      if p' == p && st' == w.stores {
        assert w.phases[k := p] == w.phases;
      } else if p.Idle? || IsActive(p) {
        OwnStepAgrees(w, s, cached);
      }
    }
  }

  lemma OwnStepAgrees(w: World, s: Step, cached: bool)
    requires Agreement(w, cached) && MayStep(w, s) && s.call < |w.phases|
    requires w.phases[s.call].Idle? || IsActive(w.phases[s.call])
    requires PhasesOk(Apply(w, s))
    ensures Agreement(Apply(w, s), cached)
  {
    hide Act, PhaseOk, Agrees, CallAgrees, SameEntries;
    var k := s.call;
    var r, p := w.requests[k], w.phases[k];
    var (st', p') := Act(w.stores, r, p, s.action);
    var w' := Apply(w, s);
    assert OthersQuiet(w, k);
    if p.Idle? {
      assert Quiet(w, r.uuid);
      IdleAgrees(w.stores, r, p, cached);
    }
    ActAgrees(w.stores, r, p, s.action, cached);
    OthersStayQuiet(w, s);
    forall j | 0 <= j < |w'.phases| && IsActive(w'.phases[j])
      ensures CallAgrees(w'.stores, w'.requests[j], w'.phases[j], cached)
    {
      if j != k {
        ActIsLocal(w.stores, r, p, s.action, w.requests[j].uuid);
        SameEntriesAgree(w.stores, st', w.requests[j], w.phases[j], w.requests[j].uuid, cached);
      }
    }
    forall u | Quiet(w', u) ensures Agrees(w'.stores, u, cached) {
      if u == r.uuid {
        EndedAgrees(st', r, p', cached);
      } else {
        assert Quiet(w, u);
        ActIsLocal(w.stores, r, p, s.action, u);
        SameEntriesAgree(w.stores, st', r, p, u, cached);
      }
    }
  }

  lemma IdleAgrees(st: Stores, r: Request, p: Phase, cached: bool)
    requires p.Idle? && Agrees(st, r.uuid, cached)
    ensures CallAgrees(st, r, p, cached)
  {
  }

  lemma EndedAgrees(st: Stores, r: Request, p: Phase, cached: bool)
    requires !IsActive(p) && CallAgrees(st, r, p, cached)
    ensures Agrees(st, r.uuid, cached)
  {
  }

  lemma OthersStayQuiet(w: World, s: Step)
    requires Valid(w) && Exclusive(w) && s.call < |w.phases| && OthersQuiet(w, s.call)
    ensures Exclusive(Apply(w, s))
  {
    hide Act;
    var w' := Apply(w, s);
    forall k | 0 <= k < |w'.phases| && IsActive(w'.phases[k]) ensures OthersQuiet(w', k) {
      assert k != s.call ==> OthersQuiet(w, k);
    }
  }

  lemma QuietAgrees(w: World, u: UUID, cached: bool)
    requires Agreement(w, cached) && Quiet(w, u)
    ensures Agrees(w.stores, u, cached)
  {
  }

  lemma StartAgrees(w: World, cached: bool)
    requires AllIdle(w) && forall u :: Agrees(w.stores, u, cached)
    ensures Agreement(w, cached)
  {
  }

  /** The agreement survives every run in which calls about one VM do not overlap, with any failures: VMs may be
      created, deleted and created again under the same name, and calls about different VMs interleave freely. */
  lemma {:induction false} AgreementStays(w: World, steps: seq<Step>, cached: bool)
    requires Agreement(w, cached) && OneAtATime(w, steps)
    ensures Agreement(Exec(w, steps), cached)
    decreases |steps|
  {
    if steps != [] {
      hide Agreement, MayStep, Apply;
      StepAgrees(w, steps[0], cached);
      AgreementStays(Apply(w, steps[0]), steps[1..], cached);
    }
  }

  /** So, when no call about u is under way, u is stored in both tables or in neither, and if it is stored then
      VMLocation and VMInfoIdx have the core and the record that the tables have. */
  lemma IndexAgreesWithTables(w: World, steps: seq<Step>, u: UUID, cached: bool)
    requires AllIdle(w) && (forall v :: Agrees(w.stores, v, cached)) && OneAtATime(w, steps)
    requires Quiet(Exec(w, steps), u)
    ensures var st := Exec(w, steps).stores;
            (u in st.tables.info <==> u in st.tables.loc) &&
            (u in st.tables.loc ==>
               0 <= st.tables.loc[u] < |st.rs.cores| &&
               u in st.rs.cores[st.tables.loc[u]].vms &&
               RowOf(st.rs.cores[st.tables.loc[u]].vms[u]) == st.tables.info[u] &&
               (u in st.rs.location ==> st.rs.location[u] == st.tables.loc[u])) &&
            (cached && u in st.tables.loc ==>
               LookupVM(st.rs, u) == Some(st.rs.cores[st.tables.loc[u]].vms[u]))
  {
    StartAgrees(w, cached);
    AgreementStays(w, steps, cached);
    hide Exec, PhasesOk, Exclusive, CallsAgree, Quiet;
    assert Agrees(Exec(w, steps).stores, u, cached);
  }

  // ---------------------------------------------------------------- lookups

  /** The answer of an uninterrupted FindCoreByVmUUID. */
  function FindCore(st: Stores, u: UUID, fault: Fault): Option<nat> {
    if u in st.rs.location then Some(st.rs.location[u])
    else if StrikesBefore(fault, 3) || u !in st.tables.loc then None
    else if 0 <= st.tables.loc[u] < |st.rs.cores| then Some(st.tables.loc[u])
    else None
  }

  function AfterFind(st: Stores, u: UUID, fault: Fault): Stores {
    if u !in st.rs.location && FindCore(st, u, fault).Some? then
      st.(rs := CacheLocation(st.rs, u, FindCore(st, u, fault).value))
    else st
  }

  // ---------------------------------------------------------------- a create for a VM that is stored

  /** Why a create must be for a VM that is not stored: if the core refuses it, the compensation takes away the VM's
      Guacamole account if the cleanup works, whichever core was chosen, and the core's record of the stored VM exactly
      if that VM is on the chosen core. The tables still have the VM. */
  lemma RefusedCreateLosesStoredVM(w: World, k: nat, core: nat, vm: VMInfo, fault: Fault, drop: Fault, cached: bool)
    requires PhasesOk(w) && k < |w.phases| && w.phases[k] == Reserved(core, vm)
    requires w.requests[k].uuid in w.stores.tables.loc
    requires w.stores.tables.loc[w.requests[k].uuid] != core ==> Agrees(w.stores, w.requests[k].uuid, cached)
    ensures var w1 := Apply(Apply(w, Step(k, CoreReply(false))), Step(k, Compensate(fault)));
            var w' := Apply(w1, Step(k, Compensate(drop)));
            var u := w.requests[k].uuid;
            w'.phases[k] == Failed && w'.stores.tables == w.stores.tables &&
            u !in w'.stores.rs.cores[core].vms &&
            (u in w'.stores.guac.rows.entity <==>
               u in w.stores.guac.rows.entity && StrikesBefore(drop, G.CLEANUP_STATEMENTS)) &&
            (Agrees(w'.stores, u, cached) <==> w.stores.tables.loc[u] != core)
  {
    hide Agrees;
    var r := w.requests[k];
    var st := w.stores;
    assert PhaseOk(st, r, w.phases[k]);
    var w1 := Apply(w, Step(k, CoreReply(false)));
    assert w1 == World(st, w.requests, w.phases[k := Undoing(core, FULL_CHAIN)]);
    var released := st.(rs := Deallocate(st.rs, core, r.uuid, r.hw));
    var w2 := Apply(w1, Step(k, Compensate(fault)));
    assert FULL_CHAIN[..1] == [DropGuacamole];
    assert w2 == World(released, w.requests, w.phases[k := Undoing(core, [DropGuacamole])]);
    var cleaned := released.(guac := G.AfterCleanup(st.guac, r.uuid, drop));
    assert Apply(w2, Step(k, Compensate(drop))) == World(cleaned, w.requests, w.phases[k := Failed]);
    CleanupDropsEntity(st.guac, r.uuid, drop);
    ReleasedRecord(st, cleaned, r, core, cached);
  }

  lemma CleanupDropsEntity(g: G.Db, u: UUID, drop: Fault)
    ensures u in G.AfterCleanup(g, u, drop).rows.entity <==>
            u in g.rows.entity && StrikesBefore(drop, G.CLEANUP_STATEMENTS)
  {
  }

  lemma ReleasedRecord(st: Stores, st': Stores, r: Request, core: nat, cached: bool)
    requires r.Create? && core < |st.rs.cores| && r.uuid in st.tables.loc
    requires st.tables.loc[r.uuid] != core ==> Agrees(st, r.uuid, cached)
    requires st'.tables == st.tables && st'.rs == Deallocate(st.rs, core, r.uuid, r.hw)
    ensures r.uuid !in st'.rs.cores[core].vms
    ensures Agrees(st', r.uuid, cached) <==> st.tables.loc[r.uuid] != core
  {
  }
}

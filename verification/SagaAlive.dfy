/** The list of running VMs, in any interleaving of calls. */
module SagaAlive {
  import opened Common
  import opened Resources
  import opened Saga
  import opened SagaTrace
  import G = Guacamole
  import Instances
  import Index = SagaIndex

  // ---------------------------------------------------------------- where the record of a created VM is

  /** What the index and the tables know of the VM of a create whose UUID is used once. */
  predicate Tracks(st: Stores, r: Request, p: Phase) {
    match p
    case Reserved(core, vm) => Unseen(st, r.uuid) && Index.HasRecord(st, r.uuid, core, vm)
    case Accepted(core, vm) => Unseen(st, r.uuid) && Index.HasRecord(st, r.uuid, core, vm)
    case Persisted(core, vm) => Index.HasRecord(st, r.uuid, core, vm) && OnlyAt(st, r.uuid, core)
    case Completed(core, vm) =>
      Index.HasRecord(st, r.uuid, core, vm) && OnlyAt(st, r.uuid, core) && r.uuid in st.rs.location
    case _ => Unseen(st, r.uuid)
  }

  predicate Unseen(st: Stores, u: UUID) { u !in st.rs.location && u !in st.tables.loc }

  predicate OnlyAt(st: Stores, u: UUID, core: nat) {
    (u in st.rs.location ==> st.rs.location[u] == core) && (u in st.tables.loc ==> st.tables.loc[u] == core)
  }

  /** A lookup that has asked the tables got the core of the create. */
  predicate Follows(lookup: Phase, create: Phase) {
    lookup.Missed? ==> Settled(create) && create.core == lookup.index
  }

  ghost predicate CreatesTracked(w: World)
    requires Valid(w)
  {
    forall j :: 0 <= j < |w.phases| && w.requests[j].Create? ==> Tracks(w.stores, w.requests[j], w.phases[j])
  }

  ghost predicate LookupsFollow(w: World)
    requires Valid(w)
  {
    forall k, j :: 0 <= k < |w.phases| && 0 <= j < |w.phases| && IsLookupOf(w.requests[k], w.requests[j]) ==>
      Follows(w.phases[k], w.phases[j])
  }

  lemma CreateTracks(st: Stores, r: Request, p: Phase, a: Action)
    requires PhaseOk(st, r, p) && r.Create? && Tracks(st, r, p)
    ensures Tracks(Act(st, r, p, a).0, r, Act(st, r, p, a).1)
    ensures Settled(p) ==> Settled(Act(st, r, p, a).1) && Act(st, r, p, a).1.core == p.core
  {
    hide AddressFails, G.AfterConfigure, G.AfterCleanup;
  }

  /** A lookup writes no location but the one that the tables gave it, and adds nothing to the tables. */
  lemma LookupWrites(st: Stores, r: Request, p: Phase, a: Action)
    requires !r.Create?
    ensures var rs' := Act(st, r, p, a).0.rs;
            rs'.cores == st.rs.cores &&
            rs'.location ==
              if p.Missed? && a.Fill? && 0 <= p.index < |st.rs.cores| then st.rs.location[r.uuid := p.index]
              else st.rs.location
    ensures forall u :: u in Act(st, r, p, a).0.tables.loc ==>
              u in st.tables.loc && Act(st, r, p, a).0.tables.loc[u] == st.tables.loc[u]
    ensures Act(st, r, p, a).1.Missed? && !p.Missed? ==>
              r.uuid in st.tables.loc && Act(st, r, p, a).1.index == st.tables.loc[r.uuid]
    ensures Act(st, r, p, a).1.Missed? && p.Missed? ==> Act(st, r, p, a).1 == p
  {
    hide G.AfterCleanup, RemoveFirst;
  }

  lemma LookupTracks(st: Stores, r: Request, p: Phase, a: Action, create: Request, q: Phase)
    requires IsLookupOf(r, create) && Tracks(st, create, q) && Follows(p, q)
    ensures Tracks(Act(st, r, p, a).0, create, q) && Follows(Act(st, r, p, a).1, q)
  {
    hide Act;
    LookupWrites(st, r, p, a);
  }

  lemma OthersTrack(st: Stores, st': Stores, r: Request, p: Phase)
    requires Tracks(st, r, p) && Index.SameEntries(st, st', r.uuid)
    ensures Tracks(st', r, p)
  {
  }

  lemma StepTracks(w: World, s: Step)
    requires PhasesOk(w) && CreatesTracked(w) && LookupsFollow(w) && DistinctCreates(w.requests)
    ensures CreatesTracked(Apply(w, s))
  {
    hide Act, PhaseOk, Tracks, Index.SameEntries, Follows;
    if s.call < |w.phases| {
      var r, p := w.requests[s.call], w.phases[s.call];
      var (st', p') := Act(w.stores, r, p, s.action);
      forall j | 0 <= j < |w.phases| && w.requests[j].Create?
        ensures Tracks(st', w.requests[j], w.phases[s.call := p'][j])
      {
        if j == s.call {
          CreateTracks(w.stores, r, p, s.action);
        } else if w.requests[j].uuid == r.uuid {
          LookupTracks(w.stores, r, p, s.action, w.requests[j], w.phases[j]);
        } else {
          Index.ActIsLocal(w.stores, r, p, s.action, w.requests[j].uuid);
          OthersTrack(w.stores, st', w.requests[j], w.phases[j]);
        }
      }
    }
  }

  lemma StepFollows(w: World, s: Step)
    requires PhasesOk(w) && CreatesTracked(w) && LookupsFollow(w)
    ensures LookupsFollow(Apply(w, s))
  {
    hide Act, PhaseOk, Tracks;
    if s.call < |w.phases| {
      var r, p := w.requests[s.call], w.phases[s.call];
      var (st', p') := Act(w.stores, r, p, s.action);
      var phases := w.phases[s.call := p'];
      forall k, j | 0 <= k < |w.phases| && 0 <= j < |w.phases| && IsLookupOf(w.requests[k], w.requests[j])
        ensures Follows(phases[k], phases[j])
      {
        assert Follows(w.phases[k], w.phases[j]);
        if k == s.call {
          LookupTracks(w.stores, r, p, s.action, w.requests[j], w.phases[j]);
        } else if j == s.call {
          CreateTracks(w.stores, r, p, s.action);
        }
      }
    }
  }

  // ---------------------------------------------------------------- the list of running VMs

  ghost predicate Owns(w: World, j: nat, vm: VMInfo)
    requires Valid(w)
  {
    j < |w.phases| && w.phases[j].Completed? && w.phases[j].vm == vm
  }

  /** Every listed VM is one that a create completed, and no UUID is listed twice. */
  ghost predicate AliveOwned(w: World)
    requires Valid(w)
  {
    DistinctUUIDs(w.stores.rs.aliveVM) && forall vm :: vm in w.stores.rs.aliveVM ==> exists j: nat :: Owns(w, j, vm)
  }

  ghost predicate NoShutdownOf(w: World, u: UUID)
    requires Valid(w)
  {
    forall k :: 0 <= k < |w.phases| && w.requests[k].Shutdown? && w.phases[k].Finished? ==> w.requests[k].uuid != u
  }

  /** Every completed VM is listed unless a shutdown of it has finished. */
  ghost predicate CompletedListed(w: World)
    requires Valid(w)
  {
    forall j :: 0 <= j < |w.phases| && w.phases[j].Completed? && NoShutdownOf(w, w.requests[j].uuid) ==>
      w.phases[j].vm in w.stores.rs.aliveVM
  }

  predicate Registers(p: Phase, a: Action) { p.Persisted? && a.RegisterNew? }

  predicate Unregisters(r: Request, p: Phase, a: Action) { r.Shutdown? && p.Stopped? && a.UnregisterStopped? }

  lemma ActOnAlive(st: Stores, r: Request, p: Phase, a: Action)
    requires PhaseOk(st, r, p)
    ensures Act(st, r, p, a).0.rs.aliveVM ==
            if Registers(p, a) then st.rs.aliveVM + [p.vm]
            else if Unregisters(r, p, a) then RemoveFirst(st.rs.aliveVM, r.uuid)
            else st.rs.aliveVM
    ensures p.Completed? ==> Act(st, r, p, a).1 == p
    ensures p.Finished? ==> Act(st, r, p, a).1 == p
    ensures Act(st, r, p, a).1.Completed? && !p.Completed? ==> Registers(p, a) && Act(st, r, p, a).1.vm == p.vm
    ensures Registers(p, a) ==> Act(st, r, p, a).1.Completed? && Act(st, r, p, a).1.vm == p.vm
    ensures Unregisters(r, p, a) ==> Act(st, r, p, a).1.Finished?
  {
    hide AddressFails, G.AfterConfigure, G.AfterCleanup, Instances.Add, Instances.AddSucceeds, Instances.Remove;
    hide RemoveFirst, Charge, Refund;
  }

  lemma StepOwns(w: World, s: Step)
    requires PhasesOk(w) && DistinctCreates(w.requests) && AliveOwned(w)
    ensures AliveOwned(Apply(w, s))
  {
    hide Act;
    if s.call < |w.phases| {
      var k := s.call;
      var r, p := w.requests[k], w.phases[k];
      var w' := Apply(w, s);
      var alive := w.stores.rs.aliveVM;
      ActOnAlive(w.stores, r, p, s.action);
      forall vm, j: nat | Owns(w, j, vm) ensures Owns(w', j, vm) {
      }
      if Registers(p, s.action) {
        assert Owns(w', k, p.vm);
        NewIsUnlisted(w, k);
      } else if Unregisters(r, p, s.action) {
        RemoveFirstRemovesExactly(alive, r.uuid);
      }
    }
  }

  lemma NewIsUnlisted(w: World, k: nat)
    requires PhasesOk(w) && DistinctCreates(w.requests) && AliveOwned(w)
    requires k < |w.phases| && w.phases[k].Persisted?
    ensures forall vm :: vm in w.stores.rs.aliveVM ==> vm.uuid != w.phases[k].vm.uuid
  {
    forall vm | vm in w.stores.rs.aliveVM ensures vm.uuid != w.phases[k].vm.uuid {
      var j: nat :| Owns(w, j, vm);
      assert PhaseOk(w.stores, w.requests[j], w.phases[j]) && PhaseOk(w.stores, w.requests[k], w.phases[k]);
    }
  }

  lemma StepLists(w: World, s: Step)
    requires PhasesOk(w) && AliveOwned(w) && CompletedListed(w)
    ensures CompletedListed(Apply(w, s))
  {
    hide Act;
    if s.call < |w.phases| {
      var k := s.call;
      var r, p := w.requests[k], w.phases[k];
      var w' := Apply(w, s);
      ActOnAlive(w.stores, r, p, s.action);
      forall j | 0 <= j < |w'.phases| && w'.phases[j].Completed? && NoShutdownOf(w', w'.requests[j].uuid)
        ensures w'.phases[j].vm in w'.stores.rs.aliveVM
      {
        if j == k && !p.Completed? {
          assert Registers(p, s.action);
        } else {
          assert NoShutdownOf(w, w.requests[j].uuid);
          if Unregisters(r, p, s.action) {
            assert PhaseOk(w.stores, w.requests[j], w.phases[j]);
            assert w'.phases[k].Finished?;
            RemoveFirstRemovesExactly(w.stores.rs.aliveVM, r.uuid);
          }
        }
      }
    }
  }

  // ---------------------------------------------------------------- every run

  ghost predicate AliveInv(w: World) {
    PhasesOk(w) && DistinctCreates(w.requests) &&
    CreatesTracked(w) && LookupsFollow(w) && AliveOwned(w) && CompletedListed(w)
  }

  lemma {:induction false} RunKeepsAliveInv(w: World, steps: seq<Step>)
    requires AliveInv(w)
    ensures AliveInv(Exec(w, steps))
    decreases |steps|
  {
    if steps != [] {
      hide Apply, PhasesOk, CreatesTracked, LookupsFollow, AliveOwned, CompletedListed;
      var s := steps[0];
      ApplyKeepsPhasesOk(w, s);
      StepTracks(w, s);
      StepFollows(w, s);
      StepOwns(w, s);
      StepLists(w, s);
      RunKeepsAliveInv(Apply(w, s), steps[1..]);
    }
  }

  /** The record a step registers, if any. */
  function Registered(w: World, s: Step): seq<VMInfo>
    requires Valid(w)
  {
    if s.call < |w.phases| && Registers(w.phases[s.call], s.action) then [w.phases[s.call].vm] else []
  }

  /** The records in the order in which the run registers them. */
  function Registrations(w: World, steps: seq<Step>): seq<VMInfo>
    requires Valid(w)
    decreases |steps|
  {
    if steps == [] then [] else Registered(w, steps[0]) + Registrations(Apply(w, steps[0]), steps[1..])
  }

  lemma {:induction false} SubsequenceConcat(a: seq<VMInfo>, b: seq<VMInfo>, c: seq<VMInfo>)
    requires IsSubsequence(a, b)
    ensures IsSubsequence(a + c, b + c)
    decreases |c|
  {
    if c == [] {
      assert a + c == a && b + c == b;
    } else {
      SubsequenceAppend(a, b, c[0]);
      SubsequenceConcat(a + [c[0]], b + [c[0]], c[1..]);
      assert a + [c[0]] + c[1..] == a + c && b + [c[0]] + c[1..] == b + c;
    }
  }

  lemma StepOrder(w: World, s: Step)
    requires PhasesOk(w)
    ensures IsSubsequence(Apply(w, s).stores.rs.aliveVM, w.stores.rs.aliveVM + Registered(w, s))
  {
    hide Act, IsSubsequence, RemoveFirst;
    var alive := w.stores.rs.aliveVM;
    assert alive + [] == alive;
    SubsequenceRefl(alive + Registered(w, s));
    if s.call < |w.phases| {
      ActOnAlive(w.stores, w.requests[s.call], w.phases[s.call], s.action);
      RemoveFirstIsSubsequence(alive, w.requests[s.call].uuid);
    }
  }

  lemma {:induction false} RegistrationOrder(w: World, steps: seq<Step>)
    requires PhasesOk(w)
    ensures IsSubsequence(Exec(w, steps).stores.rs.aliveVM, w.stores.rs.aliveVM + Registrations(w, steps))
    decreases |steps|
  {
    hide PhaseOk, Apply, IsSubsequence, Registered;
    var alive := w.stores.rs.aliveVM;
    if steps == [] {
      SubsequenceRefl(alive);
      assert alive + [] == alive;
    } else {
      var w1 := Apply(w, steps[0]);
      var now, rest := Registered(w, steps[0]), Registrations(w1, steps[1..]);
      ApplyKeepsPhasesOk(w, steps[0]);
      RegistrationOrder(w1, steps[1..]);
      StepOrder(w, steps[0]);
      SubsequenceConcat(w1.stores.rs.aliveVM, alive + now, rest);
      assert alive + now + rest == alive + (now + rest);
      SubsequenceTrans(Exec(w, steps).stores.rs.aliveVM, w1.stores.rs.aliveVM + rest, alive + (now + rest));
    }
  }

  /** In any interleaving of creates with UUIDs used once, shutdowns, deletes and lookups, starting with no running VM:
      the list of running VMs has no UUID twice, keeps the order of registration, and each of its records is the very
      record that VMLocation and VMInfoIdx lead to. A completed VM is on the list until a shutdown of it finishes. */
  lemma AliveListIsFaithful(w: World, steps: seq<Step>)
    requires AllIdle(w) && DistinctCreates(w.requests) && w.stores.rs.aliveVM == []
    requires forall k :: 0 <= k < |w.requests| && w.requests[k].Create? ==> Unseen(w.stores, w.requests[k].uuid)
    ensures var w' := Exec(w, steps);
            DistinctUUIDs(w'.stores.rs.aliveVM) &&
            IsSubsequence(w'.stores.rs.aliveVM, Registrations(w, steps)) &&
            (forall vm :: vm in w'.stores.rs.aliveVM ==> LookupVM(w'.stores.rs, vm.uuid) == Some(vm)) &&
            (forall j :: 0 <= j < |w'.phases| && w'.phases[j].Completed? && NoShutdownOf(w', w'.requests[j].uuid) ==>
               w'.phases[j].vm in w'.stores.rs.aliveVM)
  {
    hide Exec, Registrations, IsSubsequence;
    assert AliveInv(w);
    RunKeepsAliveInv(w, steps);
    RegistrationOrder(w, steps);
    assert [] + Registrations(w, steps) == Registrations(w, steps);
    var w' := Exec(w, steps);
    forall vm | vm in w'.stores.rs.aliveVM ensures LookupVM(w'.stores.rs, vm.uuid) == Some(vm) {
      var j: nat :| Owns(w', j, vm);
      assert PhaseOk(w'.stores, w'.requests[j], w'.phases[j]);
      assert Tracks(w'.stores, w'.requests[j], w'.phases[j]);
    }
  }

  // ---------------------------------------------------------------- "Add" creates

  predicate GetsNowhere(p: Phase) { p.Idle? || p.Selected? || p.Failed? }

  ghost predicate AddsStuck(w: World)
    requires Valid(w)
  {
    forall j :: 0 <= j < |w.phases| && w.requests[j].Create? && w.requests[j].subnetType == "Add" ==>
      GetsNowhere(w.phases[j])
  }

  lemma AddGetsNowhere(st: Stores, r: Request, p: Phase, a: Action)
    requires r.Create? && r.subnetType == "Add" && GetsNowhere(p) && Tracks(st, r, p)
    ensures GetsNowhere(Act(st, r, p, a).1)
  {
  }

  lemma {:induction false} AddsStayStuck(w: World, steps: seq<Step>)
    requires AliveInv(w) && AddsStuck(w)
    ensures AddsStuck(Exec(w, steps))
    decreases |steps|
  {
    if steps != [] {
      hide Act, PhaseOk, PhasesOk, Tracks, LookupsFollow, AliveOwned, CompletedListed, GetsNowhere;
      var s := steps[0];
      if s.call < |w.phases| && w.requests[s.call].Create? && w.requests[s.call].subnetType == "Add" {
        AddGetsNowhere(w.stores, w.requests[s.call], w.phases[s.call], s.action);
      }
      assert Exec(w, [s]) == Apply(w, s) by { SingleStep(w, s); }
      RunKeepsAliveInv(w, [s]);
      AddsStayStuck(Apply(w, s), steps[1..]);
    }
  }

  lemma SingleStep(w: World, s: Step)
    requires Valid(w)
    ensures Exec(w, [s]) == Apply(w, s)
  {
    hide Apply;
    assert [s][1..] == [];
    assert Exec(Apply(w, s), []) == Apply(w, s);
  }

  /** In no run does an "Add" create for a new UUID get an address: it fails once its core is selected. */
  lemma AddNeverGetsAnAddress(w: World, steps: seq<Step>, j: nat)
    requires AllIdle(w) && DistinctCreates(w.requests) && w.stores.rs.aliveVM == []
    requires forall k :: 0 <= k < |w.requests| && w.requests[k].Create? ==> Unseen(w.stores, w.requests[k].uuid)
    requires j < |w.phases| && w.requests[j].Create? && w.requests[j].subnetType == "Add"
    ensures GetsNowhere(Exec(w, steps).phases[j])
  {
    hide Exec;
    assert AliveInv(w);
    AddsStayStuck(w, steps);
  }
}

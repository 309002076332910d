/** A create that succeeds is everywhere it has to be, until its VM is deleted. */
module SagaSuccess {
  import opened Common
  import opened Resources
  import opened Instances
  import opened Saga
  import opened SagaAnswers
  import opened SagaTrace
  import G = Guacamole
  import GV = GuacamoleView
  import Alive = SagaAlive
  import Index = SagaIndex

  /** Over the newest connection of u's account its first user logs in to the address with the private key. */
  predicate Reaches(g: G.Db, u: UUID, ip: string, user: string, secrets: Secrets) {
    u in GV.View(g) && LeadsTo(GV.View(g)[u], ip, user, secrets)
  }

  predicate LeadsTo(account: GV.Account, ip: string, user: string, secrets: Secrets) {
    var n := |account.connections|;
    account.credentials == secrets.credentials && n > 0 &&
    account.connections[n - 1] ==
      map["hostname" := ip, "port" := "22", "username" := user, "private-key" := secrets.privateKey]
  }

  predicate Stored(t: Tables, u: UUID, core: nat, vm: VMInfo) {
    u in t.info && t.info[u] == Row(vm.ip, vm.guacPassword, vm.hw) && u in t.loc && t.loc[u] == core
  }

  /** What a create has achieved by the time it is in a phase. */
  predicate Achieved(st: Stores, r: Request, p: Phase, g: Given) {
    Carries(r, p, g) &&
    match p
    case Reachable(_, vm) => IsReachable(st.guac, r, vm, g)
    case Reserved(core, vm) => IsReachable(st.guac, r, vm, g) && Index.HasRecord(st, r.uuid, core, vm)
    case Accepted(core, vm) => IsReachable(st.guac, r, vm, g) && Index.HasRecord(st, r.uuid, core, vm)
    case Persisted(core, vm) => Everywhere(st, r, core, vm, g)
    case Completed(core, vm) => Everywhere(st, r, core, vm, g)
    case _ => true
  }

  predicate IsReachable(g: G.Db, r: Request, vm: VMInfo, given: Given) {
    r.Create? && r.users != [] && given.secrets.Some? && Reaches(g, r.uuid, vm.ip, r.users[0], given.secrets.value)
  }

  predicate Everywhere(st: Stores, r: Request, core: nat, vm: VMInfo, g: Given) {
    IsReachable(st.guac, r, vm, g) && Index.HasRecord(st, r.uuid, core, vm) && Stored(st.tables, r.uuid, core, vm)
  }

  predicate HasDeleted(r: Request, p: Phase) { r.Delete? && (p.Purged? || p.Finished?) }

  ghost predicate NoDeleteOf(w: World, u: UUID)
    requires Valid(w)
  {
    forall k :: 0 <= k < |w.phases| && HasDeleted(w.requests[k], w.phases[k]) ==> w.requests[k].uuid != u
  }

  ghost predicate HasAchieved(w: World, j: nat, g: Given)
    requires Valid(w)
  {
    j < |w.phases| && w.requests[j].Create? && Carries(w.requests[j], w.phases[j], g) &&
    (NoDeleteOf(w, w.requests[j].uuid) ==> Achieved(w.stores, w.requests[j], w.phases[j], g))
  }

  lemma ConfigureReaches(g: G.Db, u: UUID, access: G.Access, secrets: Secrets, fault: Fault)
    requires G.Inv(g) && !StrikesBefore(fault, G.CONFIGURE_STATEMENTS) && access.privateKey == secrets.privateKey
    ensures Reaches(G.AfterConfigure(g, u, secrets.credentials, access, fault), u,
                    access.hostname, access.username, secrets)
  {
    hide GV.View, G.Inv;
    GV.ApplyRefines(g, GV.OpConfigure(u, secrets.credentials, access, fault));
    GV.GrantedIs(access);
  }

  lemma CreateAchieves(st: Stores, r: Request, p: Phase, a: Action, g: Given)
    requires PhaseOk(st, r, p) && r.Create? && Achieved(st, r, p, g) && G.Inv(st.guac)
    ensures Achieved(Act(st, r, p, a).0, r, Act(st, r, p, a).1, Note(p, a, g))
  {
    hide Reaches, G.Inv, G.AfterConfigure, G.AfterCleanup, AddressFails, Carries;
    ActCarries(st, r, p, a, g);
    if p.Addressed? && a.Configure? && !StrikesBefore(a.fault, G.CONFIGURE_STATEMENTS) {
      AddressedHasUser(r, p, g);
      var secrets := Secrets(a.pass, a.credentials, a.privateKey);
      ConfigureReaches(st.guac, r.uuid, G.Access(p.ip, r.users[0], a.privateKey), secrets, a.fault);
    }
  }

  lemma AddressedHasUser(r: Request, p: Phase, g: Given)
    requires r.Create? && p.Addressed? && Carries(r, p, g)
    ensures r.users != []
  {
  }

  /** A call that is no create takes nothing away unless it is a delete that got through to the tables. */
  lemma LookupTakesNothing(st: Stores, r: Request, p: Phase, a: Action)
    requires PhaseOk(st, r, p) && !r.Create?
    ensures Act(st, r, p, a).0.rs.cores == st.rs.cores
    ensures !HasDeleted(r, Act(st, r, p, a).1) ==>
              Act(st, r, p, a).0.tables == st.tables && Act(st, r, p, a).0.guac == st.guac
    ensures HasDeleted(r, p) ==> HasDeleted(r, Act(st, r, p, a).1)
  {
    hide G.AfterCleanup, RemoveFirst;
  }

  lemma AchievedCarries(st: Stores, st': Stores, r: Request, p: Phase, g: Given)
    requires Achieved(st, r, p, g) && |st'.rs.cores| == |st.rs.cores|
    requires Index.SameEntries(st, st', r.uuid) ||
             (st'.rs.cores == st.rs.cores && st'.tables == st.tables)
    requires r.uuid in GV.View(st.guac) ==>
               r.uuid in GV.View(st'.guac) && GV.View(st'.guac)[r.uuid] == GV.View(st.guac)[r.uuid]
    ensures Achieved(st', r, p, g)
  {
    hide GV.View, Carries;
  }

  lemma StepAchieves(w: World, s: Step, j: nat, g: Given)
    requires PhasesOk(w) && DistinctCreates(w.requests) && G.Inv(w.stores.guac) && HasAchieved(w, j, g)
    ensures HasAchieved(Apply(w, s), j, if s.call == j then Note(w.phases[j], s.action, g) else g)
  {
    hide Act, PhaseOk, Achieved, Carries, Note, G.Inv, GV.View, Index.SameEntries, HasDeleted;
    if s.call < |w.phases| {
      var c := s.call;
      var r, p := w.requests[c], w.phases[c];
      var w' := Apply(w, s);
      var create := w.requests[j];
      if c == j {
        ActCarries(w.stores, r, p, s.action, g);
      }
      if NoDeleteOf(w', create.uuid) {
        DeletesStay(w, s, create.uuid);
        if c == j {
          CreateAchieves(w.stores, r, p, s.action, g);
        } else {
          if create.uuid == r.uuid {
            LookupTakesNothing(w.stores, r, p, s.action);
            assert !HasDeleted(r, w'.phases[c]);
          } else {
            Index.ActIsLocal(w.stores, r, p, s.action, create.uuid);
            ActOnAccounts(w.stores, r, p, s.action, create.uuid);
          }
          ActKeepsPhaseOk(w.stores, r, p, s.action);
          AchievedCarries(w.stores, w'.stores, create, w.phases[j], g);
        }
      }
    }
  }

  lemma DeletesStay(w: World, s: Step, u: UUID)
    requires PhasesOk(w) && s.call < |w.phases| && NoDeleteOf(Apply(w, s), u)
    ensures NoDeleteOf(w, u)
  {
    hide Act, PhaseOk;
    var r, p := w.requests[s.call], w.phases[s.call];
    var w' := Apply(w, s);
    if !r.Create? {
      LookupTakesNothing(w.stores, r, p, s.action);
    }
    forall k | 0 <= k < |w.phases| && HasDeleted(w.requests[k], w.phases[k]) ensures w.requests[k].uuid != u {
      assert HasDeleted(w'.requests[k], w'.phases[k]);
    }
  }

  /** The Guacamole invariant holds at every point of every run of calls. */
  lemma {:induction false} GuacamoleStaysSound(w: World, steps: seq<Step>)
    requires PhasesOk(w) && G.Inv(w.stores.guac)
    ensures G.Inv(Exec(w, steps).stores.guac)
    decreases |steps|
  {
    if steps != [] {
      hide Apply, PhaseOk, G.Inv;
      var s := steps[0];
      ApplyKeepsPhasesOk(w, s);
      StepKeepsSound(w, s);
      GuacamoleStaysSound(Apply(w, s), steps[1..]);
    }
  }

  lemma {:induction false} RunAchieves(w: World, steps: seq<Step>, j: nat, g: Given)
    requires PhasesOk(w) && DistinctCreates(w.requests) && G.Inv(w.stores.guac) && HasAchieved(w, j, g)
    ensures HasAchieved(Exec(w, steps), j, Recall(w, steps, j, g))
    decreases |steps|
  {
    if steps != [] {
      hide Apply, PhaseOk, G.Inv, HasAchieved, DistinctCreates, Note;
      var s := steps[0];
      assert j < |w.phases| by { AchievedIsCall(w, j, g); }
      ApplyKeepsPhasesOk(w, s);
      StepAchieves(w, s, j, g);
      StepKeepsSound(w, s);
      RunAchieves(Apply(w, s), steps[1..], j, if s.call == j then Note(w.phases[j], s.action, g) else g);
    } else {
      AchievedIsCall(w, j, g);
    }
  }

  lemma AchievedIsCall(w: World, j: nat, g: Given)
    requires Valid(w) && HasAchieved(w, j, g)
    ensures j < |w.phases|
  {
  }

  /** In any interleaving of creates with UUIDs used once, deletes, shutdowns and lookups, with any failures: the VM of
      a completed create has the address and MAC address that CMS gave to that create and the password generated for it;
      it is in both tables with them and with its core, VMLocation and VMInfoIdx lead to that very record, and its
      Guacamole account has the credentials and a connection over which the first user logs in to the address with the
      generated key, until a delete of it gets through to the tables; and it is on the list of running VMs until a
      shutdown of it finishes. */
  lemma CompletedVMIsEverywhere(w: World, steps: seq<Step>, j: nat, core: nat, vm: VMInfo)
    requires AllIdle(w) && DistinctCreates(w.requests) && G.Inv(w.stores.guac) && w.stores.rs.aliveVM == []
    requires forall k :: 0 <= k < |w.requests| && w.requests[k].Create? ==> Alive.Unseen(w.stores, w.requests[k].uuid)
    requires j < |w.phases| && Exec(w, steps).phases[j] == Completed(core, vm)
    requires NoDeleteOf(Exec(w, steps), w.requests[j].uuid)
    ensures var st, r, g := Exec(w, steps).stores, w.requests[j], Recall(w, steps, j, NOTHING);
            r.Create? && r.users != [] && g.core == Some(core) && g.cms.Some? && g.secrets.Some? &&
            vm == VMInfo(r.uuid, g.cms.value.ip, g.secrets.value.pass, g.cms.value.mac, r.hw) &&
            Stored(st.tables, vm.uuid, core, vm) &&
            Reaches(st.guac, vm.uuid, vm.ip, r.users[0], g.secrets.value) &&
            vm.uuid in st.rs.location && st.rs.location[vm.uuid] == core && LookupVM(st.rs, vm.uuid) == Some(vm) &&
            (Alive.NoShutdownOf(Exec(w, steps), vm.uuid) ==> vm in st.rs.aliveVM)
  {
    hide Exec, Recall, Reaches, G.Inv;
    assert Alive.AliveInv(w);
    Alive.RunKeepsAliveInv(w, steps);
    var w' := Exec(w, steps);
    assert PhaseOk(w'.stores, w'.requests[j], w'.phases[j]);
    assert HasAchieved(w, j, NOTHING);
    RunAchieves(w, steps, j, NOTHING);
    assert Achieved(w'.stores, w'.requests[j], w'.phases[j], Recall(w, steps, j, NOTHING));
    assert Alive.Tracks(w'.stores, w'.requests[j], w'.phases[j]);
  }
}

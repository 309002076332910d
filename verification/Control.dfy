/** structure/control_infra.go with service/vm.go, service/network.go and service/cleanup.go: the operations as they are
    written, each run without interruption. */
module Control {
  import opened Common
  import opened Resources
  import opened Instances
  import opened Saga
  import opened Cleanup
  import G = Guacamole
  import GV = GuacamoleView
  import Index = SagaIndex
  import Network
  import Subnet

  // ---------------------------------------------------------------- one call of the machine, start to end

  /** The actions of one call with nothing in between. */
  function RunCall(st: Stores, r: Request, p: Phase, actions: seq<Action>): (Stores, Phase)
    decreases |actions|
  {
    if actions == [] then (st, p)
    else
      var (st', p') := Act(st, r, p, actions[0]);
      RunCall(st', r, p', actions[1..])
  }

  function StepsOf(k: nat, actions: seq<Action>): seq<Step>
    decreases |actions|
  {
    if actions == [] then [] else [Step(k, actions[0])] + StepsOf(k, actions[1..])
  }

  /** A call run without interruption is a run of the machine, so what holds of every run holds of it. */
  lemma {:induction false} RunCallIsExec(w: World, k: nat, actions: seq<Action>)
    requires Valid(w) && k < |w.phases|
    ensures var (st, p) := RunCall(w.stores, w.requests[k], w.phases[k], actions);
            Exec(w, StepsOf(k, actions)) == World(st, w.requests, w.phases[k := p])
    decreases |actions|
  {
    if actions == [] {
      assert w.phases[k := w.phases[k]] == w.phases;
    } else {
      hide Act;
      var s := Step(k, actions[0]);
      var w1 := Apply(w, s);
      assert StepsOf(k, actions)[1..] == StepsOf(k, actions[1..]);
      RunCallIsExec(w1, k, actions[1..]);
      var p := RunCall(w1.stores, w.requests[k], w1.phases[k], actions[1..]).1;
      assert w1.phases[k := p] == w.phases[k := p];
    }
  }

  lemma RunStep(st: Stores, r: Request, p: Phase, actions: seq<Action>, i: nat)
    requires i < |actions|
    ensures var (st', p') := Act(st, r, p, actions[i]);
            RunCall(st, r, p, actions[i..]) == RunCall(st', r, p', actions[i + 1..])
  {
    assert actions[i..][1..] == actions[i + 1..];
  }

  lemma {:induction false} RunEnded(st: Stores, r: Request, p: Phase, actions: seq<Action>)
    requires !p.Idle? && !IsActive(p)
    ensures RunCall(st, r, p, actions) == (st, p)
    decreases |actions|
  {
    if actions != [] {
      hide Act;
      Index.ActStartsAndEnds(st, r, p, actions[0]);
      RunEnded(st, r, p, actions[1..]);
    }
  }

  // ---------------------------------------------------------------- answers of the outside world

  datatype CreateAnswers = CreateAnswers(
    keyOk: bool, privateKey: string,
    writeAhead: bool, cms: Option<CmsResponse>, rollBack: bool, correct: bool,
    pass: string, credentials: G.Credentials, order: seq<string>, configure: Fault, cleanUp: Fault,
    redis: bool, core: bool, persist: Fault)
  {
    /** A generated password is not empty, and a Go map is visited in some order. */
    predicate Usable() { pass != "" && multiset(order) == multiset(G.PARAMETERS) }
  }

  datatype DeleteAnswers = DeleteAnswers(ask: Fault, core: bool, cms: bool, purge: Fault, drop: Fault, redis: bool)

  datatype ShutdownAnswers = ShutdownAnswers(ask: Fault, core: bool, redis: bool)

  datatype Status = StatusUnknown | StatusStopped | StatusOther

  datatype RedisInfo = RedisInfo(hw: Amounts, ip: string, status: Status)

  /** Everything the control plane keeps. */
  datatype Whole = Whole(stores: Stores, lastSubnet: string, subnetRow: string, redis: map<UUID, RedisInfo>)

  // ---------------------------------------------------------------- what the operations do

  function NewSubnetActions(x: CreateAnswers): seq<Subnet.Action> {
    [Subnet.WriteAhead(x.writeAhead), Subnet.Remember,
     Subnet.Reply(match x.cms case Some(answer) => Subnet.Grant(answer.ip) case None => Subnet.Refuse),
     Subnet.RollBack(x.rollBack), Subnet.Restore]
  }

  /** The part of NewCmsSubnet's protocol before the rest of the create. */
  function NewSubnet(w: Whole, x: CreateAnswers): Subnet.Allocator {
    Subnet.Run(Subnet.Allocator(w.lastSubnet, w.subnetRow, Subnet.Ready, []), NewSubnetActions(x))
  }

  lemma SubnetStep(a: Subnet.Allocator, xs: seq<Subnet.Action>, i: nat)
    requires i < |xs|
    ensures Subnet.Run(a, xs[i..]) == Subnet.Run(Subnet.Apply(a, xs[i]), xs[i + 1..])
  {
    hide Subnet.Apply;
    assert xs[i..][1..] == xs[i + 1..];
  }

  /** Without a crash the protocol has four outcomes. */
  lemma NewSubnetOutcome(w: Whole, x: CreateAnswers)
    ensures var next := Network.NextSubnet(w.lastSubnet);
            NewSubnet(w, x) ==
            if next.Panics? || !x.writeAhead then Subnet.Allocator(w.lastSubnet, w.subnetRow, Subnet.Ready, [])
            else if x.cms.Some? then
              Subnet.Allocator(next.value, next.value, Subnet.Granted(next.value, x.cms.value.ip), [next.value])
            else if x.rollBack then Subnet.Allocator(w.lastSubnet, w.lastSubnet, Subnet.Ready, [])
            else Subnet.Allocator(next.value, next.value, Subnet.Ready, [])
  {
    hide Network.NextSubnet, Subnet.Run;
    var xs := NewSubnetActions(x);
    var a0 := Subnet.Allocator(w.lastSubnet, w.subnetRow, Subnet.Ready, []);
    var a1 := Subnet.Apply(a0, xs[0]);
    var a2 := Subnet.Apply(a1, xs[1]);
    var a3 := Subnet.Apply(a2, xs[2]);
    var a4 := Subnet.Apply(a3, xs[3]);
    SubnetStep(a0, xs, 0);
    SubnetStep(a1, xs, 1);
    SubnetStep(a2, xs, 2);
    SubnetStep(a3, xs, 3);
    SubnetStep(a4, xs, 4);
    assert xs[0..] == xs && xs[5..] == [];
    NothingMore(Subnet.Apply(a4, xs[4]));
    var next := Network.NextSubnet(w.lastSubnet);
    assert next.Text? ==> [] + [next.value] == [next.value];
  }

  lemma NothingMore(a: Subnet.Allocator)
    ensures Subnet.Run(a, []) == a
  {
  }

  /** The answer of CMS as CreateVM gets it. */
  function CmsAnswer(w: Whole, r: Request, x: CreateAnswers): Option<CmsResponse>
    requires r.Create?
  {
    if r.subnetType == "Add" || NewSubnet(w, x).progress.Granted? then x.cms else None
  }

  function CreateActions(w: Whole, r: Request, choice: Option<nat>, x: CreateAnswers): seq<Action>
    requires r.Create?
  {
    [Select(choice), Address(x.keyOk, CmsAnswer(w, r, x)), Configure(x.pass, x.credentials, x.privateKey, x.configure),
     Reserve, CoreReply(x.core), Persist(x.persist), RegisterNew, Compensate(x.cleanUp), Compensate(x.cleanUp)]
  }

  predicate AsksForNewSubnet(r: Request, choice: Option<nat>, x: CreateAnswers)
    requires r.Create?
  {
    choice.Some? && x.keyOk && r.users != [] && r.subnetType != "Add"
  }

  predicate GetsToReserve(w: Whole, r: Request, choice: Option<nat>, x: CreateAnswers)
    requires r.Create?
  {
    choice.Some? && !AddressFails(w.stores.rs, r, x.keyOk, CmsAnswer(w, r, x)) &&
    !StrikesBefore(x.configure, G.CONFIGURE_STATEMENTS)
  }

  /** CreateVM: the machine's run, the subnet protocol with its correction, and a Redis record that is never taken
      back. */
  function AfterCreate(w: Whole, r: Request, choice: Option<nat>, x: CreateAnswers): Whole
    requires r.Create?
  {
    var (st, p) := RunCall(w.stores, r, Idle, CreateActions(w, r, choice, x));
    var a := Subnet.Apply(NewSubnet(w, x), Subnet.Finish(p.Completed? && x.correct));
    var asked := AsksForNewSubnet(r, choice, x);
    Whole(
      st,
      if asked then a.lastSubnet else w.lastSubnet,
      if asked then a.row else w.subnetRow,
      if GetsToReserve(w, r, choice, x) && x.redis then
        w.redis[r.uuid := RedisInfo(r.hw, CmsAnswer(w, r, x).value.ip, StatusUnknown)]
      else w.redis)
  }

  function DeleteActions(x: DeleteAnswers): seq<Action> {
    [Look, Ask(x.ask), Fill, CoreReply(x.core), Purge(x.purge), Drop(x.drop)]
  }

  function ShutdownActions(x: ShutdownAnswers): seq<Action> {
    [Look, Ask(x.ask), Fill, CoreReply(x.core), UnregisterStopped]
  }

  /** The address DeleteVM asks CMS to release, if it gets there. */
  function Released(st: Stores, u: UUID, x: DeleteAnswers): Option<string> {
    if Index.FindCore(st, u, x.ask).None? || !x.core then None
    else
      match LookupVM(Index.AfterFind(st, u, x.ask).rs, u)
      case None => None
      case Some(vm) => Some(vm.ip)
  }

  /** DeleteVM: the machine's run, and the Redis entry if the delete succeeds. */
  function AfterDelete(w: Whole, u: UUID, x: DeleteAnswers): Whole {
    var (st, p) := RunCall(w.stores, Delete(u), Idle, DeleteActions(x));
    w.(stores := st, redis := if p.Finished? && x.redis then w.redis - {u} else w.redis)
  }

  /** ShutdownVM: the machine's run, and the status in Redis if the shutdown succeeds. */
  function AfterShutdown(w: Whole, u: UUID, x: ShutdownAnswers): Whole {
    var (st, p) := RunCall(w.stores, Shutdown(u), Idle, ShutdownActions(x));
    w.(stores := st,
       redis := if p.Finished? && x.redis && u in w.redis then w.redis[u := w.redis[u].(status := StatusStopped)]
                else w.redis)
  }

  function UndoWith(r: Request, core: nat, fault: Fault): (Stores, Compensation) -> Stores {
    (st: Stores, c: Compensation) =>
      if r.Create? && core < |st.rs.cores| then Undo(st, r, core, c, fault) else st
  }

  /** The machine's two compensations are the chain of CreateVM, unwound. */
  lemma CompensationsUnwind(st: Stores, r: Request, core: nat, fault: Fault)
    requires r.Create? && core < |st.rs.cores|
    ensures RunCall(st, r, Undoing(core, FULL_CHAIN), [Compensate(fault), Compensate(fault)]) ==
            (Unwind(UndoWith(r, core, fault), FULL_CHAIN, st), Failed)
  {
    hide G.AfterCleanup, Deallocate;
    var undo := UndoWith(r, core, fault);
    var acts := [Compensate(fault), Compensate(fault)];
    var st1 := undo(st, ReleaseResources);
    var st2 := undo(st1, DropGuacamole);
    assert |st1.rs.cores| == |st.rs.cores| by { DeallocateKeepsCores(st.rs, core, r); }
    assert FULL_CHAIN[..1] == [DropGuacamole] && FULL_CHAIN[1] == ReleaseResources && [DropGuacamole][..0] == [];
    assert Unwind(undo, FULL_CHAIN, st) == Unwind(undo, [DropGuacamole], st1);
    assert Unwind(undo, [DropGuacamole], st1) == Unwind(undo, [], st2);
    assert acts[0..] == acts && acts[2..] == [];
    RunStep(st, r, Undoing(core, FULL_CHAIN), acts, 0);
    RunStep(st1, r, Undoing(core, [DropGuacamole]), acts, 1);
  }

  lemma DeallocateKeepsCores(s: ResourceState, core: nat, r: Request)
    requires r.Create? && core < |s.cores|
    ensures |Deallocate(s, core, r.uuid, r.hw).cores| == |s.cores|
  {
  }

  // ---------------------------------------------------------------- the same outcomes, spelled out

  /** A lookup, up to the point where the core is known or the call has failed. */
  lemma LookupRun(st: Stores, r: Request, actions: seq<Action>, ask: Fault)
    requires !r.Create? && |actions| >= 3 && actions[0] == Look && actions[1] == Ask(ask) && actions[2] == Fill
    ensures var c := Index.FindCore(st, r.uuid, ask);
            RunCall(st, r, Idle, actions) ==
            RunCall(Index.AfterFind(st, r.uuid, ask), r, if c.Some? then Found(c.value) else Failed, actions[3..])
  {
    hide RunCall;
    var u := r.uuid;
    var c := Index.FindCore(st, u, ask);
    assert actions[0..] == actions;
    RunStep(st, r, Idle, actions, 0);
    if u in st.rs.location {
      RunStep(st, r, Found(c.value), actions, 1);
      RunStep(st, r, Found(c.value), actions, 2);
    } else {
      RunStep(st, r, Asking, actions, 1);
      var asked := Act(st, r, Asking, Ask(ask)).1;
      RunStep(st, r, asked, actions, 2);
    }
  }

  lemma DeleteOutcome(st: Stores, u: UUID, x: DeleteAnswers)
    ensures var found := Index.AfterFind(st, u, x.ask);
            RunCall(st, Delete(u), Idle, DeleteActions(x)) ==
            if Index.FindCore(st, u, x.ask).None? || !x.core || StrikesBefore(x.purge, 4) then (found, Failed)
            else
              (found.(tables := Remove(found.tables, u, x.purge), guac := G.AfterCleanup(found.guac, u, x.drop)),
               Finished)
  {
    hide RunCall, Index.AfterFind, Index.FindCore, G.AfterCleanup, Remove;
    var r, actions := Delete(u), DeleteActions(x);
    LookupRun(st, r, actions, x.ask);
    var st1, c := Index.AfterFind(st, u, x.ask), Index.FindCore(st, u, x.ask);
    if c.None? {
      RunEnded(st1, r, Failed, actions[3..]);
    } else {
      RunStep(st1, r, Found(c.value), actions, 3);
      if !x.core {
        RunEnded(st1, r, Failed, actions[4..]);
      } else {
        RunStep(st1, r, Stopped, actions, 4);
        var st2 := st1.(tables := Remove(st1.tables, u, x.purge));
        if StrikesBefore(x.purge, 4) {
          RemoveFails(st1.tables, u, x.purge);
          RunEnded(st1, r, Failed, actions[5..]);
        } else {
          RunStep(st2, r, Purged, actions, 5);
          RunEnded(st2.(guac := G.AfterCleanup(st2.guac, u, x.drop)), r, Finished, actions[6..]);
        }
      }
    }
  }

  lemma RemoveFails(t: Tables, u: UUID, fault: Fault)
    requires StrikesBefore(fault, 4)
    ensures Remove(t, u, fault) == t
  {
  }

  lemma ShutdownOutcome(st: Stores, u: UUID, x: ShutdownAnswers)
    ensures var found := Index.AfterFind(st, u, x.ask);
            RunCall(st, Shutdown(u), Idle, ShutdownActions(x)) ==
            if Index.FindCore(st, u, x.ask).None? || !x.core then (found, Failed)
            else (found.(rs := Unregister(found.rs, u)), Finished)
  {
    hide RunCall, Index.AfterFind, Index.FindCore, Unregister;
    var r, actions := Shutdown(u), ShutdownActions(x);
    LookupRun(st, r, actions, x.ask);
    var st1, c := Index.AfterFind(st, u, x.ask), Index.FindCore(st, u, x.ask);
    if c.None? {
      RunEnded(st1, r, Failed, actions[3..]);
    } else {
      RunStep(st1, r, Found(c.value), actions, 3);
      if !x.core {
        RunEnded(st1, r, Failed, actions[4..]);
      } else {
        RunStep(st1, r, Stopped, actions, 4);
        RunEnded(st1.(rs := Unregister(st1.rs, u)), r, Finished, actions[5..]);
      }
    }
  }

  /** A create that found a core and an address: the stores once Guacamole is configured and the core is charged. */
  function Prepared(st: Stores, r: Request, core: nat, cms: CmsResponse, x: CreateAnswers): Stores
    requires r.Create? && core < |st.rs.cores|
  {
    var user := if r.users == [] then "" else r.users[0];
    var access := G.Access(cms.ip, user, x.privateKey);
    st.(guac := G.AfterConfigure(st.guac, r.uuid, x.credentials, access, x.configure),
        rs := Allocate(st.rs, core, r.uuid, NewVM(r, cms.ip, cms.mac, x.pass), r.hw))
  }

  lemma CreateFailsEarly(st: Stores, r: Request, choice: Option<nat>, cms: Option<CmsResponse>, actions: seq<Action>,
                         x: CreateAnswers)
    requires r.Create? && (choice.Some? ==> choice.value < |st.rs.cores|)
    requires |actions| >= 2 && actions[0] == Select(choice) && actions[1] == Address(x.keyOk, cms)
    requires choice.None? || AddressFails(st.rs, r, x.keyOk, cms)
    ensures RunCall(st, r, Idle, actions) == (st, Failed)
  {
    hide RunCall, AddressFails;
    assert actions[0..] == actions;
    RunStep(st, r, Idle, actions, 0);
    if choice.None? {
      RunEnded(st, r, Failed, actions[1..]);
    } else {
      RunStep(st, r, Selected(choice.value), actions, 1);
      RunEnded(st, r, Failed, actions[2..]);
    }
  }

  lemma CreatePrepares(st: Stores, r: Request, core: nat, cms: CmsResponse, actions: seq<Action>, x: CreateAnswers)
    requires r.Create? && core < |st.rs.cores| && !AddressFails(st.rs, r, x.keyOk, Some(cms))
    requires |actions| >= 4 && actions[0] == Select(Some(core)) && actions[1] == Address(x.keyOk, Some(cms))
    requires actions[2] == Configure(x.pass, x.credentials, x.privateKey, x.configure) && actions[3] == Reserve
    ensures var prepared := Prepared(st, r, core, cms, x);
            RunCall(st, r, Idle, actions) ==
            if StrikesBefore(x.configure, G.CONFIGURE_STATEMENTS) then (prepared.(rs := st.rs), Failed)
            else RunCall(prepared, r, Reserved(core, NewVM(r, cms.ip, cms.mac, x.pass)), actions[4..])
  {
    hide RunCall, AddressFails, G.AfterConfigure, Allocate;
    assert actions[0..] == actions;
    RunStep(st, r, Idle, actions, 0);
    RunStep(st, r, Selected(core), actions, 1);
    RunStep(st, r, Addressed(core, cms.ip, cms.mac), actions, 2);
    var vm := NewVM(r, cms.ip, cms.mac, x.pass);
    var (st1, p1) := Act(st, r, Addressed(core, cms.ip, cms.mac), actions[2]);
    if StrikesBefore(x.configure, G.CONFIGURE_STATEMENTS) {
      RunEnded(st1, r, Failed, actions[3..]);
    } else {
      RunStep(st1, r, Reachable(core, vm), actions, 3);
    }
  }

  /** From the reservation on a create either completes or unwinds its chain. */
  lemma CreateConcludes(st: Stores, r: Request, core: nat, vm: VMInfo, actions: seq<Action>, x: CreateAnswers)
    requires r.Create? && core < |st.rs.cores| && |actions| == 9
    requires actions[4] == CoreReply(x.core) && actions[5] == Persist(x.persist) && actions[6] == RegisterNew
    requires actions[7] == Compensate(x.cleanUp) && actions[8] == Compensate(x.cleanUp)
    ensures RunCall(st, r, Reserved(core, vm), actions[4..]) ==
            if x.core && AddSucceeds(st.tables, vm.uuid, x.persist) then
              (st.(tables := Add(st.tables, vm, core, x.persist), rs := Register(st.rs, r.uuid, core, vm)),
               Completed(core, vm))
            else (Unwind(UndoWith(r, core, x.cleanUp), FULL_CHAIN, st), Failed)
  {
    hide RunCall, AddSucceeds, Add, Register, Undo, Unwind;
    var undoing := Undoing(core, FULL_CHAIN);
    RunStep(st, r, Reserved(core, vm), actions, 4);
    if x.core {
      RunStep(st, r, Accepted(core, vm), actions, 5);
      AddFails(st.tables, vm, core, x.persist);
    } else {
      RunStep(st, r, undoing, actions, 5);
    }
    if x.core && AddSucceeds(st.tables, vm.uuid, x.persist) {
      var st1 := st.(tables := Add(st.tables, vm, core, x.persist));
      RunStep(st1, r, Persisted(core, vm), actions, 6);
      RunEnded(st1.(rs := Register(st.rs, r.uuid, core, vm)), r, Completed(core, vm), actions[7..]);
    } else {
      RunStep(st, r, undoing, actions, 6);
      assert actions[7..] == [Compensate(x.cleanUp), Compensate(x.cleanUp)];
      CompensationsUnwind(st, r, core, x.cleanUp);
    }
  }

  lemma AddFails(t: Tables, vm: VMInfo, core: int, fault: Fault)
    ensures !AddSucceeds(t, vm.uuid, fault) ==> Add(t, vm, core, fault) == t
  {
  }

  /** Steps 5 to 8 of CreateVM, from the stores that Guacamole's configuration left. */
  function Placed(st: Stores, r: Request, core: nat, vm: VMInfo, x: CreateAnswers): (Stores, bool)
    requires r.Create? && core < |st.rs.cores|
  {
    var reserved := st.(rs := Allocate(st.rs, core, r.uuid, vm, r.hw));
    if x.core && AddSucceeds(st.tables, vm.uuid, x.persist) then
      (reserved.(tables := Add(st.tables, vm, core, x.persist), rs := Register(reserved.rs, r.uuid, core, vm)), true)
    else
      (Unwind(UndoWith(r, core, x.cleanUp), FULL_CHAIN, reserved), false)
  }

  lemma CreateOutcome(w: Whole, r: Request, choice: Option<nat>, x: CreateAnswers)
    requires r.Create? && (choice.Some? ==> choice.value < |w.stores.rs.cores|)
    ensures var (st, p) := RunCall(w.stores, r, Idle, CreateActions(w, r, choice, x));
            var cms := CmsAnswer(w, r, x);
            if choice.None? || AddressFails(w.stores.rs, r, x.keyOk, cms) then st == w.stores && p == Failed
            else
              var configured := Prepared(w.stores, r, choice.value, cms.value, x).(rs := w.stores.rs);
              if StrikesBefore(x.configure, G.CONFIGURE_STATEMENTS) then st == configured && p == Failed
              else
                var vm := NewVM(r, cms.value.ip, cms.value.mac, x.pass);
                var (placed, ok) := Placed(configured, r, choice.value, vm, x);
                st == placed && (p.Completed? <==> ok)
  {
    hide RunCall, CmsAnswer, Act, UndoWith, Unwind, Register, AddSucceeds, Add;
    var cms := CmsAnswer(w, r, x);
    var actions := CreateActions(w, r, choice, x);
    if choice.None? || AddressFails(w.stores.rs, r, x.keyOk, cms) {
      CreateFailsEarly(w.stores, r, choice, cms, actions, x);
    } else {
      var core, vm := choice.value, NewVM(r, cms.value.ip, cms.value.mac, x.pass);
      CreatePrepares(w.stores, r, core, cms.value, actions, x);
      if !StrikesBefore(x.configure, G.CONFIGURE_STATEMENTS) {
        CreateConcludes(Prepared(w.stores, r, core, cms.value, x), r, core, vm, actions, x);
      }
    }
  }

  /** One CreateVM, from w to w'. */
  ghost predicate Creates(w: Whole, r: Request, choice: Option<nat>, x: CreateAnswers, w': Whole, ok: bool)
    requires r.Create?
  {
    FirstFit(w.stores.rs, r.hw, choice) && w' == AfterCreate(w, r, choice, x) &&
    ok == RunCall(w.stores, r, Idle, CreateActions(w, r, choice, x)).1.Completed?
  }

  /** The subnets after allocateCmsSubnet. */
  function WithSubnet(w: Whole, r: Request, x: CreateAnswers): Whole
    requires r.Create?
  {
    if r.subnetType == "Add" then w
    else w.(lastSubnet := NewSubnet(w, x).lastSubnet, subnetRow := NewSubnet(w, x).row)
  }

  /** Steps 4 to 8 of CreateVM. */
  function Equipped(w: Whole, r: Request, core: nat, cms: CmsResponse, x: CreateAnswers): (Whole, bool)
    requires r.Create? && core < |w.stores.rs.cores|
  {
    var configured := Prepared(w.stores, r, core, cms, x).(rs := w.stores.rs);
    if StrikesBefore(x.configure, G.CONFIGURE_STATEMENTS) then (w.(stores := configured), false)
    else
      var (st, ok) := Placed(configured, r, core, NewVM(r, cms.ip, cms.mac, x.pass), x);
      (Whole(st, w.lastSubnet,
             if ok && r.subnetType != "Add" && x.correct then cms.ip else w.subnetRow,
             if x.redis then w.redis[r.uuid := RedisInfo(r.hw, cms.ip, StatusUnknown)] else w.redis), ok)
  }

  /** A create that gets no core or no address changes nothing but what the subnet protocol has done. */
  lemma CreateStopsEarly(w: Whole, r: Request, choice: Option<nat>, x: CreateAnswers)
    requires r.Create? && FirstFit(w.stores.rs, r.hw, choice)
    requires choice.None? || !x.keyOk || r.users == [] ||
             (r.subnetType == "Add" && OwnSubnet(w.stores.rs, r.uuid).None?) || CmsAnswer(w, r, x).None?
    ensures Creates(w, r, choice, x,
                    if choice.Some? && x.keyOk && r.users != [] then WithSubnet(w, r, x) else w, false)
  {
    hide RunCall, CreateActions, NewSubnet, CmsAnswer, Placed;
    CreateOutcome(w, r, choice, x);
  }

  /** A create that got a core and an address. */
  lemma CreateGoesOn(w: Whole, r: Request, core: nat, cms: CmsResponse, x: CreateAnswers)
    requires r.Create? && FirstFit(w.stores.rs, r.hw, Some(core)) && CmsAnswer(w, r, x) == Some(cms)
    requires x.keyOk && r.users != [] && (r.subnetType == "Add" ==> OwnSubnet(w.stores.rs, r.uuid).Some?)
    ensures var (w', ok) := Equipped(WithSubnet(w, r, x), r, core, cms, x);
            Creates(w, r, Some(core), x, w', ok)
  {
    hide RunCall, CreateActions, NewSubnet, Placed, Network.NextSubnet;
    CreateOutcome(w, r, Some(core), x);
    NewSubnetOutcome(w, x);
    hide CmsAnswer;
    hide Prepared;
  }

  // ---------------------------------------------------------------- a create, field by field

  /** A core that is alive and has enough of everything. */
  predicate Offers(c: CoreState, hw: Amounts) {
    c.isAlive && c.free.memory >= hw.memory && c.free.cpu >= hw.cpu && c.free.disk >= hw.disk
  }

  predicate IsFirstOffer(cores: seq<CoreState>, hw: Amounts, i: nat) {
    i < |cores| && Offers(cores[i], hw) && forall j :: 0 <= j < i ==> !Offers(cores[j], hw)
  }

  /** "Add": the VM's own record has an address of four parts; else: there is a next subnet, and it can be written. */
  predicate AddressGranted(w: Whole, r: Request, x: CreateAnswers)
    requires r.Create?
  {
    x.cms.Some? &&
    if r.subnetType == "Add" then
      var rs := w.stores.rs;
      r.uuid in rs.location && rs.location[r.uuid] < |rs.cores| &&
      r.uuid in rs.cores[rs.location[r.uuid]].vms &&
      |Network.Split(rs.cores[rs.location[r.uuid]].vms[r.uuid].ip)| == 4
    else
      Network.NextSubnet(w.lastSubnet).Text? && x.writeAhead
  }

  /** Exactly what CreateVM needs to succeed. */
  predicate CanCreate(w: Whole, r: Request, x: CreateAnswers)
    requires r.Create?
  {
    (exists i :: 0 <= i < |w.stores.rs.cores| && Offers(w.stores.rs.cores[i], r.hw)) &&
    x.keyOk && r.users != [] && AddressGranted(w, r, x) && (x.configure.None? || x.configure.value > 10) &&
    x.core && (x.persist.None? || x.persist.value > 3) &&
    r.uuid !in w.stores.tables.info && r.uuid !in w.stores.tables.loc
  }

  /** What CreateVM makes, on core i. */
  ghost predicate IsCreated(w: Whole, r: Request, x: CreateAnswers, i: nat, w': Whole)
    requires r.Create? && r.users != [] && x.cms.Some?
  {
    var st, st', ip := w.stores, w'.stores, x.cms.value.ip;
    var vm := VMInfo(r.uuid, ip, x.pass, x.cms.value.mac, r.hw);
    IsFirstOffer(st.rs.cores, r.hw, i) &&
    st'.rs.cores == st.rs.cores[i := CoreState(st.rs.cores[i].total, true,
                                               Amounts(st.rs.cores[i].free.memory - r.hw.memory,
                                                       st.rs.cores[i].free.cpu - r.hw.cpu,
                                                       st.rs.cores[i].free.disk - r.hw.disk),
                                               st.rs.cores[i].vms[r.uuid := vm])] &&
    st'.rs.location == st.rs.location[r.uuid := i] && st'.rs.aliveVM == st.rs.aliveVM + [vm] &&
    st'.tables.info == st.tables.info[r.uuid := Row(ip, x.pass, r.hw)] &&
    st'.tables.loc == st.tables.loc[r.uuid := i] &&
    G.HasConnection(st'.guac.rows, r.uuid, st.guac.next.connection, x.credentials,
                    ip, "22", r.users[0], x.privateKey) &&
    w'.redis == (if x.redis then w.redis[r.uuid := RedisInfo(r.hw, ip, StatusUnknown)] else w.redis) &&
    if r.subnetType == "Add" then w'.lastSubnet == w.lastSubnet && w'.subnetRow == w.subnetRow
    else
      Network.NextSubnet(w.lastSubnet) == Network.Text(w'.lastSubnet) &&
      w'.subnetRow == if x.correct then ip else w'.lastSubnet
  }

  lemma ChoiceIsFirstOffer(s: ResourceState, hw: Amounts, choice: Option<nat>)
    requires FirstFit(s, hw, choice)
    ensures choice.Some? ==> IsFirstOffer(s.cores, hw, choice.value)
    ensures choice.Some? <==> exists i :: 0 <= i < |s.cores| && Offers(s.cores[i], hw)
  {
    FirstFitIs(s, hw, choice);
    if choice.Some? {
      assert Offers(s.cores[choice.value], hw);
    }
  }

  /** What the address depends on, field by field. */
  lemma AddressGrantedIs(w: Whole, r: Request, x: CreateAnswers)
    requires r.Create?
    ensures AddressFails(w.stores.rs, r, x.keyOk, CmsAnswer(w, r, x)) <==>
            !x.keyOk || r.users == [] || !AddressGranted(w, r, x)
    ensures AddressGranted(w, r, x) ==> CmsAnswer(w, r, x) == x.cms
  {
    hide Network.NextSubnet, Network.Split;
    NewSubnetOutcome(w, x);
    hide NewSubnet;
  }

  /** Which creates get to their reservation, and on which core: the first that is alive and covers the request. */
  lemma ReservesOnFirstOffer(w: Whole, r: Request, choice: Option<nat>, x: CreateAnswers, w': Whole, ok: bool)
    requires r.Create? && Creates(w, r, choice, x, w', ok)
    ensures GetsToReserve(w, r, choice, x) <==>
            (exists i :: 0 <= i < |w.stores.rs.cores| && Offers(w.stores.rs.cores[i], r.hw)) &&
            x.keyOk && r.users != [] && AddressGranted(w, r, x) && (x.configure.None? || x.configure.value > 10)
    ensures GetsToReserve(w, r, choice, x) ==> choice.Some? && IsFirstOffer(w.stores.rs.cores, r.hw, choice.value)
  {
    hide AddressGranted, AddressFails, CmsAnswer, AfterCreate, RunCall, CreateActions;
    ChoiceIsFirstOffer(w.stores.rs, r.hw, choice);
    AddressGrantedIs(w, r, x);
  }

  /** CreateVM succeeds exactly if everything it needs is there. */
  lemma CreateSucceedsExactly(w: Whole, r: Request, choice: Option<nat>, x: CreateAnswers, w': Whole, ok: bool)
    requires r.Create? && Creates(w, r, choice, x, w', ok)
    ensures ok <==> CanCreate(w, r, x)
  {
    ChoiceIsFirstOffer(w.stores.rs, r.hw, choice);
    AddressGrantedIs(w, r, x);
    CreateOutcome(w, r, choice, x);
    hide RunCall, CreateActions, AddressGranted, AddressFails, CmsAnswer, AfterCreate;
    hide Allocate, Register, Unwind, UndoWith;
  }

  /** The stores after a create that succeeded. */
  lemma PlacedIs(w: Whole, r: Request, i: nat, x: CreateAnswers)
    requires r.Create? && CanCreate(w, r, x) && IsFirstOffer(w.stores.rs.cores, r.hw, i)
    ensures var st, ip := w.stores, x.cms.value.ip;
            var vm := VMInfo(r.uuid, ip, x.pass, x.cms.value.mac, r.hw);
            var configured := Prepared(st, r, i, x.cms.value, x).(rs := st.rs);
            var (st', ok) := Placed(configured, r, i, NewVM(r, ip, x.cms.value.mac, x.pass), x);
            ok && st'.guac == G.AfterConfigure(st.guac, r.uuid, x.credentials,
                                               G.Access(ip, r.users[0], x.privateKey), x.configure) &&
            st'.tables.info == st.tables.info[r.uuid := Row(ip, x.pass, r.hw)] &&
            st'.tables.loc == st.tables.loc[r.uuid := i] &&
            st'.rs.location == st.rs.location[r.uuid := i] && st'.rs.aliveVM == st.rs.aliveVM + [vm] &&
            st'.rs.cores == st.rs.cores[i := CoreState(st.rs.cores[i].total, true,
                                                       Amounts(st.rs.cores[i].free.memory - r.hw.memory,
                                                               st.rs.cores[i].free.cpu - r.hw.cpu,
                                                               st.rs.cores[i].free.disk - r.hw.disk),
                                                       st.rs.cores[i].vms[r.uuid := vm])]
  {
    hide AddressGranted, G.AfterConfigure, Unwind, UndoWith;
    NoWrap(w.stores.rs.cores[i].free, r.hw);
  }

  lemma NoWrap(free: Amounts, hw: Amounts)
    requires free.memory >= hw.memory && free.cpu >= hw.cpu && free.disk >= hw.disk
    ensures Charge(free, hw) == Amounts(free.memory - hw.memory, free.cpu - hw.cpu, free.disk - hw.disk)
  {
  }

  lemma ConfigureConnects(g: G.Db, u: UUID, credentials: G.Credentials, access: G.Access, fault: Fault)
    requires fault.None? || fault.value > 10
    ensures G.HasConnection(G.AfterConfigure(g, u, credentials, access, fault).rows, u, g.next.connection, credentials,
                            access.hostname, "22", access.username, access.privateKey)
  {
    hide G.HasConnection;
    G.ConfigureWrites(g, u, credentials, access);
    assert G.AfterConfigure(g, u, credentials, access, fault) == G.AfterConfigure(g, u, credentials, access, None);
  }

  /** The subnets after a create, in every case. */
  lemma SubnetsAfterCreate(w: Whole, r: Request, choice: Option<nat>, x: CreateAnswers, w': Whole, ok: bool)
    requires r.Create? && Creates(w, r, choice, x, w', ok)
    ensures var next := Network.NextSubnet(w.lastSubnet);
            if choice.None? || !x.keyOk || r.users == [] || r.subnetType == "Add" || next.Panics? || !x.writeAhead then
              w'.lastSubnet == w.lastSubnet && w'.subnetRow == w.subnetRow
            else if x.cms.Some? then
              w'.lastSubnet == next.value && w'.subnetRow == if ok && x.correct then x.cms.value.ip else next.value
            else if x.rollBack then w'.lastSubnet == w.lastSubnet == w'.subnetRow
            else w'.lastSubnet == next.value == w'.subnetRow
  {
    hide Network.NextSubnet, RunCall, CreateActions, FirstFit, CmsAnswer, AddressFails;
    NewSubnetOutcome(w, x);
    hide NewSubnet;
  }

  lemma FirstOfferIsACore(cores: seq<CoreState>, hw: Amounts, i: nat)
    requires IsFirstOffer(cores, hw, i)
    ensures i < |cores|
  {
  }

  /** And then it makes exactly what it should: the record, the rows, the charge, the location, the entry on the list of
      running VMs, the Guacamole connection, the Redis entry and the next subnet. */
  lemma CreateMakes(w: Whole, r: Request, choice: Option<nat>, x: CreateAnswers, w': Whole)
    requires r.Create? && Creates(w, r, choice, x, w', true)
    ensures r.users != [] && x.cms.Some? && choice.Some? && IsCreated(w, r, x, choice.value, w')
  {
    hide RunCall, CreateActions, Placed, Prepared, Offers, IsFirstOffer, AddressFails, CmsAnswer, NewSubnet;
    hide Network.NextSubnet, Network.Split, G.HasConnection, G.AfterConfigure, FirstFit;
    CreateSucceedsExactly(w, r, choice, x, w', true);
    ChoiceIsFirstOffer(w.stores.rs, r.hw, choice);
    assert choice.Some? && IsFirstOffer(w.stores.rs.cores, r.hw, choice.value);
    FirstOfferIsACore(w.stores.rs.cores, r.hw, choice.value);
    AddressGrantedIs(w, r, x);
    SubnetsAfterCreate(w, r, choice, x, w', true);
    CreateOutcome(w, r, choice, x);
    PlacedIs(w, r, choice.value, x);
    ConfigureConnects(w.stores.guac, r.uuid, x.credentials,
                      G.Access(x.cms.value.ip, r.users[0], x.privateKey), x.configure);
  }

  lemma CreateIs(w: Whole, r: Request, choice: Option<nat>, x: CreateAnswers, w': Whole, ok: bool)
    requires r.Create? && Creates(w, r, choice, x, w', ok)
    ensures ok <==> CanCreate(w, r, x)
    ensures ok ==> r.users != [] && x.cms.Some? && exists i :: IsCreated(w, r, x, i, w')
  {
    hide Creates, CanCreate, IsCreated;
    CreateSucceedsExactly(w, r, choice, x, w', ok);
    if ok {
      CreateMakes(w, r, choice, x, w');
    }
  }

  /** There is a core for FindCoreByVmUUID to find: a cached one, or a stored one that is in range. */
  predicate HasCore(st: Stores, u: UUID, ask: Fault) {
    u in st.rs.location ||
    ((ask.None? || ask.value > 2) && u in st.tables.loc && 0 <= st.tables.loc[u] < |st.rs.cores|)
  }

  /** A lookup that has to ask the database writes down what it finds. */
  function LocationAfterLookup(st: Stores, u: UUID, ask: Fault): map<UUID, nat> {
    if u !in st.rs.location && HasCore(st, u, ask) then st.rs.location[u := st.tables.loc[u]] else st.rs.location
  }

  /** The address of the record that the index leads to. */
  function RecordedAddress(rs: ResourceState, u: UUID): Option<string> {
    if u in rs.location && rs.location[u] < |rs.cores| && u in rs.cores[rs.location[u]].vms then
      Some(rs.cores[rs.location[u]].vms[u].ip)
    else None
  }

  /** DeleteVM, field by field. */
  lemma DeleteIs(w: Whole, u: UUID, x: DeleteAnswers)
    ensures var w', ok := AfterDelete(w, u, x), RunCall(w.stores, Delete(u), Idle, DeleteActions(x)).1.Finished?;
            var st, st' := w.stores, w'.stores;
            (ok <==> HasCore(st, u, x.ask) && x.core && (x.purge.None? || x.purge.value > 3)) &&
            st'.rs.cores == st.rs.cores && st'.rs.aliveVM == st.rs.aliveVM &&
            st'.rs.location == LocationAfterLookup(st, u, x.ask) &&
            w'.lastSubnet == w.lastSubnet && w'.subnetRow == w.subnetRow &&
            (!ok ==> st'.tables == st.tables && st'.guac == st.guac && w'.redis == w.redis) &&
            (ok ==>
               st'.tables == Tables(st.tables.info - {u}, st.tables.loc - {u}) &&
               w'.redis == if x.redis then w.redis - {u} else w.redis)
    ensures Released(w.stores, u, x) ==
            if HasCore(w.stores, u, x.ask) && x.core then RecordedAddress(AfterDelete(w, u, x).stores.rs, u) else None
    ensures HasCore(w.stores, u, x.ask) <==> Index.FindCore(w.stores, u, x.ask).Some?
  {
    DeleteOutcome(w.stores, u, x);
    hide RunCall, G.AfterCleanup;
  }

  /** A shutdown takes the VM off the list of running VMs and marks it as stopped in Redis, if the core agrees, and
      changes nothing else but that a location may become known. */
  lemma ShutdownStopsOneVM(w: Whole, u: UUID, x: ShutdownAnswers)
    ensures var w', ok := AfterShutdown(w, u, x), RunCall(w.stores, Shutdown(u), Idle, ShutdownActions(x)).1.Finished?;
            var st, st' := w.stores, w'.stores;
            (ok <==> HasCore(st, u, x.ask) && x.core) &&
            st'.rs.cores == st.rs.cores && st'.tables == st.tables && st'.guac == st.guac &&
            st'.rs.location == LocationAfterLookup(st, u, x.ask) &&
            w'.lastSubnet == w.lastSubnet && w'.subnetRow == w.subnetRow &&
            (if ok && exists vm :: vm in st.rs.aliveVM && vm.uuid == u
             then IsWithoutFirst(st.rs.aliveVM, st'.rs.aliveVM, u)
             else st'.rs.aliveVM == st.rs.aliveVM) &&
            w'.redis == if ok && x.redis && u in w.redis
                        then w.redis[u := RedisInfo(w.redis[u].hw, w.redis[u].ip, StatusStopped)] else w.redis
  {
    ShutdownOutcome(w.stores, u, x);
    hide RunCall, IsWithoutFirst;
    RemoveFirstIs(w.stores.rs.aliveVM, u);
  }

  // ---------------------------------------------------------------- the operations

  class ControlContext {
    const resources: ResourceManager
    const vmRepo: MySQLVMRepository
    const guacDB: G.GuacamoleDatabase
    var lastSubnet: string
    var subnetRow: string
    var redis: map<UUID, RedisInfo>

    constructor (resources: ResourceManager, vmRepo: MySQLVMRepository, guacDB: G.GuacamoleDatabase, subnetRow: string)
      ensures this.resources == resources && this.vmRepo == vmRepo && this.guacDB == guacDB
      ensures lastSubnet == subnetRow == this.subnetRow && redis == map[]
    {
      this.resources, this.vmRepo, this.guacDB := resources, vmRepo, guacDB;
      this.lastSubnet, this.subnetRow, this.redis := subnetRow, subnetRow, map[];
    }

    ghost function State(): Stores
      requires resources.Valid()
      reads resources, resources.cores, vmRepo, guacDB
    {
      Stores(resources.State(), vmRepo.State(), guacDB.State())
    }

    ghost function Everything(): Whole
      requires resources.Valid()
      reads this, resources, resources.cores, vmRepo, guacDB
    {
      Whole(State(), lastSubnet, subnetRow, redis)
    }

    method FindCoreByVmUUID(uuid: UUID, fault: Fault) returns (core: Core?)
      requires resources.Valid()
      modifies resources`vmLocation
      ensures resources.Valid() && State() == Index.AfterFind(old(State()), uuid, fault)
      ensures core == match Index.FindCore(old(State()), uuid, fault)
                      case None => null
                      case Some(c) => if c < |resources.cores| then resources.cores[c] else null
      ensures core == null <==> Index.FindCore(old(State()), uuid, fault).None?
      ensures core == if uuid in old(resources.vmLocation) then old(resources.vmLocation)[uuid]
                      else if (fault.None? || fault.value > 2) && uuid in vmRepo.instLoc &&
                              0 <= vmRepo.instLoc[uuid] < |resources.cores| then resources.cores[vmRepo.instLoc[uuid]]
                      else null
      ensures resources.vmLocation ==
              if core == null then old(resources.vmLocation) else old(resources.vmLocation)[uuid := core]
    {
      ghost var before := State();
      if uuid in resources.vmLocation {
        core := resources.vmLocation[uuid];
        assert resources.vmLocation[uuid := core] == resources.vmLocation;
        return core;
      }
      assert uuid !in before.rs.location;
      var coreIdx := vmRepo.GetInstanceLocation(uuid, fault);
      if coreIdx.None? {
        return null;
      }
      if coreIdx.value < 0 || coreIdx.value >= |resources.cores| {
        return null;
      }
      assert Index.FindCore(before, uuid, fault) == Some(coreIdx.value);
      core := resources.cores[coreIdx.value];
      RememberCore(uuid, core, coreIdx.value);
    }

    method RememberCore(uuid: UUID, core: Core, coreIdx: nat)
      requires resources.Valid() && coreIdx < |resources.cores| && resources.cores[coreIdx] == core
      modifies resources`vmLocation
      ensures resources.Valid() && State() == old(State()).(rs := CacheLocation(old(State()).rs, uuid, coreIdx))
      ensures resources.vmLocation == old(resources.vmLocation)[uuid := core]
    {
      hide ResourceManager.State, ResourceManager.IndexOf, Core.State;
      assert resources.IndexOf(core) == coreIdx;
      resources.Locate(uuid, core);
    }

    method GetVMIPByUUID(uuid: UUID) returns (ip: Option<string>)
      requires resources.Valid()
      ensures ip == match LookupVM(resources.State(), uuid) case None => None case Some(vm) => Some(vm.ip)
      ensures ip == if uuid in resources.vmLocation && uuid in resources.vmLocation[uuid].vmInfoIdx
                    then Some(resources.vmLocation[uuid].vmInfoIdx[uuid].ip) else None
    {
      if uuid !in resources.vmLocation {
        return None;
      }
      var core := resources.vmLocation[uuid];
      if uuid !in core.vmInfoIdx {
        return None;
      }
      return Some(core.vmInfoIdx[uuid].ip);
    }

    /** asked is the subnet that CMS is asked for an address in, if it is. */
    method AddCmsSubnet(uuid: UUID, cms: Option<CmsResponse>)
      returns (resp: Option<CmsResponse>, asked: Option<string>)
      requires resources.Valid()
      ensures resp == if OwnSubnet(resources.State(), uuid).None? then None else cms
      ensures asked == if RecordedAddress(resources.State(), uuid).None? then None
                       else Network.GetSubnetFromIP(RecordedAddress(resources.State(), uuid).value)
      ensures resp == if asked.None? then None else cms
    {
      var ip := GetVMIPByUUID(uuid);
      if ip.None? {
        return None, None;
      }
      var subnet := Network.GetSubnetFromIP(ip.value);
      if subnet.None? {
        return None, None;
      }
      return cms, subnet;
    }

    method NewCmsSubnet(x: CreateAnswers) returns (resp: Option<CmsResponse>, asked: Option<string>)
      requires resources.Valid()
      modifies this`lastSubnet, this`subnetRow
      ensures var a := NewSubnet(old(Everything()), x);
              lastSubnet == a.lastSubnet && subnetRow == a.row &&
              resp == (if a.progress.Granted? then x.cms else None) &&
              (a.progress.Granted? ==> x.cms.Some? && a.progress.ip == x.cms.value.ip)
      ensures var next := Network.NextSubnet(old(lastSubnet));
              asked == (if next.Text? && x.writeAhead then Some(next.value) else None) &&
              resp == if asked.Some? then x.cms else None
    {
      hide NewSubnet, Network.NextSubnet;
      NewSubnetOutcome(Everything(), x);
      var last := lastSubnet;
      var next := Network.FindSubnet(last);
      if next.Panics? || !x.writeAhead {
        return None, None;
      }
      subnetRow := next.value;
      lastSubnet := next.value;
      if x.cms.None? {
        if !x.rollBack {
          return None, Some(next.value);
        }
        subnetRow := last;
        lastSubnet := last;
        return None, Some(next.value);
      }
      return x.cms, Some(next.value);
    }

    method DeleteCmsSubnet(uuid: UUID, cms: bool) returns (sent: Option<string>, ok: bool)
      requires resources.Valid()
      ensures sent == RecordedAddress(resources.State(), uuid)
      ensures ok <==> sent.Some? && cms
    {
      sent := GetVMIPByUUID(uuid);
      ok := sent.Some? && cms;
    }

    method DeleteVM(uuid: UUID, x: DeleteAnswers) returns (ok: bool, sent: Option<string>)
      requires resources.Valid()
      modifies this`redis, resources`vmLocation, vmRepo, guacDB
      ensures resources.Valid()
      ensures State() == RunCall(old(State()), Delete(uuid), Idle, DeleteActions(x)).0
      ensures ok <==> RunCall(old(State()), Delete(uuid), Idle, DeleteActions(x)).1.Finished?
      ensures sent == Released(old(State()), uuid, x)
      ensures Everything() == AfterDelete(old(Everything()), uuid, x)
      ensures ok <==> HasCore(old(State()), uuid, x.ask) && x.core && (x.purge.None? || x.purge.value > 3)
      ensures !ok ==> State().tables == old(State()).tables && State().guac == old(State()).guac && redis == old(redis)
      ensures ok ==> State().tables == Tables(old(State()).tables.info - {uuid}, old(State()).tables.loc - {uuid})
      ensures ok ==> redis == if x.redis then old(redis) - {uuid} else old(redis)
      ensures lastSubnet == old(lastSubnet) && subnetRow == old(subnetRow)
      ensures sent == if HasCore(old(State()), uuid, x.ask) && x.core then RecordedAddress(State().rs, uuid) else None
    {
      hide RunCall, DeleteActions, Index.AfterFind, Index.FindCore, Remove, G.AfterCleanup, LookupVM, HasCore;
      hide RecordedAddress, Released;
      ghost var w := Everything();
      ghost var found := Index.AfterFind(w.stores, uuid, x.ask);
      DeleteOutcome(w.stores, uuid, x);
      DeleteIs(w, uuid, x);
      var core := FindCoreByVmUUID(uuid, x.ask);
      assert State() == found;
      if core == null || !x.core {
        return false, None;
      }
      var released;
      sent, released := DeleteCmsSubnet(uuid, x.cms);
      ok := DeleteStored(uuid, x);
    }

    /** The last three steps of DeleteVM. */
    method DeleteStored(uuid: UUID, x: DeleteAnswers) returns (ok: bool)
      requires resources.Valid()
      modifies this`redis, vmRepo, guacDB
      ensures ok <==> !StrikesBefore(x.purge, 4)
      ensures State() == if !ok then old(State())
                         else old(State()).(tables := Remove(old(State()).tables, uuid, x.purge),
                                            guac := G.AfterCleanup(old(State()).guac, uuid, x.drop))
      ensures redis == if ok && x.redis then old(redis) - {uuid} else old(redis)
    {
      hide Remove, G.AfterCleanup;
      var deleted := vmRepo.DeleteInstance(uuid, x.purge);
      if !deleted {
        RemoveFails(old(vmRepo.State()), uuid, x.purge);
        return false;
      }
      var dropped := guacDB.Cleanup(uuid, x.drop);
      if x.redis {
        redis := redis - {uuid};
      }
      return true;
    }

    method ShutdownVM(uuid: UUID, x: ShutdownAnswers) returns (ok: bool)
      requires resources.Valid()
      modifies this`redis, resources`vmLocation, resources`aliveVM
      ensures resources.Valid()
      ensures State() == RunCall(old(State()), Shutdown(uuid), Idle, ShutdownActions(x)).0
      ensures ok <==> RunCall(old(State()), Shutdown(uuid), Idle, ShutdownActions(x)).1.Finished?
      ensures Everything() == AfterShutdown(old(Everything()), uuid, x)
      ensures ok <==> HasCore(old(State()), uuid, x.ask) && x.core
      ensures State().tables == old(State()).tables && State().guac == old(State()).guac
      ensures if ok && exists vm :: vm in old(resources.aliveVM) && vm.uuid == uuid
              then IsWithoutFirst(old(resources.aliveVM), resources.aliveVM, uuid)
              else resources.aliveVM == old(resources.aliveVM)
      ensures !(ok && x.redis && uuid in old(redis)) ==> redis == old(redis)
      ensures ok && x.redis && uuid in old(redis) ==>
                redis == old(redis)[uuid := RedisInfo(old(redis)[uuid].hw, old(redis)[uuid].ip, StatusStopped)]
      ensures lastSubnet == old(lastSubnet) && subnetRow == old(subnetRow)
    {
      hide RunCall, ShutdownActions, Index.AfterFind, Index.FindCore, Unregister, HasCore, IsWithoutFirst;
      ghost var w := Everything();
      ghost var found := Index.AfterFind(w.stores, uuid, x.ask);
      ShutdownOutcome(w.stores, uuid, x);
      ShutdownStopsOneVM(w, uuid, x);
      var core := FindCoreByVmUUID(uuid, x.ask);
      assert State() == found;
      if core == null || !x.core {
        return false;
      }
      var wasAlive := resources.UnregisterAlive(uuid);
      assert State() == found.(rs := Unregister(found.rs, uuid));
      if x.redis && uuid in redis {
        redis := redis[uuid := redis[uuid].(status := StatusStopped)];
      }
      return true;
    }

    /** cleanupChain.run, for the closures that CreateVM pushes. */
    method RunCleanup(chain: CleanupChain<Compensation>, core: Core, r: Request, fault: Fault)
      requires resources.Valid() && core in resources.cores && r.Create?
      modifies chain, core, guacDB
      ensures chain.steps == [] && resources.Valid()
      ensures State() == Unwind(UndoWith(r, resources.IndexOf(core), fault), old(chain.steps), old(State()))
    {
      ghost var undo := UndoWith(r, resources.IndexOf(core), fault);
      var i := |chain.steps|;
      assert chain.steps[..i] == chain.steps;
      while i > 0
        invariant 0 <= i <= |chain.steps| && chain.steps == old(chain.steps) && resources.Valid()
        invariant Unwind(undo, chain.steps[..i], State()) == Unwind(undo, old(chain.steps), old(State()))
      {
        i := i - 1;
        assert chain.steps[..i + 1][..i] == chain.steps[..i];
        match chain.steps[i]
        case DropGuacamole => var dropped := guacDB.Cleanup(r.uuid, fault);
        case ReleaseResources => resources.DeallocateResources(core, r.uuid, r.hw);
      }
      chain.steps := [];
    }

    method AllocateCmsSubnet(r: Request, x: CreateAnswers)
      returns (resp: Option<CmsResponse>, isNewSubnet: bool, asked: Option<string>)
      requires resources.Valid() && r.Create?
      modifies this`lastSubnet, this`subnetRow
      ensures Everything() == WithSubnet(old(Everything()), r, x)
      ensures resp == if r.subnetType == "Add" && OwnSubnet(old(State()).rs, r.uuid).None? then None
                      else CmsAnswer(old(Everything()), r, x)
      ensures resp.Some? ==> (isNewSubnet <==> r.subnetType != "Add")
      ensures asked == if r.subnetType == "Add" then
                         match RecordedAddress(old(State()).rs, r.uuid)
                         case None => None
                         case Some(ip) => Network.GetSubnetFromIP(ip)
                       else if Network.NextSubnet(old(lastSubnet)).Text? && x.writeAhead then
                         Some(Network.NextSubnet(old(lastSubnet)).value)
                       else None
    {
      hide NewSubnet, OwnSubnet, RecordedAddress, Network.NextSubnet, Network.GetSubnetFromIP;
      if r.subnetType == "Add" {
        resp, asked := AddCmsSubnet(r.uuid, x.cms);
        return resp, false, asked;
      }
      resp, asked := NewCmsSubnet(x);
      isNewSubnet := resp.Some?;
    }

    /** Steps 5 and 6 of CreateVM: charge the core, remember how to undo it, tell Redis. */
    method ReserveVM(r: Request, core: Core, index: nat, newVM: VMInfo,
                     cleanup: CleanupChain<Compensation>, x: CreateAnswers)
      requires resources.Valid() && index < |resources.cores| && resources.cores[index] == core
      requires r.Create? && cleanup.steps == [DropGuacamole]
      modifies this`redis, core, cleanup
      ensures resources.Valid() && cleanup.steps == FULL_CHAIN
      ensures State() == old(State()).(rs := Allocate(old(State()).rs, index, r.uuid, newVM, r.hw))
      ensures redis == if x.redis then old(redis)[r.uuid := RedisInfo(r.hw, newVM.ip, StatusUnknown)] else old(redis)
    {
      hide Allocate;
      ghost var rs := resources.State();
      assert resources.IndexOf(core) == index;
      resources.AllocateResources(core, r.uuid, newVM, r.hw);
      assert resources.State() == Allocate(rs, index, r.uuid, newVM, r.hw);
      cleanup.Push(ReleaseResources);
      if x.redis {
        redis := redis[r.uuid := RedisInfo(r.hw, newVM.ip, StatusUnknown)];
      }
    }

    /** Step 8 of CreateVM. */
    method PersistVM(r: Request, index: nat, newVM: VMInfo, isNewSubnet: bool, x: CreateAnswers) returns (ok: bool)
      requires resources.Valid() && index < |resources.cores| && r.Create?
      modifies this`subnetRow, resources`vmLocation, resources`aliveVM, vmRepo
      ensures resources.Valid() && ok == AddSucceeds(old(State()).tables, newVM.uuid, x.persist)
      ensures State() == if !ok then old(State())
                         else old(State()).(tables := Add(old(State()).tables, newVM, index, x.persist),
                                            rs := Register(old(State()).rs, r.uuid, index, newVM))
      ensures subnetRow == if ok && isNewSubnet && x.correct then newVM.ip else old(subnetRow)
    {
      hide AddSucceeds, Add, Register;
      ghost var before := State();
      var core := resources.cores[index];
      assert resources.IndexOf(core) == index;
      ok := vmRepo.AddInstance(newVM, index, x.persist);
      if !ok {
        AddFails(before.tables, newVM, index, x.persist);
        return false;
      }
      assert resources.State() == before.rs;
      if isNewSubnet && x.correct {
        subnetRow := newVM.ip;
      }
      resources.RegisterVM(r.uuid, core, newVM);
      return true;
    }

    /** Steps 5 to 8 of CreateVM. The chain is empty until here. */
    method PlaceVM(r: Request, core: Core, index: nat, newVM: VMInfo, isNewSubnet: bool, x: CreateAnswers)
      returns (ok: bool)
      requires resources.Valid() && index < |resources.cores| && resources.cores[index] == core
      requires r.Create?
      modifies this`redis, this`subnetRow, resources`vmLocation, resources`aliveVM, core, vmRepo, guacDB
      ensures resources.Valid() && (State(), ok) == Placed(old(State()), r, index, newVM, x)
      ensures redis == if x.redis then old(redis)[r.uuid := RedisInfo(r.hw, newVM.ip, StatusUnknown)] else old(redis)
      ensures subnetRow == if ok && isNewSubnet && x.correct then newVM.ip else old(subnetRow)
    {
      hide AddSucceeds, Add, UndoWith, Unwind, Allocate, Register;
      ghost var before := State();
      var cleanup := new CleanupChain<Compensation>();
      cleanup.Push(DropGuacamole);
      assert State() == before;
      ReserveVM(r, core, index, newVM, cleanup, x);
      assert resources.IndexOf(core) == index;
      ok := x.core;
      if ok {
        ok := PersistVM(r, index, newVM, isNewSubnet, x);
      }
      if !ok {
        RunCleanup(cleanup, core, r, x.cleanUp);
      }
    }

    /** Steps 4 to 8 of CreateVM. */
    method EquipVM(r: Request, core: Core, index: nat, resp: CmsResponse, isNewSubnet: bool, x: CreateAnswers)
      returns (ok: bool)
      requires resources.Valid() && index < |resources.cores| && resources.cores[index] == core
      requires r.Create? && r.users != [] && x.Usable()
      requires isNewSubnet <==> r.subnetType != "Add"
      modifies this`redis, this`subnetRow, resources`vmLocation, resources`aliveVM, core, vmRepo, guacDB
      ensures resources.Valid()
      ensures (Everything(), ok) == Equipped(old(Everything()), r, index, resp, x)
    {
      hide Placed, Allocate, Register, UndoWith, AddSucceeds, G.AfterConfigure;
      ghost var w := Everything();
      ghost var configured := Prepared(w.stores, r, index, resp, x).(rs := w.stores.rs);
      var access := G.Access(resp.ip, r.users[0], x.privateKey);
      var userPass := guacDB.Configure(r.uuid, x.pass, x.credentials, access, x.order, x.configure);
      if userPass == "" {                        // nothing has been pushed that would have to run
        return false;
      }
      assert Everything() == w.(stores := configured);
      hide Prepared;
      var newVM := NewVM(r, resp.ip, resp.mac, userPass);
      ok := PlaceVM(r, core, index, newVM, isNewSubnet, x);
    }

    method CreateVM(r: Request, x: CreateAnswers) returns (ok: bool)
      requires resources.Valid() && r.Create? && x.Usable()
      modifies this`redis, this`lastSubnet, this`subnetRow
      modifies resources`vmLocation, resources`aliveVM, resources.cores, vmRepo, guacDB
      ensures resources.Valid()
      ensures exists choice :: Creates(old(Everything()), r, choice, x, Everything(), ok)
      ensures ok <==> CanCreate(old(Everything()), r, x)
      ensures ok ==> r.users != [] && x.cms.Some? && exists i :: IsCreated(old(Everything()), r, x, i, Everything())
    {
      hide Creates, Equipped, WithSubnet, CmsAnswer, OwnSubnet, CanCreate, IsCreated;
      ghost var w := Everything();
      var selection := resources.SelectCore(r.hw);
      ghost var choice := if selection.core == null then None else Some(selection.index);
      hide FirstFit;
      assert Everything() == w;
      if selection.core == null || !x.keyOk || r.users == [] {
        CreateStopsEarly(w, r, choice, x);
        CreateIs(w, r, choice, x, Everything(), false);
        return false;
      }
      var resp, isNewSubnet, asked := AllocateCmsSubnet(r, x);
      if resp.None? {
        CreateStopsEarly(w, r, choice, x);
        CreateIs(w, r, choice, x, Everything(), false);
        return false;
      }
      CreateGoesOn(w, r, selection.index, resp.value, x);
      ok := EquipVM(r, selection.core, selection.index, resp.value, isNewSubnet, x);
      CreateIs(w, r, choice, x, Everything(), ok);
    }
  }

  // ---------------------------------------------------------------- what the operations guarantee

  /** For a VM about which index and tables agree, a delete that fails leaves the tables, Guacamole, Redis, the cores
      with their counters and records and the list of running VMs as they were; one that succeeds takes the VM out of
      both tables, out of Guacamole if Cleanup works, and out of Redis if Redis works, and touches no other VM. In
      either case no counter and no subnet moves, no location that was known is lost, and the agreement is kept. */
  lemma DeleteIsAllOrNothing(w: Whole, u: UUID, x: DeleteAnswers, cached: bool)
    requires Index.Agrees(w.stores, u, cached) && G.Inv(w.stores.guac)
    ensures var w', ok := AfterDelete(w, u, x), RunCall(w.stores, Delete(u), Idle, DeleteActions(x)).1.Finished?;
            var st, st' := w.stores, w'.stores;
            (ok <==> HasCore(st, u, x.ask) && x.core && (x.purge.None? || x.purge.value > 3)) &&
            st'.rs.cores == st.rs.cores && st'.rs.aliveVM == st.rs.aliveVM &&
            st'.rs.location == LocationAfterLookup(st, u, x.ask) &&
            w'.lastSubnet == w.lastSubnet && w'.subnetRow == w.subnetRow &&
            Index.Agrees(st', u, cached) &&
            (!ok ==> st'.tables == st.tables && st'.guac == st.guac && w'.redis == w.redis) &&
            (ok ==>
               st'.tables == Tables(st.tables.info - {u}, st.tables.loc - {u}) &&
               w'.redis == (if x.redis then w.redis - {u} else w.redis) &&
               GV.View(st'.guac) ==
                 if x.drop.Some? && x.drop.value < 6 then GV.View(st.guac) else GV.View(st.guac) - {u})
  {
    DeleteIs(w, u, x);
    DeleteOutcome(w.stores, u, x);
    hide RunCall, GV.View, G.Inv, G.AfterCleanup;
    GV.ApplyRefines(w.stores.guac, GV.OpCleanup(u, x.drop));
    assert u !in GV.View(w.stores.guac) ==> GV.View(w.stores.guac) - {u} == GV.View(w.stores.guac);
  }

  /** For a stored VM, the address that a delete sends to CMS is the one in inst_info. */
  lemma DeleteReleasesStoredAddress(st: Stores, u: UUID, x: DeleteAnswers, cached: bool)
    requires Index.Agrees(st, u, cached) && u in st.tables.info
    ensures Released(st, u, x) ==
            if Index.FindCore(st, u, x.ask).Some? && x.core then Some(st.tables.info[u].ip) else None
  {
  }

  /** Exactly when the address that is sent is a stored address of the VM: when the VM is still stored. */
  lemma SentAddressIsStoredIffVMIs(st: Stores, u: UUID, x: DeleteAnswers, cached: bool)
    requires Index.Agrees(st, u, cached) && Released(st, u, x).Some?
    ensures u in st.tables.info && st.tables.info[u].ip == Released(st, u, x).value <==> u in st.tables.loc
  {
    if u in st.tables.info {
      DeleteReleasesStoredAddress(st, u, x, cached);
    }
  }

  /** A stale address is the stored address of another VM exactly if the two records have the same address. */
  lemma StaleAddressIsAnothersIff(st: Stores, u: UUID, v: UUID, x: DeleteAnswers, cached: bool)
    requires Index.Agrees(st, u, cached) && Index.Agrees(st, v, true)
    requires u !in st.tables.info && v in st.tables.info && Released(st, u, x).Some?
    ensures LookupVM(st.rs, u).Some? && LookupVM(st.rs, v).Some?
    ensures Released(st, u, x).value == st.tables.info[v].ip <==>
            LookupVM(st.rs, u).value.ip == LookupVM(st.rs, v).value.ip
  {
  }

  /** For a VM that is stored no more it sends the old address again: a delete that follows a successful one asks CMS to
      release what has been released already. */
  lemma SecondDeleteReleasesStaleAddress(st: Stores, u: UUID, x: DeleteAnswers, y: DeleteAnswers)
    requires Index.Agrees(st, u, true) && u in st.tables.info
    requires RunCall(st, Delete(u), Idle, DeleteActions(x)).1.Finished? && y.core
    ensures var st' := RunCall(st, Delete(u), Idle, DeleteActions(x)).0;
            u !in st'.tables.info && Released(st', u, y) == Some(st.tables.info[u].ip) == Released(st, u, x)
  {
    DeleteOutcome(st, u, x);
    hide RunCall, G.AfterCleanup;
    DeleteReleasesStoredAddress(st, u, x, true);
  }

  /** If CMS gives the released address to a VM that is created next, a second delete of the old VM asks CMS to release
      the address of the new one. For a create that gets an address in the new subnet it asked for this cannot be
      (Addresses.StaleReleaseHitsNoOther): it takes an "Add" create over a record that a deleted VM has left, or an
      address outside the subnet. */
  lemma SecondDeleteReleasesAddressInUse(w: Whole, u: UUID, x: DeleteAnswers, y: DeleteAnswers,
                                         r: Request, core: nat, z: CreateAnswers)
    requires Index.Agrees(w.stores, u, true) && u in w.stores.tables.info && r.Create? && r.uuid != u && y.core
    requires RunCall(w.stores, Delete(u), Idle, DeleteActions(x)).1.Finished?
    requires var w1 := w.(stores := RunCall(w.stores, Delete(u), Idle, DeleteActions(x)).0);
             core < |w1.stores.rs.cores| &&
             RunCall(w1.stores, r, Idle, CreateActions(w1, r, Some(core), z)).1.Completed? &&
             CmsAnswer(w1, r, z).Some? && CmsAnswer(w1, r, z).value.ip == w.stores.tables.info[u].ip
    ensures var w1 := w.(stores := RunCall(w.stores, Delete(u), Idle, DeleteActions(x)).0);
            var st := RunCall(w1.stores, r, Idle, CreateActions(w1, r, Some(core), z)).0;
            u !in st.tables.info && r.uuid in st.tables.info &&
            Released(st, u, y) == Some(st.tables.info[r.uuid].ip)
  {
    DeleteOutcome(w.stores, u, x);
    SecondDeleteReleasesStaleAddress(w.stores, u, x, y);
    var w1 := w.(stores := RunCall(w.stores, Delete(u), Idle, DeleteActions(x)).0);
    CreateOutcome(w1, r, Some(core), z);
    hide RunCall, CreateActions, CmsAnswer, G.AfterCleanup, G.AfterConfigure, AddressFails, Unwind, UndoWith, Remove;
    RemoveTakes(Index.AfterFind(w.stores, u, x.ask).tables, u, x.purge);
    var cms := CmsAnswer(w1, r, z);
    var configured := Prepared(w1.stores, r, core, cms.value, z).(rs := w1.stores.rs);
    PlacedKeepsOthers(configured, r, core, NewVM(r, cms.value.ip, cms.value.mac, z.pass), z, u, y);
    SameIndexReleasesTheSame(configured, w1.stores, u, y);
  }

  lemma RemoveTakes(t: Tables, u: UUID, fault: Fault)
    ensures !StrikesBefore(fault, 4) ==> u !in Remove(t, u, fault).info && u !in Remove(t, u, fault).loc
  {
  }

  lemma PlacedKeepsOthers(st: Stores, r: Request, core: nat, vm: VMInfo, x: CreateAnswers, u: UUID, y: DeleteAnswers)
    requires r.Create? && core < |st.rs.cores| && vm.uuid == r.uuid && r.uuid != u && u in st.rs.location
    requires Placed(st, r, core, vm, x).1
    ensures var st' := Placed(st, r, core, vm, x).0;
            Released(st', u, y) == Released(st, u, y) &&
            r.uuid in st'.tables.info && st'.tables.info[r.uuid].ip == vm.ip &&
            (u in st'.tables.info <==> u in st.tables.info)
  {
    hide Unwind, UndoWith;
  }

  lemma SameIndexReleasesTheSame(st: Stores, st': Stores, u: UUID, y: DeleteAnswers)
    requires st'.rs == st.rs && st'.tables == st.tables
    ensures Released(st', u, y) == Released(st, u, y)
  {
  }

  /** A create that fails after its reservation: the instance tables are untouched, Guacamole is cleaned up, and the
      cores are as before exactly if the core had no record of a VM of that name. */
  lemma FailedPlacementRestores(st: Stores, r: Request, core: nat, vm: VMInfo, x: CreateAnswers)
    requires r.Create? && core < |st.rs.cores| && !Placed(st, r, core, vm, x).1
    ensures var st' := Placed(st, r, core, vm, x).0;
            st'.tables == st.tables && st'.guac == G.AfterCleanup(st.guac, r.uuid, x.cleanUp) &&
            st'.rs == Deallocate(Allocate(st.rs, core, r.uuid, vm, r.hw), core, r.uuid, r.hw) &&
            (st'.rs == st.rs <==> r.uuid !in st.rs.cores[core].vms)
  {
    hide G.AfterCleanup, Allocate, Deallocate;
    var undo := UndoWith(r, core, x.cleanUp);
    var reserved := st.(rs := Allocate(st.rs, core, r.uuid, vm, r.hw));
    AllocateKeepsCores(st.rs, core, r, vm);
    var released := undo(reserved, ReleaseResources);
    assert released.rs == Deallocate(reserved.rs, core, r.uuid, r.hw);
    DeallocateKeepsCores(reserved.rs, core, r);
    assert FULL_CHAIN[..1] == [DropGuacamole] && FULL_CHAIN[1] == ReleaseResources && [DropGuacamole][..0] == [];
    assert Unwind(undo, FULL_CHAIN, reserved) == Unwind(undo, [DropGuacamole], released);
    assert Unwind(undo, [DropGuacamole], released) == Unwind(undo, [], undo(released, DropGuacamole));
    DeallocateUndoesAllocate(st.rs, core, r.uuid, vm, r.hw);
  }

  lemma AllocateKeepsCores(s: ResourceState, core: nat, r: Request, vm: VMInfo)
    requires r.Create? && core < |s.cores|
    ensures |Allocate(s, core, r.uuid, vm, r.hw).cores| == |s.cores|
  {
  }

  /** A CreateVM that fails, whether guacamole.Cleanup works or not: the tables are as before; the cores and the index
      are as before exactly if it did not get to its reservation or the chosen core had no record of that UUID; every
      account is as before exactly if it did not get there or the UUID had no account and the cleanup worked. The
      Redis record stays, if it was written. */
  lemma FailedCreateRestoresIff(w: Whole, r: Request, choice: Option<nat>, x: CreateAnswers, w': Whole)
    requires r.Create? && Creates(w, r, choice, x, w', false) && G.Inv(w.stores.guac)
    ensures choice.Some? ==> choice.value < |w.stores.rs.cores|
    ensures w'.stores.tables == w.stores.tables
    ensures w'.stores.rs == w.stores.rs <==>
            !GetsToReserve(w, r, choice, x) || r.uuid !in w.stores.rs.cores[choice.value].vms
    ensures GV.View(w'.stores.guac) == GV.View(w.stores.guac) <==>
            !GetsToReserve(w, r, choice, x) || (r.uuid !in GV.View(w.stores.guac) && CleanUpWorks(x))
    ensures GetsToReserve(w, r, choice, x) ==> (r.uuid in GV.View(w'.stores.guac) <==> !CleanUpWorks(x))
    ensures w'.redis == if GetsToReserve(w, r, choice, x) && x.redis then
                          w.redis[r.uuid := RedisInfo(r.hw, CmsAnswer(w, r, x).value.ip, StatusUnknown)]
                        else w.redis
  {
    CreateOutcome(w, r, choice, x);
    hide RunCall, CreateActions, GV.View, G.Inv, G.AfterCleanup, G.AfterConfigure, CmsAnswer, NewSubnet, Placed;
    hide AddressFails, CleanUpWorks;
    var cms := CmsAnswer(w, r, x);
    if choice.Some? && !AddressFails(w.stores.rs, r, x.keyOk, cms) {
      AddressedByCms(w.stores.rs, r, x.keyOk, cms);
      var user := if r.users == [] then "" else r.users[0];
      var access := G.Access(cms.value.ip, user, x.privateKey);
      var configured := Prepared(w.stores, r, choice.value, cms.value, x).(rs := w.stores.rs);
      assert configured.guac == G.AfterConfigure(w.stores.guac, r.uuid, x.credentials, access, x.configure);
      var vm := NewVM(r, cms.value.ip, cms.value.mac, x.pass);
      if StrikesBefore(x.configure, G.CONFIGURE_STATEMENTS) {
        FailedConfiguration(w.stores.guac, r.uuid, x.credentials, access, x.configure);
      } else {
        FailedPlacementRestores(configured, r, choice.value, vm, x);
        ConfiguredThenCleaned(w.stores.guac, r.uuid, access, x);
      }
    }
  }

  /** The compensating guacamole.Cleanup finds the account that Configure made, and gets to its end. */
  predicate CleanUpWorks(x: CreateAnswers) { !StrikesBefore(x.cleanUp, G.CLEANUP_STATEMENTS) }

  lemma AddressedByCms(rs: ResourceState, r: Request, keyOk: bool, cms: Option<CmsResponse>)
    requires r.Create? && !AddressFails(rs, r, keyOk, cms)
    ensures cms.Some?
  {
  }

  /** In particular, for a UUID that no core has a record of and that has no account, a failing CreateVM leaves cores,
      index and tables as they were, and the accounts unless it has to clean up and cannot. */
  lemma FailedCreateRestores(w: Whole, r: Request, choice: Option<nat>, x: CreateAnswers, w': Whole)
    requires r.Create? && Creates(w, r, choice, x, w', false) && G.Inv(w.stores.guac)
    requires forall i :: 0 <= i < |w.stores.rs.cores| ==> r.uuid !in w.stores.rs.cores[i].vms
    requires r.uuid !in GV.View(w.stores.guac)
    ensures w'.stores.rs == w.stores.rs && w'.stores.tables == w.stores.tables
    ensures GV.View(w'.stores.guac) == GV.View(w.stores.guac) <==>
            !GetsToReserve(w, r, choice, x) || CleanUpWorks(x)
    ensures w'.redis == w.redis || (x.redis && CmsAnswer(w, r, x).Some? && GetsToReserve(w, r, choice, x) &&
              w'.redis == w.redis[r.uuid := RedisInfo(r.hw, CmsAnswer(w, r, x).value.ip, StatusUnknown)])
  {
    FailedCreateRestoresIff(w, r, choice, x, w');
    hide GV.View, G.Inv, Creates, CmsAnswer, AddressFails;
    if GetsToReserve(w, r, choice, x) {
      AddressedByCms(w.stores.rs, r, x.keyOk, CmsAnswer(w, r, x));
    }
  }

  /** And for a stored VM: a create of it that fails after its reservation takes its account away if the cleanup works,
      whichever core was chosen; if not, the account is left with what the failed create configured. It takes the
      agreement about the VM away exactly if the chosen core is the VM's own. */
  lemma FailedCreateOfStoredVM(w: Whole, r: Request, choice: Option<nat>, x: CreateAnswers, w': Whole, cached: bool)
    requires r.Create? && Creates(w, r, choice, x, w', false) && G.Inv(w.stores.guac)
    requires GetsToReserve(w, r, choice, x)
    requires Index.Agrees(w.stores, r.uuid, cached) && r.uuid in w.stores.tables.loc
    ensures r.uuid in w'.stores.tables.loc
    ensures r.uuid in GV.View(w'.stores.guac) <==> !CleanUpWorks(x)
    ensures GV.View(w'.stores.guac) != GV.View(w.stores.guac) || (r.uuid !in GV.View(w.stores.guac) && CleanUpWorks(x))
    ensures Index.Agrees(w'.stores, r.uuid, cached) <==> w.stores.tables.loc[r.uuid] != choice.value
  {
    FailedCreateRestoresIff(w, r, choice, x, w');
    var vm := FailedCreateReleases(w, r, choice, x, w');
    hide GV.View, G.Inv, Creates, CmsAnswer, AddressFails, GetsToReserve;
    ReleasedOrKept(w.stores, w'.stores, r, choice.value, vm, cached);
  }

  lemma FailedCreateReleases(w: Whole, r: Request, choice: Option<nat>, x: CreateAnswers, w': Whole)
    returns (vm: VMInfo)
    requires r.Create? && Creates(w, r, choice, x, w', false) && GetsToReserve(w, r, choice, x)
    ensures choice.Some? && choice.value < |w.stores.rs.cores|
    ensures |Allocate(w.stores.rs, choice.value, r.uuid, vm, r.hw).cores| == |w.stores.rs.cores|
    ensures w'.stores.rs ==
            Deallocate(Allocate(w.stores.rs, choice.value, r.uuid, vm, r.hw), choice.value, r.uuid, r.hw)
  {
    CreateOutcome(w, r, choice, x);
    hide RunCall, CreateActions, G.AfterCleanup, G.AfterConfigure, CmsAnswer, NewSubnet, Placed, AddressFails;
    var cms := CmsAnswer(w, r, x);
    AddressedByCms(w.stores.rs, r, x.keyOk, cms);
    var configured := Prepared(w.stores, r, choice.value, cms.value, x).(rs := w.stores.rs);
    vm := NewVM(r, cms.value.ip, cms.value.mac, x.pass);
    AllocateKeepsCores(w.stores.rs, choice.value, r, vm);
    FailedPlacementRestores(configured, r, choice.value, vm, x);
  }

  lemma ReleasedOrKept(st: Stores, st': Stores, r: Request, core: nat, vm: VMInfo, cached: bool)
    requires r.Create? && core < |st.rs.cores| && Index.Agrees(st, r.uuid, cached) && r.uuid in st.tables.loc
    requires |Allocate(st.rs, core, r.uuid, vm, r.hw).cores| == |st.rs.cores| && st'.tables == st.tables
    requires st'.rs == Deallocate(Allocate(st.rs, core, r.uuid, vm, r.hw), core, r.uuid, r.hw)
    ensures Index.Agrees(st', r.uuid, cached) <==> st.tables.loc[r.uuid] != core
  {
  }

  lemma FailedConfiguration(g: G.Db, u: UUID, credentials: G.Credentials, access: G.Access, fault: Fault)
    requires G.Inv(g) && StrikesBefore(fault, G.CONFIGURE_STATEMENTS)
    ensures GV.View(G.AfterConfigure(g, u, credentials, access, fault)) == GV.View(g)
  {
    hide GV.View, G.Inv, G.AfterConfigure;
    GV.ApplyRefines(g, GV.OpConfigure(u, credentials, access, fault));
  }

  /** A cleanup undoes a configuration exactly if it works and there was no account before. */
  lemma ConfiguredThenCleaned(g: G.Db, u: UUID, access: G.Access, x: CreateAnswers)
    requires G.Inv(g) && !StrikesBefore(x.configure, G.CONFIGURE_STATEMENTS)
    ensures var g1 := G.AfterConfigure(g, u, x.credentials, access, x.configure);
            var g2 := G.AfterCleanup(g1, u, x.cleanUp);
            (u in GV.View(g2) <==> !CleanUpWorks(x)) &&
            (GV.View(g2) == GV.View(g) <==> u !in GV.View(g) && CleanUpWorks(x))
  {
    hide GV.View, G.Inv, G.AfterCleanup, G.AfterConfigure;
    var g1 := G.AfterConfigure(g, u, x.credentials, access, x.configure);
    GV.ApplyRefines(g, GV.OpConfigure(u, x.credentials, access, x.configure));
    GV.ApplyRefines(g1, GV.OpCleanup(u, x.cleanUp));
    var v := GV.View(g);
    var account := GV.Account(x.credentials, GV.Earlier(v, u) + [GV.Granted(access)]);
    assert GV.View(g1) == v[u := account];
    assert v[u := account] - {u} == v - {u};
    assert u !in v ==> v - {u} == v;
    assert u in v ==> |account.connections| == |v[u].connections| + 1;
  }
}

/** Which answers end up in the record of a VM, and what its core was like when it was chosen. */
module SagaAnswers {
  import opened Common
  import opened Resources
  import opened Saga
  import opened SagaLedger
  import G = Guacamole

  /** What Configure was given besides the address. */
  datatype Secrets = Secrets(pass: string, credentials: G.Credentials, privateKey: string)

  /** The answers that one create has got so far. */
  datatype Given = Given(core: Option<nat>, cms: Option<CmsResponse>, secrets: Option<Secrets>)

  const NOTHING: Given := Given(None, None, None)

  /** An answer counts if the create is waiting for it. */
  function Note(p: Phase, a: Action, g: Given): Given {
    match (p, a)
    case (Idle, Select(choice)) => g.(core := choice)
    case (Selected(_), Address(_, cms)) => g.(cms := cms)
    case (Addressed(_, _, _), Configure(pass, credentials, privateKey, _)) =>
      g.(secrets := Some(Secrets(pass, credentials, privateKey)))
    case _ => g
  }

  /** The answers that call k gets in a run, on top of those it has. */
  function Recall(w: World, steps: seq<Step>, k: nat, g: Given): Given
    requires Valid(w) && k < |w.phases|
    decreases |steps|
  {
    if steps == [] then g
    else
      Recall(Apply(w, steps[0]), steps[1..], k,
             if steps[0].call == k then Note(w.phases[k], steps[0].action, g) else g)
  }

  /** The record has the create's own UUID and amounts, the address and MAC address that CMS gave it, and the password
      that was generated for it. */
  predicate IsOwnRecord(r: Request, vm: VMInfo, g: Given) {
    r.Create? && g.cms.Some? && g.secrets.Some? &&
    vm.uuid == r.uuid && vm.hw == r.hw &&
    vm.ip == g.cms.value.ip && vm.mac == g.cms.value.mac && vm.guacPassword == g.secrets.value.pass
  }

  predicate Carries(r: Request, p: Phase, g: Given) {
    match p
    case Selected(core) => g.core == Some(core)
    case Addressed(core, ip, mac) =>
      g.core == Some(core) && r.Create? && r.users != [] &&
      g.cms.Some? && ip == g.cms.value.ip && mac == g.cms.value.mac
    case Reachable(core, vm) => g.core == Some(core) && r.Create? && r.users != [] && IsOwnRecord(r, vm, g)
    case Reserved(core, vm) => g.core == Some(core) && r.Create? && r.users != [] && IsOwnRecord(r, vm, g)
    case Accepted(core, vm) => g.core == Some(core) && r.Create? && r.users != [] && IsOwnRecord(r, vm, g)
    case Persisted(core, vm) => g.core == Some(core) && r.Create? && r.users != [] && IsOwnRecord(r, vm, g)
    case Completed(core, vm) => g.core == Some(core) && r.Create? && r.users != [] && IsOwnRecord(r, vm, g)
    case _ => true
  }

  lemma ActCarries(st: Stores, r: Request, p: Phase, a: Action, g: Given)
    requires r.Create? && Carries(r, p, g)
    ensures Carries(r, Act(st, r, p, a).1, Note(p, a, g))
  {
    hide G.AfterConfigure, G.AfterCleanup;
  }

  /** In every run, whatever else is going on, a create that has reserved its core, or gone further, has the record that
      its own answers make, on the core that was chosen for it. */
  lemma {:induction false} RecordIsOwn(w: World, steps: seq<Step>, k: nat, g: Given)
    requires Valid(w) && k < |w.phases| && w.requests[k].Create? && Carries(w.requests[k], w.phases[k], g)
    ensures var p, now := Exec(w, steps).phases[k], Recall(w, steps, k, g);
            Carries(w.requests[k], p, now) &&
            (p.Reachable? || p.Reserved? || p.Accepted? || p.Persisted? || p.Completed? ==>
               now.core == Some(p.core) && now.cms.Some? && now.secrets.Some? &&
               p.vm == VMInfo(w.requests[k].uuid, now.cms.value.ip, now.secrets.value.pass, now.cms.value.mac,
                              w.requests[k].hw))
    decreases |steps|
  {
    if steps != [] {
      hide Act, Carries, Note;
      var s := steps[0];
      if s.call == k {
        ActCarries(w.stores, w.requests[k], w.phases[k], s.action, g);
      }
      RecordIsOwn(Apply(w, s), steps[1..], k, if s.call == k then Note(w.phases[k], s.action, g) else g);
    }
  }

  // ---------------------------------------------------------------- the chosen core

  function CoreOf(p: Phase): Option<nat> {
    match p
    case Selected(core) => Some(core)
    case Addressed(core, _, _) => Some(core)
    case Reachable(core, _) => Some(core)
    case Reserved(core, _) => Some(core)
    case Accepted(core, _) => Some(core)
    case Persisted(core, _) => Some(core)
    case Completed(core, _) => Some(core)
    case Undoing(core, _) => Some(core)
    case _ => None
  }

  /** Alive, with enough of everything. */
  predicate IsOnOffer(cores: seq<CoreState>, i: nat, hw: Amounts) {
    i < |cores| && cores[i].isAlive &&
    cores[i].free.memory >= hw.memory && cores[i].free.cpu >= hw.cpu && cores[i].free.disk >= hw.disk
  }

  /** Step n selected core i for call k, and i was the first core on offer then. */
  ghost predicate WasFirstOnOffer(w: World, steps: seq<Step>, k: nat, i: nat, n: nat)
    requires Valid(w) && k < |w.phases| && w.requests[k].Create?
  {
    n < |steps| && steps[n] == Step(k, Select(Some(i))) &&
    var cores := Exec(w, steps[..n]).stores.rs.cores;
    IsOnOffer(cores, i, w.requests[k].hw) && forall j :: 0 <= j < i ==> !IsOnOffer(cores, j, w.requests[k].hw)
  }

  lemma {:induction false} CoreStays(w: World, steps: seq<Step>, k: nat)
    requires Valid(w) && k < |w.phases| && w.requests[k].Create? && !w.phases[k].Idle?
    ensures CoreOf(Exec(w, steps).phases[k]).Some? ==> CoreOf(Exec(w, steps).phases[k]) == CoreOf(w.phases[k])
    decreases |steps|
  {
    if steps != [] {
      hide Act, CoreOf;
      var s := steps[0];
      if s.call == k {
        ActKeepsCore(w.stores, w.requests[k], w.phases[k], s.action);
      }
      CoreStays(Apply(w, s), steps[1..], k);
    }
  }

  lemma ActKeepsCore(st: Stores, r: Request, p: Phase, a: Action)
    requires r.Create? && !p.Idle?
    ensures var p' := Act(st, r, p, a).1;
            !p'.Idle? && (CoreOf(p').Some? ==> CoreOf(p') == CoreOf(p))
  {
    hide G.AfterConfigure, G.AfterCleanup, AddressFails;
  }

  lemma ActSelects(st: Stores, r: Request, a: Action)
    requires r.Create?
    ensures var p' := Act(st, r, Idle, a).1;
            p' == Idle || (a.Select? && (p'.Failed? || (a.choice.Some? && p' == Selected(a.choice.value))))
  {
  }

  lemma OnOfferEarlier(w: World, steps: seq<Step>, k: nat, i: nat, n: nat)
    requires Valid(w) && steps != [] && k < |w.phases| && w.requests[k].Create?
    requires WasFirstOnOffer(Apply(w, steps[0]), steps[1..], k, i, n)
    ensures WasFirstOnOffer(w, steps, k, i, n + 1)
  {
    hide Apply, IsOnOffer;
    assert steps[..n + 1][1..] == steps[1..][..n] && steps[..n + 1][0] == steps[0];
  }

  lemma FirstOnOffer(w: World, steps: seq<Step>, k: nat)
    requires Valid(w) && steps != [] && k < |w.phases| && w.requests[k].Create? && w.phases[k].Idle?
    requires steps[0].call == k && steps[0].action.Select? && steps[0].action.choice.Some?
    requires ChoiceIsFirstFit(w, steps[0])
    ensures WasFirstOnOffer(w, steps, k, steps[0].action.choice.value, 0)
  {
    FirstFitIs(w.stores.rs, w.requests[k].hw, steps[0].action.choice);
    hide FirstFit;
    assert steps[..0] == [];
  }

  /** Whatever else is going on: the core of a create was alive and had enough of everything at the moment when the
      create selected it, and was the first such core. */
  lemma {:induction false} ChosenCoreWasOnOffer(w: World, steps: seq<Step>, k: nat)
    requires Valid(w) && ChoosesFirstFit(w, steps)
    requires k < |w.phases| && w.requests[k].Create? && w.phases[k].Idle?
    ensures var p := Exec(w, steps).phases[k];
            CoreOf(p).Some? ==> exists n: nat :: WasFirstOnOffer(w, steps, k, CoreOf(p).value, n)
    decreases |steps|
  {
    if steps != [] {
      hide Act, FirstFit, IsOnOffer, WasFirstOnOffer;
      var s, w1, rest := steps[0], Apply(w, steps[0]), steps[1..];
      if s.call == k {
        ActSelects(w.stores, w.requests[k], s.action);
      }
      if w1.phases[k].Idle? {
        ChosenCoreWasOnOffer(w1, rest, k);
        forall i: nat, n: nat | WasFirstOnOffer(w1, rest, k, i, n) ensures WasFirstOnOffer(w, steps, k, i, n + 1) {
          OnOfferEarlier(w, steps, k, i, n);
        }
      } else {
        CoreStays(w1, rest, k);
        if w1.phases[k].Selected? {
          FirstOnOffer(w, steps, k);
        }
      }
    }
  }

  /** And if there is a core on offer when a create selects, it gets one; if not, it fails and changes nothing. */
  lemma SelectionFailsOnlyForLack(w: World, steps: seq<Step>, n: nat)
    requires Valid(w) && ChoosesFirstFit(w, steps) && n < |steps|
    requires steps[n].call < |w.phases| && w.requests[steps[n].call].Create? && steps[n].action.Select?
    requires Exec(w, steps[..n]).phases[steps[n].call].Idle?
    ensures var k, before, after := steps[n].call, Exec(w, steps[..n]), Exec(w, steps[..n + 1]);
            after.stores == before.stores &&
            if exists i :: 0 <= i < |before.stores.rs.cores| && IsOnOffer(before.stores.rs.cores, i, w.requests[k].hw)
            then after.phases[k].Selected?
            else after.phases[k] == Failed
  {
    var before := Exec(w, steps[..n]);
    FirstFitThen(w, steps, n);
    assert steps[..n + 1] == steps[..n] + [steps[n]];
    ExecConcat(w, steps[..n], [steps[n]]);
    assert [steps[n]][1..] == [];
    var hw, choice := w.requests[steps[n].call].hw, steps[n].action.choice;
    FirstFitIs(before.stores.rs, hw, choice);
    assert choice.Some? ==> IsOnOffer(before.stores.rs.cores, choice.value, hw);
  }

  lemma {:induction false} FirstFitThen(w: World, steps: seq<Step>, n: nat)
    requires Valid(w) && ChoosesFirstFit(w, steps) && n < |steps|
    ensures ChoiceIsFirstFit(Exec(w, steps[..n]), steps[n])
    decreases n
  {
    if n > 0 {
      hide Apply, ChoiceIsFirstFit;
      assert steps[..n][1..] == steps[1..][..n - 1] && steps[..n][0] == steps[0];
      FirstFitThen(Apply(w, steps[0]), steps[1..], n - 1);
    }
  }
}

/** What the free counters of the cores stand for while creates run, fail and roll back in any interleaving. */
module SagaLedger {
  import opened Common
  import opened Resources
  import opened Saga
  import G = Guacamole
  import Instances

  // ---------------------------------------------------------------- the ledger

  /** The call holds resources of the core: reserved and not given back. */
  predicate HoldsOn(p: Phase, i: nat) {
    match p
    case Reserved(core, _) => core == i
    case Accepted(core, _) => core == i
    case Persisted(core, _) => core == i
    case Completed(core, _) => core == i
    case Undoing(core, chain) => core == i && ReleaseResources in chain
    case _ => false
  }

  function Cost(r: Request, p: Phase, i: nat, kind: Kind): nat {
    if r.Create? && HoldsOn(p, i) then Get(r.hw, kind) else 0
  }

  /** The sum of what all calls hold of core i. */
  function Held(requests: seq<Request>, phases: seq<Phase>, i: nat, kind: Kind): nat
    requires |requests| == |phases|
  {
    if phases == [] then 0
    else
      var n := |phases| - 1;
      Held(requests[..n], phases[..n], i, kind) + Cost(requests[n], phases[n], i, kind)
  }

  function HeldIn(w: World, i: nat, kind: Kind): nat
    requires Valid(w)
  {
    Held(w.requests, w.phases, i, kind)
  }

  lemma {:induction false} HeldUpdate(requests: seq<Request>, phases: seq<Phase>, k: nat, p: Phase, i: nat, kind: Kind)
    requires |requests| == |phases| && k < |phases|
    ensures Held(requests, phases[k := p], i, kind) ==
            Held(requests, phases, i, kind) - Cost(requests[k], phases[k], i, kind) + Cost(requests[k], p, i, kind)
    decreases |phases|
  {
    var n := |phases| - 1;
    if k == n {
      assert phases[k := p][..n] == phases[..n];
    } else {
      assert phases[k := p][..n] == phases[..n][k := p];
      HeldUpdate(requests[..n], phases[..n], k, p, i, kind);
    }
  }

  lemma {:induction false} HeldIncludes(requests: seq<Request>, phases: seq<Phase>, k: nat, i: nat, kind: Kind)
    requires |requests| == |phases| && k < |phases|
    ensures Held(requests, phases, i, kind) >= Cost(requests[k], phases[k], i, kind)
    decreases |phases|
  {
    var n := |phases| - 1;
    if k < n {
      HeldIncludes(requests[..n], phases[..n], k, i, kind);
    }
  }

  lemma {:induction false} NothingHeld(requests: seq<Request>, phases: seq<Phase>, i: nat, kind: Kind)
    requires |requests| == |phases| && forall k :: 0 <= k < |phases| ==> phases[k] == Idle
    ensures Held(requests, phases, i, kind) == 0
    decreases |phases|
  {
    if phases != [] {
      var n := |phases| - 1;
      NothingHeld(requests[..n], phases[..n], i, kind);
    }
  }

  // ---------------------------------------------------------------- conservation

  function FreeOf(st: Stores, i: nat, kind: Kind): U32
    requires i < |st.rs.cores|
  {
    Get(st.rs.cores[i].free, kind)
  }

  /** Every counter is the startup value minus what is held, modulo 2^32. */
  ghost predicate Conserved(w: World, start: seq<CoreState>)
    requires Valid(w)
  {
    |w.stores.rs.cores| == |start| &&
    forall i: nat, kind :: i < |start| ==>
      FreeOf(w.stores, i, kind) == (Get(start[i].free, kind) - HeldIn(w, i, kind)) % WORD
  }

  lemma SubMod(x: int, y: int)
    ensures (x % WORD - y) % WORD == (x - y) % WORD
    ensures (x % WORD + y) % WORD == (x + y) % WORD
  {
    var q := x / WORD;
    assert x == q * WORD + x % WORD;
    AddMultiple(x % WORD - y, q);
    AddMultiple(x % WORD + y, q);
  }

  lemma AddMultiple(x: int, q: int)
    ensures (x + q * WORD) % WORD == x % WORD
  {
    var a, b := (x + q * WORD) / WORD, x / WORD;
    assert x + q * WORD == a * WORD + (x + q * WORD) % WORD;
    assert x == b * WORD + x % WORD;
  }

  lemma GetCharge(free: Amounts, req: Amounts, kind: Kind)
    ensures Get(Charge(free, req), kind) == (Get(free, kind) - Get(req, kind)) % WORD
    ensures Get(Refund(free, req), kind) == (Get(free, kind) + Get(req, kind)) % WORD
  {
  }

  /** One action changes each counter by what the acting call gives back or takes. */
  lemma ActMovesFree(st: Stores, r: Request, p: Phase, a: Action, i: nat, kind: Kind)
    requires PhaseOk(st, r, p) && i < |st.rs.cores|
    ensures var (st', p') := Act(st, r, p, a);
            |st'.rs.cores| == |st.rs.cores| &&
            FreeOf(st', i, kind) ==
              (FreeOf(st, i, kind) + Cost(r, p, i, kind) - Cost(r, p', i, kind)) % WORD
  {
    hide G.AfterConfigure, G.AfterCleanup, AddressFails, Instances.Add, Instances.AddSucceeds, Charge, Refund;
    if r.Create? {
      GetCharge(st.rs.cores[i].free, r.hw, kind);
    }
    if r.Create? && p.Undoing? {
      assert FULL_CHAIN[..1] == [DropGuacamole] && FULL_CHAIN[1] == ReleaseResources;
    } else if r.Create? && p.Reachable? && a.Reserve? {
    } else {
      OthersKeepFree(st, r, p, a);
    }
  }

  /** Only a reservation and its compensation touch the cores. */
  lemma OthersKeepFree(st: Stores, r: Request, p: Phase, a: Action)
    requires !(r.Create? && (p.Undoing? || (p.Reachable? && a.Reserve?)))
    ensures var (st', p') := Act(st, r, p, a);
            st'.rs.cores == st.rs.cores && forall i, kind :: Cost(r, p', i, kind) == Cost(r, p, i, kind)
  {
    hide G.AfterConfigure, G.AfterCleanup, AddressFails, Instances.Add, Instances.AddSucceeds;
  }

  lemma ApplyConserves(w: World, s: Step, start: seq<CoreState>)
    requires PhasesOk(w) && Conserved(w, start)
    ensures PhasesOk(Apply(w, s)) && Conserved(Apply(w, s), start)
  {
    ApplyKeepsPhasesOk(w, s);
    if s.call < |w.phases| {
      hide Act, PhaseOk, Cost, Held;
      var w' := Apply(w, s);
      forall i: nat, kind | i < |start|
        ensures FreeOf(w'.stores, i, kind) == (Get(start[i].free, kind) - HeldIn(w', i, kind)) % WORD
      {
        ApplyConservesAt(w, s, i, kind, Get(start[i].free, kind));
      }
    }
  }

  lemma ApplyConservesAt(w: World, s: Step, i: nat, kind: Kind, start: int)
    requires PhasesOk(w) && s.call < |w.phases| && i < |w.stores.rs.cores|
    requires FreeOf(w.stores, i, kind) == (start - HeldIn(w, i, kind)) % WORD
    ensures i < |Apply(w, s).stores.rs.cores|
    ensures FreeOf(Apply(w, s).stores, i, kind) == (start - HeldIn(Apply(w, s), i, kind)) % WORD
  {
    hide Act, PhaseOk, Cost, Held;
    var k, w' := s.call, Apply(w, s);
    ActMovesFree(w.stores, w.requests[k], w.phases[k], s.action, i, kind);
    HeldUpdate(w.requests, w.phases, k, w'.phases[k], i, kind);
    SubMod(start - HeldIn(w, i, kind),
           Cost(w.requests[k], w.phases[k], i, kind) - Cost(w.requests[k], w'.phases[k], i, kind));
  }

  /** Conservation in every interleaving: any calls, any answers, any failures, duplicate UUIDs included. */
  lemma {:induction false} Conservation(w: World, steps: seq<Step>, start: seq<CoreState>)
    requires PhasesOk(w) && Conserved(w, start)
    ensures PhasesOk(Exec(w, steps)) && Conserved(Exec(w, steps), start)
    decreases |steps|
  {
    if steps != [] {
      ApplyConserves(w, steps[0], start);
      Conservation(Apply(w, steps[0]), steps[1..], start);
    }
  }

  lemma StartConserved(w: World)
    requires AllIdle(w)
    ensures PhasesOk(w) && Conserved(w, w.stores.rs.cores)
  {
    forall i: nat, kind | i < |w.stores.rs.cores| ensures HeldIn(w, i, kind) == 0 {
      NothingHeld(w.requests, w.phases, i, kind);
    }
  }

  // ---------------------------------------------------------------- over-commitment

  ghost predicate Exact(w: World, start: seq<CoreState>)
    requires Valid(w)
  {
    |w.stores.rs.cores| == |start| &&
    forall i: nat, kind :: i < |start| ==>
      FreeOf(w.stores, i, kind) + HeldIn(w, i, kind) == Get(start[i].free, kind)
  }

  /** In every reachable state a counter tells the truth exactly if no more is held than there was. */
  lemma TruthfulIffFits(w: World, steps: seq<Step>, i: nat, kind: Kind)
    requires AllIdle(w) && i < |w.stores.rs.cores|
    ensures var w' := Exec(w, steps);
            i < |w'.stores.rs.cores| &&
            (FreeOf(w'.stores, i, kind) + HeldIn(w', i, kind) == FreeOf(w.stores, i, kind) <==>
             HeldIn(w', i, kind) <= FreeOf(w.stores, i, kind))
  {
    StartConserved(w);
    Conservation(w, steps, w.stores.rs.cores);
  }

  /** The call has chosen core i and has not reserved on it yet. */
  predicate PendingOn(p: Phase, i: nat) {
    match p
    case Selected(core) => core == i
    case Addressed(core, _, _) => core == i
    case Reachable(core, _) => core == i
    case _ => false
  }

  predicate IsReservation(w: World, s: Step)
    requires Valid(w)
  {
    s.call < |w.phases| && s.action.Reserve? && w.phases[s.call].Reachable? && w.requests[s.call].Create?
  }

  predicate ReservesLater(w: World, steps: seq<Step>, k: nat)
    requires Valid(w)
    decreases |steps|
  {
    steps != [] &&
    ((IsReservation(w, steps[0]) && steps[0].call == k) || ReservesLater(Apply(w, steps[0]), steps[1..], k))
  }

  /** Between a call's choice of a core and its reservation there, no other call reserves on that core. */
  ghost predicate NoRival(w: World, steps: seq<Step>)
    requires Valid(w)
    decreases |steps|
  {
    steps == [] ||
    (NoRival(Apply(w, steps[0]), steps[1..]) &&
     (IsReservation(w, steps[0]) ==>
        forall k :: 0 <= k < |w.phases| && k != steps[0].call && PendingOn(w.phases[k], w.phases[steps[0].call].core)
          ==> !ReservesLater(Apply(w, steps[0]), steps[1..], k)))
  }

  /** Cores are chosen by SelectCore. */
  ghost predicate ChoosesFirstFit(w: World, steps: seq<Step>)
    requires Valid(w)
    decreases |steps|
  {
    steps == [] ||
    (ChoosesFirstFit(Apply(w, steps[0]), steps[1..]) &&
     ChoiceIsFirstFit(w, steps[0]))
  }

  ghost predicate ChoiceIsFirstFit(w: World, s: Step)
    requires Valid(w)
  {
    s.call < |w.phases| && s.action.Select? && w.requests[s.call].Create? && w.phases[s.call].Idle? ==>
      FirstFit(w.stores.rs, w.requests[s.call].hw, s.action.choice)
  }

  /** Everyone who will still reserve finds enough left. */
  ghost predicate Promised(w: World, steps: seq<Step>)
    requires Valid(w)
  {
    forall k, i: nat
    | 0 <= k < |w.phases| && i < |w.stores.rs.cores| && PendingOn(w.phases[k], i) &&
      w.requests[k].Create? && ReservesLater(w, steps, k)
    :: Covers(w.stores.rs.cores[i].free, w.requests[k].hw)
  }

  ghost predicate ExactThroughout(w: World, steps: seq<Step>, start: seq<CoreState>)
    requires Valid(w)
    decreases |steps|
  {
    Exact(w, start) && (steps != [] ==> ExactThroughout(Apply(w, steps[0]), steps[1..], start))
  }

  lemma ActExactly(st: Stores, r: Request, p: Phase, a: Action, i: nat, kind: Kind)
    requires PhaseOk(st, r, p) && i < |st.rs.cores|
    requires r.Create? && p.Reachable? && a.Reserve? ==> Covers(st.rs.cores[p.core].free, r.hw)
    requires FreeOf(st, i, kind) + Cost(r, p, i, kind) < WORD
    ensures var (st', p') := Act(st, r, p, a);
            |st'.rs.cores| == |st.rs.cores| &&
            FreeOf(st', i, kind) == FreeOf(st, i, kind) + Cost(r, p, i, kind) - Cost(r, p', i, kind)
  {
    ActMovesFree(st, r, p, a, i, kind);
  }

  lemma ApplyExactly(w: World, s: Step, start: seq<CoreState>)
    requires PhasesOk(w) && Exact(w, start)
    requires IsReservation(w, s) ==> Covers(w.stores.rs.cores[w.phases[s.call].core].free, w.requests[s.call].hw)
    ensures Exact(Apply(w, s), start)
  {
    ApplyKeepsPhasesOk(w, s);
    if s.call < |w.phases| {
      hide Act, PhaseOk, Cost;
      var k, w' := s.call, Apply(w, s);
      forall i: nat, kind | i < |start|
        ensures FreeOf(w'.stores, i, kind) + HeldIn(w', i, kind) == Get(start[i].free, kind)
      {
        HeldIncludes(w.requests, w.phases, k, i, kind);
        ActExactly(w.stores, w.requests[k], w.phases[k], s.action, i, kind);
        HeldUpdate(w.requests, w.phases, k, w'.phases[k], i, kind);
      }
    }
  }

  /** The core of a reservation still covers it when AllocateResources gets the lock; it does not look again. */
  predicate ReservationCovered(w: World, s: Step)
    requires Valid(w)
  {
    IsReservation(w, s) && w.phases[s.call].core < |w.stores.rs.cores| ==>
      Covers(w.stores.rs.cores[w.phases[s.call].core].free, w.requests[s.call].hw)
  }

  predicate CoveredThroughout(w: World, steps: seq<Step>)
    requires Valid(w)
    decreases |steps|
  {
    steps == [] || (ReservationCovered(w, steps[0]) && CoveredThroughout(Apply(w, steps[0]), steps[1..]))
  }

  lemma UncoveredReservationWraps(w: World, s: Step, start: seq<CoreState>)
    requires PhasesOk(w) && Exact(w, start) && !ReservationCovered(w, s)
    ensures !Exact(Apply(w, s), start)
  {
    hide Act, Cost, HeldIn, PhaseOk;
    var k := s.call;
    var r, p := w.requests[k], w.phases[k];
    var i: nat := p.core;
    var kind := ShortOf(w.stores.rs.cores[i].free, r.hw);
    assert PhaseOk(w.stores, r, p);
    ActMovesFree(w.stores, r, p, s.action, i, kind);
    HeldUpdate(w.requests, w.phases, k, Apply(w, s).phases[k], i, kind);
    ReservationCosts(w.stores, r, p, i, kind);
    HeldInIs(w, i, kind);
    HeldInIs(Apply(w, s), i, kind);
    assert FreeOf(w.stores, i, kind) + HeldIn(w, i, kind) == Get(start[i].free, kind);
    assert FreeOf(Apply(w, s).stores, i, kind) + HeldIn(Apply(w, s), i, kind) != Get(start[i].free, kind);
  }

  lemma HeldInIs(w: World, i: nat, kind: Kind)
    requires Valid(w)
    ensures HeldIn(w, i, kind) == Held(w.requests, w.phases, i, kind)
  {
  }

  function ShortOf(free: Amounts, req: Amounts): (kind: Kind)
    requires !Covers(free, req)
    ensures Get(free, kind) < Get(req, kind)
  {
    if free.memory < req.memory then Memory else if free.cpu < req.cpu then Cpu else Disk
  }

  lemma ReservationCosts(st: Stores, r: Request, p: Phase, i: nat, kind: Kind)
    requires PhaseOk(st, r, p) && r.Create? && p.Reachable? && p.core == i
    ensures Cost(r, p, i, kind) == 0 && Cost(r, Act(st, r, p, Reserve).1, i, kind) == Get(r.hw, kind)
  {
  }

  /** Exactly when the counters stay true: over any run from an exact state no addition or subtraction wraps, at any
      step, if and only if every reservation finds its core still covering it. */
  lemma {:induction false} NeverWrapsIffCovered(w: World, steps: seq<Step>, start: seq<CoreState>)
    requires PhasesOk(w) && Exact(w, start)
    ensures ExactThroughout(w, steps, start) <==> CoveredThroughout(w, steps)
    decreases |steps|
  {
    if steps != [] {
      hide PhasesOk, Exact, Apply, ReservationCovered;
      var s := steps[0];
      ApplyKeepsPhasesOk(w, s);
      if ReservationCovered(w, s) {
        CoveredStepIsExact(w, s, start);
        NeverWrapsIffCovered(Apply(w, s), steps[1..], start);
      } else {
        UncoveredReservationWraps(w, s, start);
        NotExactAtOnce(Apply(w, s), steps[1..], start);
      }
    }
  }

  lemma CoveredStepIsExact(w: World, s: Step, start: seq<CoreState>)
    requires PhasesOk(w) && Exact(w, start) && ReservationCovered(w, s)
    ensures Exact(Apply(w, s), start)
  {
    hide Exact;
    if IsReservation(w, s) {
      assert PhaseOk(w.stores, w.requests[s.call], w.phases[s.call]);
    }
    ApplyExactly(w, s, start);
  }

  lemma NotExactAtOnce(w: World, steps: seq<Step>, start: seq<CoreState>)
    requires Valid(w) && !Exact(w, start)
    ensures !ExactThroughout(w, steps, start)
  {
  }

  /** Only a reservation makes less of a core free, and only a choice makes a call pending. */
  lemma ActFreeGrows(st: Stores, r: Request, p: Phase, a: Action, i: nat)
    requires PhaseOk(st, r, p) && i < |st.rs.cores|
    requires !(r.Create? && p.Reachable? && a.Reserve? && p.core == i)
    requires forall kind :: FreeOf(st, i, kind) + Cost(r, p, i, kind) < WORD
    ensures |Act(st, r, p, a).0.rs.cores| == |st.rs.cores|
    ensures forall req :: Covers(st.rs.cores[i].free, req) ==> Covers(Act(st, r, p, a).0.rs.cores[i].free, req)
  {
    if r.Create? && p.Undoing? {
      assert FULL_CHAIN[..1] == [DropGuacamole] && FULL_CHAIN[1] == ReleaseResources;
      assert FreeOf(st, i, Memory) + Cost(r, p, i, Memory) < WORD;
      assert FreeOf(st, i, Cpu) + Cost(r, p, i, Cpu) < WORD;
      assert FreeOf(st, i, Disk) + Cost(r, p, i, Disk) < WORD;
    }
  }

  lemma ActPending(st: Stores, r: Request, p: Phase, a: Action, i: nat)
    requires PhaseOk(st, r, p)
    ensures PendingOn(Act(st, r, p, a).1, i) ==>
              PendingOn(p, i) || (r.Create? && p.Idle? && a.Select? && a.choice == Some(i) && Act(st, r, p, a).0 == st)
  {
  }

  lemma ApplyKeepsPromise(w: World, steps: seq<Step>, start: seq<CoreState>)
    requires PhasesOk(w) && Exact(w, start) && steps != []
    requires Promised(w, steps) && NoRival(w, steps) && ChoiceIsFirstFit(w, steps[0])
    ensures Promised(Apply(w, steps[0]), steps[1..])
  {
    var s, w' := steps[0], Apply(w, steps[0]);
    ApplyKeepsPhasesOk(w, s);
    forall k, i: nat | 0 <= k < |w'.phases| && i < |w'.stores.rs.cores| && PendingOn(w'.phases[k], i) &&
                       w'.requests[k].Create? && ReservesLater(w', steps[1..], k)
      ensures Covers(w'.stores.rs.cores[i].free, w'.requests[k].hw)
    {
      if s.call < |w.phases| {
        PromiseKept(w, steps, start, k, i);
      }
    }
  }

  lemma PromiseKept(w: World, steps: seq<Step>, start: seq<CoreState>, k: nat, i: nat)
    requires PhasesOk(w) && Exact(w, start) && steps != [] && steps[0].call < |w.phases|
    requires Promised(w, steps) && NoRival(w, steps) && ChoiceIsFirstFit(w, steps[0])
    requires k < |w.phases| && i < |w.stores.rs.cores| && w.requests[k].Create?
    requires PendingOn(Apply(w, steps[0]).phases[k], i) && ReservesLater(Apply(w, steps[0]), steps[1..], k)
    ensures i < |Apply(w, steps[0]).stores.rs.cores|
    ensures Covers(Apply(w, steps[0]).stores.rs.cores[i].free, w.requests[k].hw)
  {
    hide Act, PhaseOk, Cost, Covers;
    var s := steps[0];
    var st, r, p := w.stores, w.requests[s.call], w.phases[s.call];
    assert ReservesLater(w, steps, k);
    ActPending(st, r, p, s.action, i);
    if s.call == k && !PendingOn(p, i) {
      FitIsCovered(w, s, i);
    } else {
      assert PendingOn(w.phases[k], i);
      assert Covers(st.rs.cores[i].free, w.requests[k].hw);
      if r.Create? && p.Reachable? && s.action.Reserve? {
        ReservationEndsPending(st, r, p, s.action, i);
      }
      forall kind ensures FreeOf(st, i, kind) + Cost(r, p, i, kind) < WORD {
        HeldIncludes(w.requests, w.phases, s.call, i, kind);
      }
      ActFreeGrows(st, r, p, s.action, i);
    }
  }

  lemma FitIsCovered(w: World, s: Step, i: nat)
    requires s.call < |w.phases| && Valid(w) && w.requests[s.call].Create? && w.phases[s.call].Idle?
    requires s.action.Select? && s.action.choice == Some(i) && ChoiceIsFirstFit(w, s)
    ensures i < |w.stores.rs.cores| && Covers(w.stores.rs.cores[i].free, w.requests[s.call].hw)
  {
  }

  lemma ReservationEndsPending(st: Stores, r: Request, p: Phase, a: Action, i: nat)
    requires PhaseOk(st, r, p) && r.Create? && p.Reachable? && a.Reserve?
    ensures !PendingOn(Act(st, r, p, a).1, i)
  {
  }

  /** No over-commit: if cores are chosen by first fit and nobody reserves on a core between another call's choice
      and its reservation, then no addition or subtraction wraps at any step of the run. */
  lemma {:induction false} NoOvercommit(w: World, steps: seq<Step>, start: seq<CoreState>)
    requires PhasesOk(w) && Exact(w, start)
    requires ChoosesFirstFit(w, steps) && NoRival(w, steps) && Promised(w, steps)
    ensures ExactThroughout(w, steps, start)
    decreases |steps|
  {
    if steps != [] {
      var s := steps[0];
      if IsReservation(w, s) {
        assert ReservesLater(w, steps, s.call);
        assert PendingOn(w.phases[s.call], w.phases[s.call].core);
        assert PhaseOk(w.stores, w.requests[s.call], w.phases[s.call]);
      }
      ApplyKeepsPhasesOk(w, s);
      ApplyExactly(w, s, start);
      ApplyKeepsPromise(w, steps, start);
      NoOvercommit(Apply(w, s), steps[1..], start);
    }
  }

  lemma NoOvercommitFromStart(w: World, steps: seq<Step>)
    requires AllIdle(w) && ChoosesFirstFit(w, steps) && NoRival(w, steps)
    ensures ExactThroughout(w, steps, w.stores.rs.cores)
  {
    StartConserved(w);
    forall i: nat, kind | i < |w.stores.rs.cores| ensures HeldIn(w, i, kind) == 0 {
      NothingHeld(w.requests, w.phases, i, kind);
    }
    NoOvercommit(w, steps, w.stores.rs.cores);
  }

  // ---------------------------------------------------------------- rivals

  lemma {:induction false} ExecConcat(w: World, a: seq<Step>, b: seq<Step>)
    requires Valid(w)
    ensures Exec(w, a + b) == Exec(Exec(w, a), b)
    decreases |a|
  {
    if a == [] {
      assert a + b == b;
    } else {
      assert (a + b)[1..] == a[1..] + b;
      ExecConcat(Apply(w, a[0]), a[1..], b);
    }
  }

  lemma {:induction false} FirstFitConcat(w: World, a: seq<Step>, b: seq<Step>)
    requires Valid(w) && ChoosesFirstFit(w, a) && ChoosesFirstFit(Exec(w, a), b)
    ensures ChoosesFirstFit(w, a + b)
    decreases |a|
  {
    if a == [] {
      assert a + b == b;
    } else {
      assert (a + b)[1..] == a[1..] + b;
      FirstFitConcat(Apply(w, a[0]), a[1..], b);
    }
  }

  /** The answers one create gets up to its reservation. */
  datatype Answers = Answers(cms: CmsResponse, pass: string, credentials: G.Credentials, privateKey: string)

  function ToReservation(k: nat, x: Answers): seq<Step> {
    [Step(k, Address(true, Some(x.cms))),
     Step(k, Configure(x.pass, x.credentials, x.privateKey, None)),
     Step(k, Reserve)]
  }

  lemma ReservesAlone(w: World, k: nat, i: nat, x: Answers) returns (vm: VMInfo)
    requires Valid(w) && k < |w.phases| && i < |w.stores.rs.cores| && w.phases[k] == Selected(i)
    requires w.requests[k].Create? && w.requests[k].users != [] && w.requests[k].subnetType != "Add"
    ensures var r, w' := w.requests[k], Exec(w, ToReservation(k, x));
            w'.stores.rs == Allocate(w.stores.rs, i, r.uuid, vm, r.hw) &&
            w'.phases == w.phases[k := Reserved(i, vm)]
    ensures ChoosesFirstFit(w, ToReservation(k, x))
  {
    hide G.AfterConfigure, Allocate, ChoosesFirstFit;
    var steps := ToReservation(k, x);
    var w1 := Apply(w, steps[0]);
    var w2 := Apply(w1, steps[1]);
    var w3 := Apply(w2, steps[2]);
    vm := w2.phases[k].vm;
    assert w3.phases == w.phases[k := Reserved(i, vm)];
    ThreeSteps(w, steps[0], steps[1], steps[2]);
    NoChoices(w, steps);
  }

  lemma ThreeSteps(w: World, a: Step, b: Step, c: Step)
    requires Valid(w)
    ensures Exec(w, [a, b, c]) == Apply(Apply(Apply(w, a), b), c)
  {
    hide Apply;
    assert [a, b, c][1..] == [b, c] && [b, c][1..] == [c] && [c][1..] == [];
    assert Exec(w, [a, b, c]) == Exec(Apply(w, a), [b, c]);
    assert Exec(Apply(w, a), [b, c]) == Exec(Apply(Apply(w, a), b), [c]);
  }

  lemma {:induction false} NoChoices(w: World, steps: seq<Step>)
    requires Valid(w) && forall i :: 0 <= i < |steps| ==> !steps[i].action.Select?
    ensures ChoosesFirstFit(w, steps)
    decreases |steps|
  {
    if steps != [] {
      NoChoices(Apply(w, steps[0]), steps[1..]);
    }
  }

  function RivalRun(j: nat, k: nat, i: nat, x: Answers, y: Answers): seq<Step> {
    [Step(j, Select(Some(i))), Step(k, Select(Some(i)))] + (ToReservation(j, x) + ToReservation(k, y))
  }

  /** Without that condition the counters do wrap: whenever two creates fit on a core each, but not together,
      there is a run with first-fit choices after which the core claims to have almost 2^32 free. */
  lemma RivalsOvercommit(w: World, j: nat, k: nat, i: nat, x: Answers, y: Answers, kind: Kind)
    requires AllIdle(w) && j < |w.phases| && k < |w.phases| && j != k
    requires forall c | c in {j, k} ::
               w.requests[c].Create? && w.requests[c].users != [] && w.requests[c].subnetType != "Add"
    requires FirstFit(w.stores.rs, w.requests[j].hw, Some(i)) && FirstFit(w.stores.rs, w.requests[k].hw, Some(i))
    requires FreeOf(w.stores, i, kind) < Get(w.requests[j].hw, kind) + Get(w.requests[k].hw, kind)
    ensures var w' := Exec(w, RivalRun(j, k, i, x, y));
            i < |w'.stores.rs.cores| &&
            FreeOf(w'.stores, i, kind) ==
              FreeOf(w.stores, i, kind) - Get(w.requests[j].hw, kind) - Get(w.requests[k].hw, kind) + WORD
    ensures ChoosesFirstFit(w, RivalRun(j, k, i, x, y))
  {
    hide FirstFit, ToReservation, ChoosesFirstFit, Exec;
    var w2 := BothChoose(w, j, k, i);
    var vmJ := ReservesAlone(w2, j, i, x);
    var w3 := Exec(w2, ToReservation(j, x));
    var vmK := ReservesAlone(w3, k, i, y);
    var choose := [Step(j, Select(Some(i))), Step(k, Select(Some(i)))];
    ExecConcat(w2, ToReservation(j, x), ToReservation(k, y));
    ExecConcat(w, choose, ToReservation(j, x) + ToReservation(k, y));
    FirstFitConcat(w2, ToReservation(j, x), ToReservation(k, y));
    FirstFitConcat(w, choose, ToReservation(j, x) + ToReservation(k, y));
    hide Charge;
    TwoCharges(w.stores.rs.cores[i].free, w.requests[j].hw, w.requests[k].hw, kind);
  }

  lemma TwoCharges(free: Amounts, a: Amounts, b: Amounts, kind: Kind)
    requires Covers(free, a) && Covers(free, b) && Get(free, kind) < Get(a, kind) + Get(b, kind)
    ensures Get(Charge(Charge(free, a), b), kind) == Get(free, kind) - Get(a, kind) - Get(b, kind) + WORD
  {
    hide Charge;
    GetCharge(free, a, kind);
    GetCharge(Charge(free, a), b, kind);
    WrapsOnce(Get(free, kind), Get(a, kind), Get(b, kind));
  }

  lemma WrapsOnce(f: U32, a: U32, b: U32)
    requires a <= f && b <= f < a + b
    ensures ((f - a) % WORD - b) % WORD == f - a - b + WORD
  {
  }

  lemma BothChoose(w: World, j: nat, k: nat, i: nat) returns (w2: World)
    requires AllIdle(w) && j < |w.phases| && k < |w.phases| && j != k
    requires w.requests[j].Create? && w.requests[k].Create?
    requires FirstFit(w.stores.rs, w.requests[j].hw, Some(i)) && FirstFit(w.stores.rs, w.requests[k].hw, Some(i))
    ensures var choose := [Step(j, Select(Some(i))), Step(k, Select(Some(i)))];
            w2 == Exec(w, choose) && ChoosesFirstFit(w, choose)
    ensures w2 == World(w.stores, w.requests, w.phases[j := Selected(i)][k := Selected(i)])
    ensures i < |w.stores.rs.cores| && Covers(w.stores.rs.cores[i].free, w.requests[j].hw)
            && Covers(w.stores.rs.cores[i].free, w.requests[k].hw)
  {
    var a, b := Step(j, Select(Some(i))), Step(k, Select(Some(i)));
    var w1 := Apply(w, a);
    w2 := Apply(w1, b);
    assert [a, b][1..] == [b] && [b][1..] == [];
    assert Exec(w1, [b]) == w2;
    assert ChoosesFirstFit(w2, []) && ChoosesFirstFit(w1, [b]);
  }
}

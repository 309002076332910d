/** VMLocation as a cache of inst_loc: entries may be lost, and nobody notices. */
module SagaCache {
  import opened Common
  import opened Resources
  import opened Instances
  import opened Saga
  import opened SagaIndex
  import G = Guacamole
  import Network

  /** VMLocation with some entries dropped. */
  function Forget(st: Stores, dropped: set<UUID>): Stores {
    st.(rs := st.rs.(location := st.rs.location - dropped))
  }

  /** Losing the entry of u is invisible to a working lookup exactly if the tables have the same core. */
  lemma ForgettingIsInvisible(st: Stores, u: UUID, dropped: set<UUID>)
    ensures FindCore(Forget(st, dropped), u, None) == FindCore(st, u, None) <==>
            (u in dropped && u in st.rs.location ==>
               st.rs.location[u] < |st.rs.cores| && u in st.tables.loc && st.tables.loc[u] == st.rs.location[u])
  {
  }

  /** For a stored VM under agreement, whatever has been dropped before, no dropped entry is missed, and the lookup that
      finds its entry gone puts the right one back. */
  lemma CacheIsTransparent(st: Stores, u: UUID, dropped: set<UUID>, cached: bool)
    requires Agrees(st, u, cached) && u in st.tables.loc
    ensures FindCore(Forget(st, dropped), u, None) == FindCore(st, u, None) == Some(st.tables.loc[u])
    ensures Agrees(Forget(st, dropped), u, false)
    ensures Agrees(AfterFind(Forget(st, dropped), u, None), u, true)
    ensures u in st.rs.location ==> AfterFind(Forget(st, {u}), u, None) == st
  {
    hide Agrees;
    AgreesForStored(st, u);
    AgreesForStored(Forget(st, dropped), u);
    AgreesForStored(AfterFind(Forget(st, dropped), u, None), u);
    if u in st.rs.location {
      assert (st.rs.location - {u})[u := st.rs.location[u]] == st.rs.location;
    }
  }

  /** Entries may even be dropped in the middle of a run. */
  lemma ForgettingKeepsAgreement(w: World, dropped: set<UUID>, cached: bool)
    requires Agreement(w, cached)
    ensures Agreement(w.(stores := Forget(w.stores, dropped)), false)
  {
    hide Agrees, PhaseOk, CallAgrees;
    var w' := w.(stores := Forget(w.stores, dropped));
    forall k | 0 <= k < |w.phases| ensures PhaseOk(w'.stores, w.requests[k], w.phases[k]) {
      ForgettingKeepsPhase(w.stores, dropped, w.requests[k], w.phases[k]);
    }
    forall k | 0 <= k < |w.phases| && IsActive(w.phases[k])
      ensures CallAgrees(w'.stores, w.requests[k], w.phases[k], false)
    {
      ForgettingKeepsCall(w.stores, dropped, w.requests[k], w.phases[k], cached);
    }
    forall u | Quiet(w', u) ensures Agrees(w'.stores, u, false) {
      assert Quiet(w, u);
      ForgettingKeepsAgrees(w.stores, dropped, u, cached);
    }
    assert forall k :: 0 <= k < |w.phases| && OthersQuiet(w, k) ==> OthersQuiet(w', k);
  }

  lemma ForgettingKeepsPhase(st: Stores, dropped: set<UUID>, r: Request, p: Phase)
    requires PhaseOk(st, r, p)
    ensures PhaseOk(Forget(st, dropped), r, p)
  {
  }

  lemma ForgettingKeepsAgrees(st: Stores, dropped: set<UUID>, u: UUID, cached: bool)
    requires Agrees(st, u, cached)
    ensures Agrees(Forget(st, dropped), u, false)
  {
  }

  lemma ForgettingKeepsCall(st: Stores, dropped: set<UUID>, r: Request, p: Phase, cached: bool)
    requires CallAgrees(st, r, p, cached)
    ensures CallAgrees(Forget(st, dropped), r, p, false)
  {
    hide Agrees;
    if Agrees(st, r.uuid, cached) {
      ForgettingKeepsAgrees(st, dropped, r.uuid, cached);
    }
  }

  lemma AgreesForStored(st: Stores, u: UUID)
    requires u in st.tables.loc
    ensures forall cached :: Agrees(st, u, cached) <==>
              RecordAgrees(st, u, st.tables.loc[u]) && (cached ==> u in st.rs.location) &&
              (u in st.rs.location ==> st.rs.location[u] == st.tables.loc[u])
  {
  }

  // ---------------------------------------------------------------- runs with drops at any point

  datatype Event = Do(step: Step) | Lose(dropped: set<UUID>)

  function Losing(w: World, dropped: set<UUID>): World { w.(stores := Forget(w.stores, dropped)) }

  function ApplyEvent(w: World, e: Event): (w': World)
    requires Valid(w)
    ensures Valid(w') && w'.requests == w.requests
  {
    match e
    case Do(s) => Apply(w, s)
    case Lose(dropped) => Losing(w, dropped)
  }

  function ExecEvents(w: World, events: seq<Event>): (w': World)
    requires Valid(w)
    ensures Valid(w') && w'.requests == w.requests
    decreases |events|
  {
    if events == [] then w else ExecEvents(ApplyEvent(w, events[0]), events[1..])
  }

  /** Calls about one VM do not overlap, and a create is made for a VM that is not stored. Drops are not restricted. */
  ghost predicate EventsOneAtATime(w: World, events: seq<Event>)
    requires Valid(w)
    decreases |events|
  {
    events == [] ||
    ((events[0].Do? ==> MayStep(w, events[0].step)) && EventsOneAtATime(ApplyEvent(w, events[0]), events[1..]))
  }

  lemma {:induction false} EventsKeepAgreement(w: World, events: seq<Event>)
    requires Agreement(w, false) && EventsOneAtATime(w, events)
    ensures Agreement(ExecEvents(w, events), false)
    decreases |events|
  {
    if events != [] {
      hide Agreement, MayStep, Apply;
      match events[0] {
        case Do(s) => StepAgrees(w, s, false);
        case Lose(dropped) => ForgettingKeepsAgreement(w, dropped, false);
      }
      EventsKeepAgreement(ApplyEvent(w, events[0]), events[1..]);
    }
  }

  /** Cache transparency: in every run in which calls about one VM do not overlap, with any entries of any VMs dropped
      at any points, a working lookup of a stored VM about which no call is under way gives the core of inst_loc, and
      if it has to fill the cache, index and tables agree as if nothing had been dropped. */
  lemma NoDropIsMissed(w: World, events: seq<Event>, u: UUID)
    requires AllIdle(w) && (forall v :: Agrees(w.stores, v, false)) && EventsOneAtATime(w, events)
    requires Quiet(ExecEvents(w, events), u) && u in ExecEvents(w, events).stores.tables.loc
    ensures var st := ExecEvents(w, events).stores;
            FindCore(st, u, None) == Some(st.tables.loc[u]) &&
            Agrees(AfterFind(st, u, None), u, true) &&
            (u in st.rs.location ==> st.rs.location[u] == st.tables.loc[u])
  {
    StartAgrees(w, false);
    EventsKeepAgreement(w, events);
    hide ExecEvents, PhasesOk, Exclusive, CallsAgree, Quiet;
    var st := ExecEvents(w, events).stores;
    assert Agrees(st, u, false);
    AgreesForStored(st, u);
    CacheIsTransparent(st, u, {}, false);
    assert st.rs.location - {} == st.rs.location;
  }

  // ---------------------------------------------------------------- the run without drops

  function StepsOf(events: seq<Event>): seq<Step>
    decreases |events|
  {
    if events == [] then []
    else (if events[0].Do? then [events[0].step] else []) + StepsOf(events[1..])
  }

  /** Only entries of stored VMs about which no call is under way are dropped, the database answers lookups, and a core
      is asked after its lookup has ended. */
  ghost predicate Undisturbed(d: World, e: Event)
    requires Valid(d)
  {
    match e
    case Lose(dropped) =>
      forall u :: u in dropped && u in d.stores.rs.location ==> Quiet(d, u) && u in d.stores.tables.loc
    case Do(s) => s.call < |d.phases| ==> LookupWorks(d.phases[s.call], s.action)
  }

  predicate LookupWorks(p: Phase, a: Action) {
    (p.Asking? && a.Ask? ==> a.fault == None) && (p.Asking? || p.Missed? ==> !a.CoreReply?)
  }

  ghost predicate AllUndisturbed(d: World, events: seq<Event>)
    requires Valid(d)
    decreases |events|
  {
    events == [] || (Undisturbed(d, events[0]) && AllUndisturbed(ApplyEvent(d, events[0]), events[1..]))
  }

  /** The same stores but for entries of VMLocation that the tables have too. */
  ghost predicate SameButForgotten(st: Stores, sd: Stores) {
    sd == st.(rs := st.rs.(location := sd.rs.location)) && forall u :: EntryFollows(st, sd, u)
  }

  predicate EntryFollows(st: Stores, sd: Stores, u: UUID) {
    (u in sd.rs.location ==> u in st.rs.location && sd.rs.location[u] == st.rs.location[u]) &&
    (u in st.rs.location && u !in sd.rs.location ==> u in st.tables.loc && st.tables.loc[u] == st.rs.location[u])
  }

  /** q, in the run with drops, is p, or a lookup that still has to find in the tables what p found at once. */
  predicate PhaseFollows(st: Stores, sd: Stores, u: UUID, p: Phase, q: Phase) {
    if p == q then q.Found? || q.Stopped? || q.Purged? ==> u in sd.rs.location
    else
      p.Found? && u in st.rs.location && st.rs.location[u] == p.core &&
      u in st.tables.loc && st.tables.loc[u] == p.core &&
      (q.Asking? || q == Missed(p.core))
  }

  ghost predicate Follows(w: World, d: World) {
    Agreement(w, true) && Valid(d) && d.requests == w.requests && |d.phases| == |w.phases| &&
    SameButForgotten(w.stores, d.stores) &&
    forall k :: 0 <= k < |w.phases| ==> PhaseFollows(w.stores, d.stores, w.requests[k].uuid, w.phases[k], d.phases[k])
  }

  lemma CreateFollows(st: Stores, sd: Stores, r: Request, p: Phase, a: Action)
    requires PhaseOk(st, r, p) && r.Create? && CallAgrees(st, r, p, true) && SameButForgotten(st, sd)
    ensures Act(sd, r, p, a).1 == Act(st, r, p, a).1
    ensures SameButForgotten(Act(st, r, p, a).0, Act(sd, r, p, a).0)
  {
    hide Act;
    assert EntryFollows(st, sd, r.uuid);
    CreateActsAlike(st, sd, r, p, a);
    CreateWrites(st, r, p, a);
    CreateWrites(sd, r, p, a);
    forall u ensures EntryFollows(Act(st, r, p, a).0, Act(sd, r, p, a).0, u) {
      assert EntryFollows(st, sd, u);
    }
  }

  lemma CreateActsAlike(st: Stores, sd: Stores, r: Request, p: Phase, a: Action)
    requires r.Create? && sd == st.(rs := st.rs.(location := sd.rs.location)) && PhaseOk(st, r, p)
    requires p.Selected? ==> LookupVM(sd.rs, r.uuid) == LookupVM(st.rs, r.uuid)
    ensures Act(sd, r, p, a).1 == Act(st, r, p, a).1
    ensures Act(sd, r, p, a).0 ==
            Act(st, r, p, a).0.(rs := Act(st, r, p, a).0.rs.(location := Act(sd, r, p, a).0.rs.location))
  {
    hide G.AfterConfigure, G.AfterCleanup, Charge, Refund, Add, AddSucceeds, Network.GetSubnetFromIP, LookupVM;
  }

  lemma CreateWrites(st: Stores, r: Request, p: Phase, a: Action)
    requires r.Create? && PhaseOk(st, r, p)
    ensures Act(st, r, p, a).0.rs.location ==
            if p.Persisted? && a.RegisterNew? then st.rs.location[r.uuid := p.core] else st.rs.location
    ensures Act(st, r, p, a).0.tables ==
            if p.Accepted? && a.Persist? then Add(st.tables, p.vm, p.core, a.fault) else st.tables
  {
    hide G.AfterConfigure, G.AfterCleanup, Charge, Refund, Add, AddSucceeds, AddressFails;
  }

  lemma LookupFollows(st: Stores, sd: Stores, r: Request, p: Phase, q: Phase, a: Action)
    requires PhaseOk(st, r, p) && !r.Create? && CallAgrees(st, r, p, true) && SameButForgotten(st, sd)
    requires PhaseFollows(st, sd, r.uuid, p, q) && LookupWorks(q, a)
    ensures SameButForgotten(Act(st, r, p, a).0, Act(sd, r, q, a).0)
    ensures PhaseFollows(Act(st, r, p, a).0, Act(sd, r, q, a).0, r.uuid, Act(st, r, p, a).1, Act(sd, r, q, a).1)
  {
    hide Agrees, EntryFollows, SameButForgotten;
    if p != q {
      LateLookupFollows(st, sd, r, p, q, a);
    } else if p.Stopped? || p.Purged? {
      EndFollows(st, sd, r, p, a);
    } else {
      SameLookupFollows(st, sd, r, p, a);
    }
  }

  /** The run with drops catches up through the tables. */
  lemma LateLookupFollows(st: Stores, sd: Stores, r: Request, p: Phase, q: Phase, a: Action)
    requires !r.Create? && CallAgrees(st, r, p, true) && SameButForgotten(st, sd)
    requires PhaseFollows(st, sd, r.uuid, p, q) && LookupWorks(q, a) && p != q
    ensures SameButForgotten(Act(st, r, p, a).0, Act(sd, r, q, a).0)
    ensures PhaseFollows(Act(st, r, p, a).0, Act(sd, r, q, a).0, r.uuid, Act(st, r, p, a).1, Act(sd, r, q, a).1)
  {
    hide G.AfterCleanup, Unregister, Remove, RowOf, AddressFails, LookupVM;
    assert Act(st, r, p, a) == (st, p);
    assert EntryFollows(st, sd, r.uuid);
    if q.Missed? && a.Fill? {
      forall u ensures EntryFollows(st, sd.(rs := CacheLocation(sd.rs, r.uuid, q.index)), u) {
        assert EntryFollows(st, sd, u);
      }
    }
  }

  lemma SameLookupFollows(st: Stores, sd: Stores, r: Request, p: Phase, a: Action)
    requires !r.Create? && SameButForgotten(st, sd) && PhaseFollows(st, sd, r.uuid, p, p)
    requires !p.Stopped? && !p.Purged?
    ensures SameButForgotten(Act(st, r, p, a).0, Act(sd, r, p, a).0)
    ensures PhaseFollows(Act(st, r, p, a).0, Act(sd, r, p, a).0, r.uuid, Act(st, r, p, a).1, Act(sd, r, p, a).1)
  {
    hide G.AfterCleanup, RemoveFirst, Remove;
    assert EntryFollows(st, sd, r.uuid);
    if p.Missed? && a.Fill? && 0 <= p.index < |st.rs.cores| {
      forall u
        ensures EntryFollows(st.(rs := CacheLocation(st.rs, r.uuid, p.index)),
                             sd.(rs := CacheLocation(sd.rs, r.uuid, p.index)), u)
      {
        assert EntryFollows(st, sd, u);
      }
    }
  }

  lemma EndFollows(st: Stores, sd: Stores, r: Request, p: Phase, a: Action)
    requires !r.Create? && SameButForgotten(st, sd) && PhaseFollows(st, sd, r.uuid, p, p)
    requires p.Stopped? || p.Purged?
    ensures SameButForgotten(Act(st, r, p, a).0, Act(sd, r, p, a).0)
    ensures PhaseFollows(Act(st, r, p, a).0, Act(sd, r, p, a).0, r.uuid, Act(st, r, p, a).1, Act(sd, r, p, a).1)
  {
    hide G.AfterCleanup, RemoveFirst;
    forall u ensures EntryFollows(Act(st, r, p, a).0, Act(sd, r, p, a).0, u) {
      assert EntryFollows(st, sd, u);
    }
  }

  lemma FollowsPhaseOk(st: Stores, sd: Stores, r: Request, p: Phase, q: Phase)
    requires PhaseOk(st, r, p) && PhaseFollows(st, sd, r.uuid, p, q) && |sd.rs.cores| == |st.rs.cores|
    ensures PhaseOk(sd, r, q)
    ensures q.Idle? == p.Idle? && IsActive(q) == IsActive(p)
    ensures r.Create? ==> p == q
  {
  }

  lemma FollowsCarries(st: Stores, sd: Stores, st': Stores, sd': Stores, u: UUID, p: Phase, q: Phase)
    requires PhaseFollows(st, sd, u, p, q) && (IsActive(p) ==> SameEntries(st, st', u) && SameEntries(sd, sd', u))
    ensures PhaseFollows(st', sd', u, p, q)
  {
  }

  /** One step of one call, in both runs. */
  lemma OwnStepFollows(st: Stores, sd: Stores, r: Request, p: Phase, q: Phase, a: Action)
    requires PhaseOk(st, r, p) && SameButForgotten(st, sd) && PhaseFollows(st, sd, r.uuid, p, q) && LookupWorks(q, a)
    requires IsActive(p) || p.Idle? ==> CallAgrees(st, r, p, true)
    ensures SameButForgotten(Act(st, r, p, a).0, Act(sd, r, q, a).0)
    ensures PhaseFollows(Act(st, r, p, a).0, Act(sd, r, q, a).0, r.uuid, Act(st, r, p, a).1, Act(sd, r, q, a).1)
  {
    hide Act, PhaseOk, SameButForgotten, CallAgrees;
    assert |sd.rs.cores| == |st.rs.cores| by { SameCores(st, sd); }
    FollowsPhaseOk(st, sd, r, p, q);
    if !p.Idle? && !IsActive(p) {
      ActStartsAndEnds(st, r, p, a);
      ActStartsAndEnds(sd, r, q, a);
    } else if r.Create? {
      CreateFollows(st, sd, r, p, a);
      CreateDoesNotLookUp(st, r, p, a);
    } else {
      LookupFollows(st, sd, r, p, q, a);
    }
  }

  lemma SameCores(st: Stores, sd: Stores)
    requires SameButForgotten(st, sd)
    ensures sd.rs.cores == st.rs.cores && sd.tables == st.tables && sd.guac == st.guac && sd.rs.aliveVM == st.rs.aliveVM
  {
  }

  lemma CreateDoesNotLookUp(st: Stores, r: Request, p: Phase, a: Action)
    requires r.Create? && PhaseOk(st, r, p)
    ensures var p' := Act(st, r, p, a).1; !p'.Found? && !p'.Stopped? && !p'.Purged?
  {
    ActKeepsPhaseOk(st, r, p, a);
  }

  lemma StepFollows(w: World, d: World, s: Step)
    requires Follows(w, d) && MayStep(w, s) && Undisturbed(d, Do(s))
    ensures Follows(Apply(w, s), Apply(d, s))
  {
    hide Act, PhaseOk, SameButForgotten, PhaseFollows, CallAgrees, Agrees, SameEntries;
    StepAgrees(w, s, true);
    if s.call < |w.phases| {
      var c := s.call;
      var r, p, q := w.requests[c], w.phases[c], d.phases[c];
      if p.Idle? {
        assert Quiet(w, r.uuid);
        IdleAgrees(w.stores, r, p, true);
      }
      OwnStepFollows(w.stores, d.stores, r, p, q, s.action);
      SameCores(w.stores, d.stores);
      FollowsPhaseOk(w.stores, d.stores, r, p, q);
      var w', d' := Apply(w, s), Apply(d, s);
      forall k | 0 <= k < |w.phases|
        ensures PhaseFollows(w'.stores, d'.stores, w.requests[k].uuid, w'.phases[k], d'.phases[k])
      {
        if k != c {
          if IsActive(w.phases[k]) && (p.Idle? || IsActive(p)) {
            assert OthersQuiet(w, c);
            ActIsLocal(w.stores, r, p, s.action, w.requests[k].uuid);
            ActIsLocal(d.stores, r, q, s.action, w.requests[k].uuid);
          } else if IsActive(w.phases[k]) {
            EndedStays(w.stores, d.stores, r, p, q, s.action, w.requests[k].uuid);
          }
          FollowsCarries(w.stores, d.stores, w'.stores, d'.stores, w.requests[k].uuid, w.phases[k], d.phases[k]);
        }
      }
    }
  }

  lemma EndedStays(st: Stores, sd: Stores, r: Request, p: Phase, q: Phase, a: Action, u: UUID)
    requires !p.Idle? && !IsActive(p) && PhaseFollows(st, sd, r.uuid, p, q)
    ensures SameEntries(st, Act(st, r, p, a).0, u) && SameEntries(sd, Act(sd, r, q, a).0, u)
  {
    hide Act;
    ActStartsAndEnds(st, r, p, a);
    ActStartsAndEnds(sd, r, q, a);
  }

  lemma LossFollows(w: World, d: World, dropped: set<UUID>)
    requires Follows(w, d) && Undisturbed(d, Lose(dropped))
    ensures Follows(w, Losing(d, dropped))
  {
    hide PhaseOk, Agreement;
    var d' := Losing(d, dropped);
    SameCores(w.stores, d.stores);
    forall u ensures EntryFollows(w.stores, d'.stores, u) {
      assert EntryFollows(w.stores, d.stores, u);
      if u in dropped && u in d.stores.rs.location {
        QuietInBoth(w, d, u);
        QuietAgrees(w, u, true);
      }
    }
    forall k | 0 <= k < |w.phases|
      ensures PhaseFollows(w.stores, d'.stores, w.requests[k].uuid, w.phases[k], d.phases[k])
    {
      assert PhaseFollows(w.stores, d.stores, w.requests[k].uuid, w.phases[k], d.phases[k]);
    }
  }

  lemma QuietInBoth(w: World, d: World, u: UUID)
    requires Follows(w, d)
    ensures Quiet(w, u) <==> Quiet(d, u)
  {
    hide PhaseOk, Agreement, SameButForgotten;
    forall k | 0 <= k < |w.phases| ensures IsActive(d.phases[k]) == IsActive(w.phases[k]) {
      assert PhaseFollows(w.stores, d.stores, w.requests[k].uuid, w.phases[k], d.phases[k]);
    }
  }

  lemma MayStepInBoth(w: World, d: World, s: Step)
    requires Follows(w, d) && MayStep(d, s)
    ensures MayStep(w, s)
  {
    hide PhaseOk, Agreement, SameButForgotten;
    SameCores(w.stores, d.stores);
    forall k | 0 <= k < |w.phases|
      ensures IsActive(d.phases[k]) == IsActive(w.phases[k]) && d.phases[k].Idle? == w.phases[k].Idle?
    {
      assert PhaseFollows(w.stores, d.stores, w.requests[k].uuid, w.phases[k], d.phases[k]);
    }
  }

  lemma {:induction false} EventsFollow(w: World, d: World, events: seq<Event>)
    requires Follows(w, d) && EventsOneAtATime(d, events) && AllUndisturbed(d, events)
    ensures Follows(Exec(w, StepsOf(events)), ExecEvents(d, events))
    decreases |events|
  {
    if events != [] {
      hide Follows, MayStep, Apply, Undisturbed, Losing;
      var rest := StepsOf(events[1..]);
      ValidFollows(w, d);
      match events[0] {
        case Do(s) =>
          MayStepInBoth(w, d, s);
          StepFollows(w, d, s);
          assert ([s] + rest)[1..] == rest;
          EventsFollow(Apply(w, s), Apply(d, s), events[1..]);
        case Lose(dropped) =>
          LossFollows(w, d, dropped);
          assert [] + rest == rest;
          EventsFollow(w, Losing(d, dropped), events[1..]);
      }
    }
  }

  lemma ValidFollows(w: World, d: World)
    requires Follows(w, d)
    ensures Valid(w) && Valid(d)
  {
  }

  /** Losing entries of stored VMs, at any points at which no call about them is under way, changes nothing but
      VMLocation: the run with the drops and the run without them end with the same cores, the same list of running VMs,
      the same tables and the same Guacamole database, and for every stored VM about which no call is under way
      FindCoreByVmUUID answers the same in both, namely the core of inst_loc. */
  lemma DropsChangeNoAnswer(w: World, events: seq<Event>)
    requires AllIdle(w) && (forall v :: Agrees(w.stores, v, true))
    requires EventsOneAtATime(w, events) && AllUndisturbed(w, events)
    ensures var with, without := ExecEvents(w, events).stores, Exec(w, StepsOf(events)).stores;
            with == without.(rs := without.rs.(location := with.rs.location)) &&
            (forall u :: Quiet(ExecEvents(w, events), u) && u in with.tables.loc ==>
               FindCore(with, u, None) == FindCore(without, u, None) == Some(with.tables.loc[u]))
  {
    StartFollows(w);
    EventsFollow(w, w, events);
    hide Exec, ExecEvents, Follows, Quiet, FindCore;
    SameAnswers(Exec(w, StepsOf(events)), ExecEvents(w, events));
  }

  lemma StartFollows(w: World)
    requires AllIdle(w) && (forall v :: Agrees(w.stores, v, true))
    ensures Follows(w, w)
  {
    hide Agrees;
    StartAgrees(w, true);
  }

  lemma SameAnswers(w: World, d: World)
    requires Follows(w, d)
    ensures d.stores == w.stores.(rs := w.stores.rs.(location := d.stores.rs.location))
    ensures forall u :: Quiet(d, u) && u in d.stores.tables.loc ==>
              FindCore(d.stores, u, None) == FindCore(w.stores, u, None) == Some(d.stores.tables.loc[u])
  {
    hide PhaseOk, Agreement, Quiet;
    forall u | Quiet(d, u) && u in d.stores.tables.loc
      ensures FindCore(d.stores, u, None) == FindCore(w.stores, u, None) == Some(d.stores.tables.loc[u])
    {
      QuietInBoth(w, d, u);
      QuietAgrees(w, u, true);
      assert EntryFollows(w.stores, d.stores, u);
    }
  }
}

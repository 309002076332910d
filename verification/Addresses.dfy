/** Who has which address: new-subnet creates, deletes, shutdowns and restarts, one after the other. */
module Addresses {
  import opened Common
  import opened Resources
  import opened Instances
  import opened Saga
  import opened Cleanup
  import opened Control
  import opened Network
  import G = Guacamole
  import Index = SagaIndex
  import Subnet
  import Startup

  datatype Op =
    | OpCreate(r: Request, choice: Option<nat>, x: CreateAnswers)
    | OpDelete(uuid: UUID, deleted: DeleteAnswers)
    | OpShutdown(uuid: UUID, stopped: ShutdownAnswers)
    | OpRestart(rs: ResourceState)

  function ApplyOp(w: Whole, op: Op): Whole {
    match op
    case OpCreate(r, choice, x) => if r.Create? then AfterCreate(w, r, choice, x) else w
    case OpDelete(u, x) => AfterDelete(w, u, x)
    case OpShutdown(u, x) => AfterShutdown(w, u, x)
    case OpRestart(rs) => w.(stores := w.stores.(rs := rs), lastSubnet := w.subnetRow)
  }

  function RunOps(w: Whole, ops: seq<Op>): Whole
    decreases |ops|
  {
    if ops == [] then w else RunOps(ApplyOp(w, ops[0]), ops[1..])
  }

  /** CMS grants the create an address in a new subnet. */
  predicate GetsNewAddress(w: Whole, r: Request, choice: Option<nat>, x: CreateAnswers)
    requires r.Create?
  {
    AsksForNewSubnet(r, choice, x) && NewSubnet(w, x).progress.Granted?
  }

  /** The address lies in the subnet that was asked for, which is not "err". */
  predicate Fits(w: Whole, x: CreateAnswers) {
    var p := NewSubnet(w, x).progress;
    p.Granted? ==> p.next != "err" && p.next <= p.ip
  }

  /** Each record that a restart builds has the address of its row. */
  ghost predicate Rebuilt(t: Tables, rs: ResourceState) {
    forall i, u :: 0 <= i < |rs.cores| && u in rs.cores[i].vms ==>
      u in t.info && rs.cores[i].vms[u].ip == t.info[u].ip
  }

  /** Creates choose a core that exists and get an address from a new subnet, if at all. */
  ghost predicate MayOp(w: Whole, op: Op) {
    match op
    case OpCreate(r, choice, x) =>
      r.Create? && (choice.Some? ==> choice.value < |w.stores.rs.cores|) && Fits(w, x) &&
      (r.subnetType == "Add" ==> AddressFails(w.stores.rs, r, x.keyOk, x.cms))
    case OpRestart(rs) => Rebuilt(w.stores.tables, rs)
    case _ => true
  }

  ghost predicate MayRun(w: Whole, ops: seq<Op>)
    decreases |ops|
  {
    ops == [] || (MayOp(w, ops[0]) && MayRun(ApplyOp(w, ops[0]), ops[1..]))
  }

  // ---------------------------------------------------------------- who holds an address

  predicate Recorded(st: Stores, i: nat, u: UUID, ip: string) {
    i < |st.rs.cores| && u in st.rs.cores[i].vms && st.rs.cores[i].vms[u].ip == ip
  }

  /** Some core's record of u, or its row, has the address. */
  ghost predicate Holds(st: Stores, u: UUID, ip: string) {
    (exists i: nat :: Recorded(st, i, u, ip)) || (u in st.tables.info && st.tables.info[u].ip == ip)
  }

  /** No address is held by two VMs, and none lies in a subnet after the given one. */
  ghost predicate Apart(st: Stores, high: int) {
    (forall u, ip :: Holds(st, u, ip) ==> SubnetNumber(ip) <= high) &&
    (forall u, v, ip :: Holds(st, u, ip) && Holds(st, v, ip) ==> u == v)
  }

  ghost predicate HoldsNoMore(st: Stores, st': Stores) {
    forall u, ip :: Holds(st', u, ip) ==> Holds(st, u, ip)
  }

  ghost predicate HoldsOneMore(st: Stores, st': Stores, v: UUID, a: string) {
    forall u, ip :: Holds(st', u, ip) ==> Holds(st, u, ip) || (u == v && ip == a)
  }

  lemma SameRecordsHold(st: Stores, st': Stores)
    requires |st'.rs.cores| == |st.rs.cores|
    requires forall i, u :: 0 <= i < |st.rs.cores| && u in st'.rs.cores[i].vms ==>
               u in st.rs.cores[i].vms && st'.rs.cores[i].vms[u] == st.rs.cores[i].vms[u]
    requires forall u :: u in st'.tables.info ==> u in st.tables.info && st'.tables.info[u] == st.tables.info[u]
    ensures HoldsNoMore(st, st')
  {
    forall u, ip | Holds(st', u, ip) ensures Holds(st, u, ip) {
      if i: nat :| Recorded(st', i, u, ip) {
        assert Recorded(st, i, u, ip);
      }
    }
  }

  lemma PlacedHolds(st: Stores, r: Request, core: nat, vm: VMInfo, x: CreateAnswers)
    requires r.Create? && core < |st.rs.cores| && vm.uuid == r.uuid
    ensures HoldsOneMore(st, Placed(st, r, core, vm, x).0, r.uuid, vm.ip)
  {
    var (st', ok) := Placed(st, r, core, vm, x);
    if ok {
      hide Unwind, UndoWith;
      PlacedRecords(st, r, core, vm, x);
      forall u, ip | Holds(st', u, ip) && !(u == r.uuid && ip == vm.ip) ensures Holds(st, u, ip) {
        if i: nat :| Recorded(st', i, u, ip) {
          assert Recorded(st, i, u, ip);
        }
      }
    } else {
      FailedPlacementRestores(st, r, core, vm, x);
      hide Placed;
      ReleaseKeepsRecords(st.rs, r, core, vm);
      SameRecordsHold(st, st');
    }
  }

  lemma PlacedRecords(st: Stores, r: Request, core: nat, vm: VMInfo, x: CreateAnswers)
    requires r.Create? && core < |st.rs.cores| && vm.uuid == r.uuid && Placed(st, r, core, vm, x).1
    ensures var st' := Placed(st, r, core, vm, x).0;
            |st'.rs.cores| == |st.rs.cores| && st'.tables.info == st.tables.info[r.uuid := RowOf(vm)] &&
            forall i :: 0 <= i < |st.rs.cores| ==>
              st'.rs.cores[i].vms == if i == core then st.rs.cores[i].vms[r.uuid := vm] else st.rs.cores[i].vms
  {
    hide Unwind, UndoWith;
  }

  lemma ReleaseKeepsRecords(rs: ResourceState, r: Request, core: nat, vm: VMInfo)
    requires r.Create? && core < |rs.cores|
    ensures |Allocate(rs, core, r.uuid, vm, r.hw).cores| == |rs.cores|
    ensures var rs' := Deallocate(Allocate(rs, core, r.uuid, vm, r.hw), core, r.uuid, r.hw);
            |rs'.cores| == |rs.cores| &&
            forall i, u :: 0 <= i < |rs.cores| && u in rs'.cores[i].vms ==>
              u in rs.cores[i].vms && rs'.cores[i].vms[u] == rs.cores[i].vms[u]
  {
  }

  lemma CreateHolds(w: Whole, r: Request, choice: Option<nat>, x: CreateAnswers)
    requires MayOp(w, OpCreate(r, choice, x))
    ensures GetsNewAddress(w, r, choice, x) ==>
              x.cms.Some? && NewSubnet(w, x).progress.ip == x.cms.value.ip &&
              HoldsOneMore(w.stores, AfterCreate(w, r, choice, x).stores, r.uuid, x.cms.value.ip)
    ensures !GetsNewAddress(w, r, choice, x) ==> HoldsNoMore(w.stores, AfterCreate(w, r, choice, x).stores)
  {
    hide NextSubnet;
    NewSubnetOutcome(w, x);
    CreateOutcome(w, r, choice, x);
    hide RunCall, CreateActions, NewSubnet, Placed, HoldsOneMore, HoldsNoMore;
    var cms := CmsAnswer(w, r, x);
    SameHolds(w.stores, w.stores);
    if choice.Some? && !AddressFails(w.stores.rs, r, x.keyOk, cms) {
      var configured := Prepared(w.stores, r, choice.value, cms.value, x).(rs := w.stores.rs);
      SameHolds(w.stores, configured);
      if !StrikesBefore(x.configure, G.CONFIGURE_STATEMENTS) {
        var vm := NewVM(r, cms.value.ip, cms.value.mac, x.pass);
        PlacedHolds(configured, r, choice.value, vm, x);
        HoldsAfter(w.stores, configured, Placed(configured, r, choice.value, vm, x).0, r.uuid, vm.ip);
      }
    }
  }

  lemma SameHolds(st: Stores, st': Stores)
    requires st'.rs == st.rs && st'.tables == st.tables
    ensures HoldsNoMore(st, st')
    ensures forall v, a :: HoldsOneMore(st, st', v, a)
  {
    SameRecordsHold(st, st');
  }

  lemma HoldsAfter(st: Stores, st1: Stores, st2: Stores, v: UUID, a: string)
    requires HoldsNoMore(st, st1) && HoldsOneMore(st1, st2, v, a)
    ensures HoldsOneMore(st, st2, v, a)
  {
    hide Holds;
  }

  lemma DeleteHolds(w: Whole, u: UUID, x: DeleteAnswers)
    ensures HoldsNoMore(w.stores, AfterDelete(w, u, x).stores)
  {
    DeleteOutcome(w.stores, u, x);
    hide RunCall;
    SameRecordsHold(w.stores, AfterDelete(w, u, x).stores);
  }

  lemma ShutdownHolds(w: Whole, u: UUID, x: ShutdownAnswers)
    ensures HoldsNoMore(w.stores, AfterShutdown(w, u, x).stores)
  {
    ShutdownOutcome(w.stores, u, x);
    hide RunCall;
    SameRecordsHold(w.stores, AfterShutdown(w, u, x).stores);
  }

  lemma RestartHolds(st: Stores, rs: ResourceState)
    requires Rebuilt(st.tables, rs)
    ensures HoldsNoMore(st, st.(rs := rs))
  {
    var st' := st.(rs := rs);
    forall u, ip | Holds(st', u, ip) ensures Holds(st, u, ip) {
      if i: nat :| Recorded(st', i, u, ip) {
        assert u in st.tables.info && st.tables.info[u].ip == ip;
      }
    }
  }

  /** What the loader builds is Rebuilt. */
  lemma LoaderRebuilds(t: Tables, rows: seq<JoinedRow>, infos: seq<VMInfo>, cores: seq<int>,
                       rs: ResourceState, rs': ResourceState)
    requires ListsJoin(t, rows) && Lists(rows, infos, cores) && Startup.Unloaded(rs)
    requires |infos| == |cores| && Startup.Load(rs, infos, cores) == Some(rs')
    ensures Rebuilt(t, rs')
  {
    hide Startup.Load, Startup.Loaded, Startup.Unloaded, ListsJoin, Lists;
    ListsAreLoaded(t, rows, infos, cores, rs, rs');
    forall i, u | 0 <= i < |rs'.cores| && u in rs'.cores[i].vms
      ensures u in t.info && rs'.cores[i].vms[u].ip == t.info[u].ip
    {
      LoadedRecord(t, rows, infos, cores, rs, rs', i, u);
    }
  }

  lemma ListsAreLoaded(t: Tables, rows: seq<JoinedRow>, infos: seq<VMInfo>, cores: seq<int>,
                       rs: ResourceState, rs': ResourceState)
    requires ListsJoin(t, rows) && Lists(rows, infos, cores) && Startup.Unloaded(rs)
    requires |infos| == |cores| && Startup.Load(rs, infos, cores) == Some(rs')
    ensures Startup.Loaded(rs, rs', infos, cores)
  {
    hide Startup.Load, Startup.Loaded, Startup.Unloaded;
    JoinedUUIDsDiffer(t, rows, infos, cores);
    Startup.LoaderIsCorrect(rs, infos, cores);
  }

  lemma LoadedRecord(t: Tables, rows: seq<JoinedRow>, infos: seq<VMInfo>, cores: seq<int>,
                     rs: ResourceState, rs': ResourceState, i: nat, u: UUID)
    requires ListsJoin(t, rows) && Lists(rows, infos, cores) && |infos| == |cores|
    requires Startup.Loaded(rs, rs', infos, cores) && i < |rs'.cores| && u in rs'.cores[i].vms
    ensures u in t.info && rs'.cores[i].vms[u].ip == t.info[u].ip
  {
    hide Startup.Loaded, Startup.LoadedAt, ListsJoin, Lists;
    LocatedAt(rs, rs', infos, cores, i, u);
    var n := Startup.ListedRow(t, rs, rs', rows, infos, cores, u);
    Startup.RowLoaded(rs, rs', rows, infos, cores, n);
    RowIsStored(t, rows, n);
    RecordOfRow(rs', rows[n], i);
  }

  lemma RecordOfRow(rs: ResourceState, row: JoinedRow, i: nat)
    requires Startup.LoadedAt(rs, InfoOf(row), row.core) && row.uuid in rs.location && rs.location[row.uuid] == i
    ensures i < |rs.cores| && row.uuid in rs.cores[i].vms && rs.cores[i].vms[row.uuid].ip == row.row.ip
  {
  }

  lemma JoinedUUIDsDiffer(t: Tables, rows: seq<JoinedRow>, infos: seq<VMInfo>, cores: seq<int>)
    requires ListsJoin(t, rows) && Lists(rows, infos, cores)
    ensures DistinctUUIDs(infos)
  {
  }

  lemma LocatedAt(rs: ResourceState, rs': ResourceState, infos: seq<VMInfo>, cores: seq<int>, i: nat, u: UUID)
    requires |infos| == |cores| && Startup.Loaded(rs, rs', infos, cores) && i < |rs'.cores| && u in rs'.cores[i].vms
    ensures u in rs'.location && rs'.location[u] == i
  {
  }

  lemma RowIsStored(t: Tables, rows: seq<JoinedRow>, n: nat)
    requires ListsJoin(t, rows) && n < |rows|
    ensures rows[n].uuid in t.info && rows[n].row == t.info[rows[n].uuid]
  {
  }

  // ---------------------------------------------------------------- the subnets move on

  /** A create moves variable and row on by one if it gets a new address, which then lies in the new subnet. */
  lemma CreateMovesSubnet(w: Whole, r: Request, choice: Option<nat>, x: CreateAnswers, o: Octets) returns (o': Octets)
    requires r.Create? && o.Valid() && Subnet.BothAt(o, w.lastSubnet, w.subnetRow) && Fits(w, x)
    ensures var w' := AfterCreate(w, r, choice, x);
            o'.Valid() && o.Value() <= o'.Value() && Subnet.BothAt(o', w'.lastSubnet, w'.subnetRow)
    ensures GetsNewAddress(w, r, choice, x) ==>
              o'.Value() == o.Value() + 1 && SubnetNumber(NewSubnet(w, x).progress.ip) == o'.Value()
  {
    hide NextSubnet, SubnetNumber, Octets.Text, Subnet.Succ, RunCall, CreateActions;
    NewSubnetOutcome(w, x);
    hide NewSubnet;
    ErrPanics();
    o' := o;
    if AsksForNewSubnet(r, choice, x) && NextSubnet(w.lastSubnet).Text? && x.writeAhead {
      var next := NextSubnet(w.lastSubnet).value;
      Subnet.SuccIs(o);
      Subnet.NextIsSucc(o, w.lastSubnet, next);
      if x.cms.Some? {
        o' := Subnet.Succ(o);
        assert o'.Text() <= x.cms.value.ip;
        NumberOfText(o', x.cms.value.ip);
      } else if !x.rollBack {
        o' := Subnet.Succ(o);
      }
    }
  }

  // ---------------------------------------------------------------- every run

  /** The addresses that new-subnet creates are given, in order, whether the creates succeed or not. */
  function NewAddresses(w: Whole, ops: seq<Op>): seq<string>
    decreases |ops|
  {
    if ops == [] then [] else NewAddress(w, ops[0]) + NewAddresses(ApplyOp(w, ops[0]), ops[1..])
  }

  function NewAddress(w: Whole, op: Op): seq<string> {
    match op
    case OpCreate(r, choice, x) =>
      if r.Create? && GetsNewAddress(w, r, choice, x) then [NewSubnet(w, x).progress.ip] else []
    case _ => []
  }

  ghost predicate Sound(w: Whole, o: Octets) {
    o.Valid() && Subnet.BothAt(o, w.lastSubnet, w.subnetRow) && Apart(w.stores, o.Value())
  }

  lemma ApartStays(st: Stores, st': Stores, high: int, high': int)
    requires Apart(st, high) && HoldsNoMore(st, st') && high <= high'
    ensures Apart(st', high')
  {
    hide Holds, SubnetNumber;
  }

  lemma OneMoreApart(st: Stores, st': Stores, v: UUID, a: string, high: int)
    requires Apart(st, high) && HoldsOneMore(st, st', v, a) && high < SubnetNumber(a)
    ensures Apart(st', SubnetNumber(a))
  {
    hide Holds, SubnetNumber;
  }

  lemma OpKeepsSound(w: Whole, op: Op, o: Octets) returns (o': Octets)
    requires Sound(w, o) && MayOp(w, op)
    ensures Sound(ApplyOp(w, op), o') && o.Value() <= o'.Value()
    ensures NewAddress(w, op) != [] ==>
              SubnetNumber(NewAddress(w, op)[0]) == o'.Value() == o.Value() + 1 &&
              forall u :: !Holds(w.stores, u, NewAddress(w, op)[0])
  {
    hide Apart, HoldsNoMore, HoldsOneMore, SubnetNumber, Octets.Text, Subnet.BothAt, RunCall, CreateActions, NewSubnet;
    hide Octets.Value;
    match op
    case OpCreate(r, choice, x) =>
      o' := CreateMovesSubnet(w, r, choice, x, o);
      CreateHolds(w, r, choice, x);
      if GetsNewAddress(w, r, choice, x) {
        OneMoreApart(w.stores, AfterCreate(w, r, choice, x).stores, r.uuid, x.cms.value.ip, o.Value());
        NotHeld(w.stores, o.Value(), x.cms.value.ip);
      } else {
        ApartStays(w.stores, AfterCreate(w, r, choice, x).stores, o.Value(), o'.Value());
      }
    case OpDelete(u, x) =>
      o' := o;
      DeleteHolds(w, u, x);
      ApartStays(w.stores, AfterDelete(w, u, x).stores, o.Value(), o.Value());
    case OpShutdown(u, x) =>
      o' := o;
      ShutdownHolds(w, u, x);
      ApartStays(w.stores, AfterShutdown(w, u, x).stores, o.Value(), o.Value());
    case OpRestart(rs) =>
      o' := o;
      RestartHolds(w.stores, rs);
      ApartStays(w.stores, w.stores.(rs := rs), o.Value(), o.Value());
      RestartStands(o, w.lastSubnet, w.subnetRow);
  }

  lemma RestartStands(o: Octets, s: string, t: string)
    requires Subnet.BothAt(o, s, t)
    ensures Subnet.BothAt(o, t, t)
  {
  }

  lemma NotHeld(st: Stores, high: int, a: string)
    requires Apart(st, high) && high < SubnetNumber(a)
    ensures forall u :: !Holds(st, u, a)
  {
    hide Holds, SubnetNumber;
  }

  ghost predicate Ascending(addresses: seq<string>, above: int) {
    (forall i :: 0 <= i < |addresses| ==> above < SubnetNumber(addresses[i])) &&
    (forall i, j :: 0 <= i < j < |addresses| ==> SubnetNumber(addresses[i]) < SubnetNumber(addresses[j]))
  }

  lemma AscendingJoins(now: seq<string>, rest: seq<string>, above: int, next: int)
    requires |now| <= 1 && Ascending(rest, next) && above <= next
    requires now != [] ==> above < SubnetNumber(now[0]) == next
    ensures Ascending(now + rest, above)
  {
    hide SubnetNumber;
  }

  lemma {:induction false} RunKeepsSound(w: Whole, ops: seq<Op>, o: Octets) returns (o': Octets)
    requires Sound(w, o) && MayRun(w, ops)
    ensures Sound(RunOps(w, ops), o')
    ensures Ascending(NewAddresses(w, ops), o.Value())
    decreases |ops|
  {
    if ops == [] {
      o' := o;
    } else {
      hide Sound, MayOp, ApplyOp, NewAddress, Ascending, SubnetNumber, Octets.Value, Holds;
      var o1 := OpKeepsSound(w, ops[0], o);
      o' := RunKeepsSound(ApplyOp(w, ops[0]), ops[1..], o1);
      AtMostOne(w, ops[0]);
      AscendingJoins(NewAddress(w, ops[0]), NewAddresses(ApplyOp(w, ops[0]), ops[1..]), o.Value(), o1.Value());
    }
  }

  lemma AtMostOne(w: Whole, op: Op)
    ensures |NewAddress(w, op)| <= 1
  {
  }

  /** New addresses differ: over every run of creates, deletes, shutdowns and restarts, one after the other, with any
      failures, the addresses that CMS gives to new-subnet creates lie in strictly increasing subnets, so they are
      pairwise different, as long as CMS gives addresses in the subnets it was asked for. */
  lemma NewAddressesDiffer(w: Whole, ops: seq<Op>, o: Octets)
    requires Sound(w, o) && MayRun(w, ops)
    ensures Ascending(NewAddresses(w, ops), o.Value())
    ensures forall i, j :: 0 <= i < j < |NewAddresses(w, ops)| ==> NewAddresses(w, ops)[i] != NewAddresses(w, ops)[j]
  {
    var o' := RunKeepsSound(w, ops, o);
    hide Sound, MayRun, SubnetNumber, NewAddresses;
  }

  /** Hence no stale release hits another VM: after every such run, an address that a delete of u asks CMS to release is
      not the address of any other stored VM, even if u was deleted long ago. */
  lemma StaleReleaseHitsNoOther(w: Whole, ops: seq<Op>, o: Octets, u: UUID, v: UUID, y: DeleteAnswers)
    requires Sound(w, o) && MayRun(w, ops) && u != v
    ensures var st := RunOps(w, ops).stores;
            Released(st, u, y).Some? && v in st.tables.info ==> Released(st, u, y).value != st.tables.info[v].ip
  {
    var o' := RunKeepsSound(w, ops, o);
    var st := RunOps(w, ops).stores;
    hide RunOps, MayRun, SubnetNumber, Subnet.BothAt;
    if Released(st, u, y).Some? && v in st.tables.info {
      ReleasedIsHeld(st, u, y);
      assert Holds(st, v, st.tables.info[v].ip);
    }
  }

  lemma ReleasedIsHeld(st: Stores, u: UUID, y: DeleteAnswers)
    requires Released(st, u, y).Some?
    ensures Holds(st, u, Released(st, u, y).value)
  {
    var rs := Index.AfterFind(st, u, y.ask).rs;
    assert Recorded(st, rs.location[u], u, Released(st, u, y).value);
  }

  /** The addresses of a system without VMs are apart. */
  lemma NoVMsAreApart(st: Stores, high: int)
    requires st.tables.info == map[] && forall i :: 0 <= i < |st.rs.cores| ==> st.rs.cores[i].vms == map[]
    ensures Apart(st, high)
  {
  }
}

/** startup/init.go: the conversion of what the cores report, and the loader that rebuilds the index from the tables. */
module Startup {
  import opened Common
  import opened Resources
  import opened Instances
  import opened Saga
  import opened SagaIndex
  import G = Guacamole
  import Ledger = SagaLedger
  import SagaSuccess

  // ---------------------------------------------------------------- what a core reports

  type U64 = n: int | 0 <= n < 0x1_0000_0000_0000_0000

  /** uint32(gigabytes * 1024), computed in uint64. */
  function MiB(gigabytes: U64): U32 { (gigabytes * 1024 % 0x1_0000_0000_0000_0000) % WORD }

  const EXACT_BELOW: nat := 0x40_0000

  /** Reports below 2^22 GB are converted exactly; from there on the number wraps around. */
  lemma ConversionIsExact(x: U64, y: U64)
    ensures MiB(x) == x * 1024 <==> x < EXACT_BELOW
    ensures MiB(x) == x % EXACT_BELOW * 1024
    ensures MiB(x) <= MiB(y) <==> x % EXACT_BELOW <= y % EXACT_BELOW
  {
    ConversionDropsBits(x);
    ConversionDropsBits(y);
  }

  lemma ConversionDropsBits(x: U64)
    ensures MiB(x) == x % EXACT_BELOW * 1024
  {
    var q, r := x / EXACT_BELOW, x % EXACT_BELOW;
    assert x == q * EXACT_BELOW + r;
    assert x * 1024 == q * WORD + r * 1024;
    var p := x * 1024 / 0x1_0000_0000_0000_0000;
    assert x * 1024 % 0x1_0000_0000_0000_0000 == (q - p * WORD) * WORD + r * 1024;
    Ledger.AddMultiple(r * 1024, q - p * WORD);
  }

  datatype Report = Report(memoryTotal: U64, memoryAvailable: U64, diskTotal: U64, diskFree: U64)

  const UNKNOWN_CPU: U32 := 9999

  function Reported(c: CoreState, report: Report): CoreState {
    var cpu := if c.total.cpu > 0 then c.total.cpu else UNKNOWN_CPU;
    c.(total := Amounts(MiB(report.memoryTotal), cpu, MiB(report.diskTotal)),
       free := Amounts(MiB(report.memoryAvailable), cpu, MiB(report.diskFree)))
  }

  method RecordReport(currentCore: Core, report: Report)
    modifies currentCore
    ensures currentCore.State() == Reported(old(currentCore.State()), report)
    ensures currentCore.coreInfoIdx.cpu == if old(currentCore.coreInfoIdx.cpu) > 0 then old(currentCore.coreInfoIdx.cpu)
                                           else 9999
    ensures currentCore.freeCPU == currentCore.coreInfoIdx.cpu
    ensures report.memoryTotal < 0x40_0000 ==> currentCore.coreInfoIdx.memory == report.memoryTotal * 1024
    ensures report.diskTotal < 0x40_0000 ==> currentCore.coreInfoIdx.disk == report.diskTotal * 1024
    ensures report.memoryAvailable < 0x40_0000 ==> currentCore.freeMemory == report.memoryAvailable * 1024
    ensures report.diskFree < 0x40_0000 ==> currentCore.freeDisk == report.diskFree * 1024
    ensures currentCore.isAlive == old(currentCore.isAlive) && currentCore.vmInfoIdx == old(currentCore.vmInfoIdx)
  {
    ConversionIsExact(report.memoryTotal, report.memoryAvailable);
    ConversionIsExact(report.diskTotal, report.diskFree);
    ConversionIsExact(report.memoryAvailable, report.memoryTotal);
    ConversionIsExact(report.diskFree, report.diskTotal);
    hide MiB;
    var totalMemoryMiB := MiB(report.memoryTotal);
    var totalDiskMiB := MiB(report.diskTotal);
    var freeMemoryMiB := MiB(report.memoryAvailable);
    var freeDiskMiB := MiB(report.diskFree);
    var totalCpuCores: U32;
    if currentCore.coreInfoIdx.cpu > 0 {
      totalCpuCores := currentCore.coreInfoIdx.cpu;
    } else {
      totalCpuCores := UNKNOWN_CPU;
    }
    currentCore.coreInfoIdx := Amounts(totalMemoryMiB, totalCpuCores, totalDiskMiB);
    currentCore.freeDisk := freeDiskMiB;
    currentCore.freeMemory := freeMemoryMiB;
    currentCore.freeCPU := totalCpuCores;
  }

  /** An honest report: no more is free than there is, and there are less than 2^22 GB of it. */
  predicate Plausible(r: Report) {
    r.memoryAvailable <= r.memoryTotal < EXACT_BELOW && r.diskFree <= r.diskTotal < EXACT_BELOW
  }

  /** No over-commit of the hardware: cores that started from plausible reports never show more free than they had at
      the start, nor the start more than there is, at any step of a run without rivals. */
  lemma FreeStaysWithinHardware(w: World, steps: seq<Step>, reports: seq<Report>, n: nat, i: nat, kind: Kind)
    requires AllIdle(w) && Ledger.ChoosesFirstFit(w, steps) && Ledger.NoRival(w, steps)
    requires |reports| == |w.stores.rs.cores| && n <= |steps| && i < |reports|
    requires Plausible(reports[i]) && Reported(w.stores.rs.cores[i], reports[i]) == w.stores.rs.cores[i]
    ensures var w' := Exec(w, steps[..n]);
            i < |w'.stores.rs.cores| &&
            Ledger.FreeOf(w'.stores, i, kind) + Ledger.HeldIn(w', i, kind) == Ledger.FreeOf(w.stores, i, kind) &&
            Ledger.FreeOf(w'.stores, i, kind) <= Ledger.FreeOf(w.stores, i, kind) <=
              Get(w.stores.rs.cores[i].total, kind)
    ensures w.stores.rs.cores[i].free.memory == reports[i].memoryAvailable * 1024
    ensures w.stores.rs.cores[i].total.memory == reports[i].memoryTotal * 1024
    ensures w.stores.rs.cores[i].free.disk == reports[i].diskFree * 1024
    ensures w.stores.rs.cores[i].total.disk == reports[i].diskTotal * 1024
  {
    Ledger.NoOvercommitFromStart(w, steps);
    ExactAtEachStep(w, steps, w.stores.rs.cores, n);
    var r := reports[i];
    ConversionIsExact(r.memoryAvailable, r.memoryTotal);
    ConversionIsExact(r.memoryTotal, r.memoryTotal);
    ConversionIsExact(r.diskFree, r.diskTotal);
    ConversionIsExact(r.diskTotal, r.diskTotal);
    hide Exec, Ledger.ChoosesFirstFit, Ledger.NoRival, Ledger.ExactThroughout, MiB;
    var w' := Exec(w, steps[..n]);
    assert Ledger.FreeOf(w'.stores, i, kind) + Ledger.HeldIn(w', i, kind) == Get(w.stores.rs.cores[i].free, kind);
  }

  lemma {:induction false} ExactAtEachStep(w: World, steps: seq<Step>, start: seq<CoreState>, n: nat)
    requires Valid(w) && Ledger.ExactThroughout(w, steps, start) && n <= |steps|
    ensures Ledger.Exact(Exec(w, steps[..n]), start)
    decreases n
  {
    if n > 0 {
      assert steps[..n][1..] == steps[1..][..n - 1];
      ExactAtEachStep(Apply(w, steps[0]), steps[1..], start, n - 1);
    }
  }

  // ---------------------------------------------------------------- the loader

  function LoadOne(s: ResourceState, vm: VMInfo, core: nat): ResourceState
    requires core < |s.cores|
  {
    var c := s.cores[core];
    if vm.uuid in c.vms then s
    else s.(cores := s.cores[core := c.(vms := c.vms[vm.uuid := vm])], location := s.location[vm.uuid := core])
  }

  /** What the loop makes of a state; None if it stops at a core index out of range. */
  function Load(s: ResourceState, infos: seq<VMInfo>, cores: seq<int>): Option<ResourceState>
    requires |infos| == |cores|
    decreases |infos|
  {
    if infos == [] then Some(s)
    else
      var n := |infos| - 1;
      match Load(s, infos[..n], cores[..n])
      case None => None
      case Some(t) => if 0 <= cores[n] < |t.cores| then Some(LoadOne(t, infos[n], cores[n])) else None
  }

  lemma {:induction false} LoadStopsFor(s: ResourceState, infos: seq<VMInfo>, cores: seq<int>, n: nat)
    requires |infos| == |cores| && n <= |infos| && Load(s, infos[..n], cores[..n]).None?
    ensures Load(s, infos, cores).None?
    decreases |infos|
  {
    if n < |infos| {
      var m := |infos| - 1;
      assert infos[..m][..n] == infos[..n] && cores[..m][..n] == cores[..n];
      LoadStopsFor(s, infos[..m], cores[..m], n);
    } else {
      assert infos[..n] == infos && cores[..n] == cores;
    }
  }

  /** What the next VM does to a loop that has come to t. */
  lemma LoadStep(s: ResourceState, infos: seq<VMInfo>, cores: seq<int>, i: nat, t: ResourceState)
    requires |infos| == |cores| && i < |infos| && Load(s, infos[..i], cores[..i]) == Some(t)
    ensures !(0 <= cores[i] < |t.cores|) ==> Load(s, infos, cores).None?
    ensures 0 <= cores[i] < |t.cores| ==>
              Load(s, infos[..i + 1], cores[..i + 1]) == Some(LoadOne(t, infos[i], cores[i]))
  {
    hide LoadOne;
    assert infos[..i + 1][..i] == infos[..i] && cores[..i + 1][..i] == cores[..i];
    if !(0 <= cores[i] < |t.cores|) {
      LoadStopsFor(s, infos, cores, i + 1);
    }
  }

  lemma NothingToLoad(s: ResourceState)
    ensures Load(s, [], []) == Some(s)
  {
  }

  method LoadInstances(resources: ResourceManager, vmInfoList: seq<VMInfo>, coreIdxList: seq<int>) returns (ok: bool)
    requires resources.Valid() && |vmInfoList| == |coreIdxList|
    modifies resources`vmLocation, resources.cores
    ensures resources.Valid()
    ensures ok <==> Load(old(resources.State()), vmInfoList, coreIdxList).Some?
    ensures ok ==> resources.State() == Load(old(resources.State()), vmInfoList, coreIdxList).value
  {
    hide Load, LoadOne;
    ghost var start := resources.State();
    NothingToLoad(start);
    for i := 0 to |vmInfoList|
      invariant resources.Valid()
      invariant Load(start, vmInfoList[..i], coreIdxList[..i]) == Some(resources.State())
    {
      var vmInfo, coreIdx := vmInfoList[i], coreIdxList[i];
      LoadStep(start, vmInfoList, coreIdxList, i, resources.State());
      if coreIdx < 0 || coreIdx >= |resources.cores| {
        return false;
      }
      LoadInstance(resources, vmInfo, coreIdx);
    }
    assert vmInfoList[..|vmInfoList|] == vmInfoList && coreIdxList[..|coreIdxList|] == coreIdxList;
    return true;
  }

  /** The body of the loop for a core index in range. */
  method LoadInstance(resources: ResourceManager, vmInfo: VMInfo, coreIdx: nat)
    requires resources.Valid() && coreIdx < |resources.cores|
    modifies resources`vmLocation, resources.cores[coreIdx]
    ensures resources.Valid() && resources.State() == LoadOne(old(resources.State()), vmInfo, coreIdx)
    ensures vmInfo.uuid in old(resources.cores[coreIdx].vmInfoIdx) ==>
              resources.vmLocation == old(resources.vmLocation) &&
              resources.cores[coreIdx].vmInfoIdx == old(resources.cores[coreIdx].vmInfoIdx)
    ensures vmInfo.uuid !in old(resources.cores[coreIdx].vmInfoIdx) ==>
              resources.vmLocation == old(resources.vmLocation)[vmInfo.uuid := resources.cores[coreIdx]] &&
              resources.cores[coreIdx].vmInfoIdx == old(resources.cores[coreIdx].vmInfoIdx)[vmInfo.uuid := vmInfo]
  {
    hide ResourceManager.State, ResourceManager.IndexOf;
    ghost var s := LoadOne(resources.State(), vmInfo, coreIdx);
    var core := resources.cores[coreIdx];
    if vmInfo.uuid !in core.vmInfoIdx {
      core.vmInfoIdx := core.vmInfoIdx[vmInfo.uuid := vmInfo];
      resources.vmLocation := resources.vmLocation[vmInfo.uuid := core];
    }
    resources.StateIs(s);
  }

  /** The state before the loader: cores without VMs and nothing located. */
  predicate Unloaded(s: ResourceState) {
    s.location == map[] && forall c :: 0 <= c < |s.cores| ==> s.cores[c].vms == map[]
  }

  predicate InRange(cores: seq<int>, n: nat) { forall i :: 0 <= i < |cores| ==> 0 <= cores[i] < n }

  /** Exactly the listed VMs, each at its listed core with its own record, and nothing else changed. */
  ghost predicate Loaded(s: ResourceState, t: ResourceState, infos: seq<VMInfo>, cores: seq<int>)
    requires |infos| == |cores|
  {
    SameApartFromIndex(s, t) && RecordsAreLocated(t) &&
    (forall i :: 0 <= i < |infos| ==> LoadedAt(t, infos[i], cores[i])) &&
    (forall u :: u in t.location ==> Listed(infos, u))
  }

  ghost predicate SameApartFromIndex(s: ResourceState, t: ResourceState) {
    |t.cores| == |s.cores| && t.aliveVM == s.aliveVM &&
    forall c :: 0 <= c < |s.cores| ==> t.cores[c] == s.cores[c].(vms := t.cores[c].vms)
  }

  /** No core has a record of a VM that is located elsewhere or nowhere. */
  ghost predicate RecordsAreLocated(t: ResourceState) {
    forall c, u :: 0 <= c < |t.cores| && u in t.cores[c].vms ==> u in t.location && t.location[u] == c
  }

  ghost predicate Listed(infos: seq<VMInfo>, u: UUID) { exists i :: 0 <= i < |infos| && infos[i].uuid == u }

  predicate LoadedAt(t: ResourceState, vm: VMInfo, core: int) {
    vm.uuid in t.location && t.location[vm.uuid] == core && LookupVM(t, vm.uuid) == Some(vm)
  }

  /** The loader fails exactly if some index is out of range; otherwise it does its job. */
  lemma {:induction false} LoaderIsCorrect(s: ResourceState, infos: seq<VMInfo>, cores: seq<int>)
    requires |infos| == |cores| && DistinctUUIDs(infos) && Unloaded(s)
    ensures Load(s, infos, cores).Some? <==> InRange(cores, |s.cores|)
    ensures Load(s, infos, cores).Some? ==> Loaded(s, Load(s, infos, cores).value, infos, cores)
    decreases |infos|
  {
    hide SameApartFromIndex, RecordsAreLocated;
    if infos == [] {
      NothingLoaded(s);
    } else {
      hide Loaded, Unloaded, LoadOne, DistinctUUIDs, InRange;
      var n := |infos| - 1;
      AllButLast(infos, cores, |s.cores|);
      LoaderIsCorrect(s, infos[..n], cores[..n]);
      var rest := Load(s, infos[..n], cores[..n]);
      if rest.Some? {
        LoadKeepsCoreCount(s, rest.value, infos[..n], cores[..n]);
        if 0 <= cores[n] < |s.cores| {
          OneMoreLoaded(s, rest.value, infos, cores);
        }
      }
    }
  }

  lemma AllButLast(infos: seq<VMInfo>, cores: seq<int>, count: nat)
    requires |infos| == |cores| > 0
    ensures DistinctUUIDs(infos) ==> DistinctUUIDs(infos[..|infos| - 1])
    ensures InRange(cores, count) <==> InRange(cores[..|cores| - 1], count) && 0 <= cores[|cores| - 1] < count
  {
    assert cores == cores[..|cores| - 1] + [cores[|cores| - 1]];
  }

  lemma NothingLoaded(s: ResourceState)
    requires Unloaded(s)
    ensures SameApartFromIndex(s, s) && RecordsAreLocated(s)
  {
  }

  lemma LoadKeepsCoreCount(s: ResourceState, t: ResourceState, infos: seq<VMInfo>, cores: seq<int>)
    requires |infos| == |cores| && Loaded(s, t, infos, cores)
    ensures |t.cores| == |s.cores|
  {
  }

  lemma OneMoreLoaded(s: ResourceState, t: ResourceState, infos: seq<VMInfo>, cores: seq<int>)
    requires |infos| == |cores| > 0 && DistinctUUIDs(infos)
    requires Loaded(s, t, infos[..|infos| - 1], cores[..|cores| - 1])
    requires 0 <= cores[|cores| - 1] < |t.cores|
    ensures Loaded(s, LoadOne(t, infos[|infos| - 1], cores[|cores| - 1]), infos, cores)
  {
    hide SameApartFromIndex, RecordsAreLocated, LoadOne, LoadedAt;
    var n := |infos| - 1;
    var vm, core := infos[n], cores[n];
    var t' := LoadOne(t, vm, core);
    assert !Listed(infos[..n], vm.uuid);
    NewLoaded(s, t, vm, core);
    forall i | 0 <= i < |infos| ensures LoadedAt(t', infos[i], cores[i]) {
      if i < n {
        assert infos[..n][i] == infos[i] && cores[..n][i] == cores[i];
        OthersStayLoaded(t, vm, core, infos[i], cores[i]);
      }
    }
    forall u | u in t'.location ensures Listed(infos, u) {
      if u == vm.uuid {
        assert infos[n].uuid == u;
      } else {
        var i :| 0 <= i < n && infos[..n][i].uuid == u;
        assert infos[i].uuid == u;
      }
    }
  }

  lemma NewLoaded(s: ResourceState, t: ResourceState, vm: VMInfo, core: nat)
    requires SameApartFromIndex(s, t) && RecordsAreLocated(t) && core < |t.cores| && vm.uuid !in t.location
    ensures var t' := LoadOne(t, vm, core);
            SameApartFromIndex(s, t') && RecordsAreLocated(t') && LoadedAt(t', vm, core) &&
            t'.location == t.location[vm.uuid := core]
  {
  }

  lemma OthersStayLoaded(t: ResourceState, vm: VMInfo, core: nat, other: VMInfo, at: int)
    requires core < |t.cores| && LoadedAt(t, other, at) && other.uuid != vm.uuid
    ensures LoadedAt(LoadOne(t, vm, core), other, at)
  {
  }

  // ---------------------------------------------------------------- restart

  /** Every stored VM is in both tables, at a core that exists. */
  predicate TablesOk(t: Tables, cores: nat) {
    Paired(t) && forall u :: u in t.loc ==> 0 <= t.loc[u] < cores
  }

  lemma ActKeepsTablesOk(st: Stores, r: Request, p: Phase, a: Action)
    requires PhaseOk(st, r, p) && TablesOk(st.tables, |st.rs.cores|)
    ensures TablesOk(Act(st, r, p, a).0.tables, |st.rs.cores|)
  {
    hide AddressFails, G.AfterConfigure, G.AfterCleanup, Allocate, Deallocate, Register, Unregister;
  }

  /** The tables can be loaded after a crash at any point of any run. */
  lemma {:induction false} TablesStayLoadable(w: World, steps: seq<Step>)
    requires PhasesOk(w) && TablesOk(w.stores.tables, |w.stores.rs.cores|)
    ensures |Exec(w, steps).stores.rs.cores| == |w.stores.rs.cores|
    ensures TablesOk(Exec(w, steps).stores.tables, |w.stores.rs.cores|)
    decreases |steps|
  {
    if steps != [] {
      hide Act, PhaseOk, TablesOk;
      var s := steps[0];
      ApplyKeepsPhasesOk(w, s);
      if s.call < |w.phases| {
        assert PhaseOk(w.stores, w.requests[s.call], w.phases[s.call]);
        ActKeepsTablesOk(w.stores, w.requests[s.call], w.phases[s.call], s.action);
      }
      TablesStayLoadable(Apply(w, s), steps[1..]);
    }
  }

  /** A restart rebuilds an index that agrees with the tables about every VM. */
  lemma RestartAgrees(st: Stores, rows: seq<JoinedRow>, infos: seq<VMInfo>, cores: seq<int>, rs: ResourceState)
    returns (rs': ResourceState)
    requires TablesOk(st.tables, |rs.cores|) && Unloaded(rs)
    requires ListsJoin(st.tables, rows) && Lists(rows, infos, cores)
    ensures Load(rs, infos, cores) == Some(rs')
    ensures forall u :: Agrees(st.(rs := rs'), u, true)
    ensures forall u :: u in rs'.location <==> u in st.tables.loc
    ensures rs'.aliveVM == rs.aliveVM
    ensures |rs'.cores| == |rs.cores| && forall c :: 0 <= c < |rs.cores| ==> rs'.cores[c].free == rs.cores[c].free
  {
    JoinLosesNoVM(st.tables, [], rows, infos, cores, "");
    LoaderIsCorrect(rs, infos, cores);
    rs' := Load(rs, infos, cores).value;
    forall u ensures Agrees(st.(rs := rs'), u, true)
      ensures u in rs'.location <==> u in st.tables.loc
    {
      RestartAgreesOn(st, rows, infos, cores, rs, rs', u);
    }
  }

  lemma RestartAgreesOn(st: Stores, rows: seq<JoinedRow>, infos: seq<VMInfo>, cores: seq<int>,
                        rs: ResourceState, rs': ResourceState, u: UUID)
    requires TablesOk(st.tables, |rs.cores|) && ListsJoin(st.tables, rows) && Lists(rows, infos, cores)
    requires Loaded(rs, rs', infos, cores)
    ensures Agrees(st.(rs := rs'), u, true)
    ensures u in rs'.location <==> u in st.tables.loc
  {
    hide Loaded, ListsJoin, Lists, RecordAgrees, LoadedAt;
    if u in rs'.location {
      var i := ListedRow(st.tables, rs, rs', rows, infos, cores, u);
    }
    if u in st.tables.loc {
      var i := RowFor(st.tables, rows, u);
      RowLoaded(rs, rs', rows, infos, cores, i);
      RowAgrees(st, rs', rows[i]);
    }
  }

  lemma ListedRow(t: Tables, rs: ResourceState, rs': ResourceState, rows: seq<JoinedRow>,
                  infos: seq<VMInfo>, cores: seq<int>, u: UUID) returns (i: nat)
    requires ListsJoin(t, rows) && Lists(rows, infos, cores) && Loaded(rs, rs', infos, cores) && u in rs'.location
    ensures i < |rows| && rows[i].uuid == u && u in t.loc
  {
    assert Listed(infos, u);
    i :| 0 <= i < |infos| && infos[i].uuid == u;
    assert rows[i].uuid == u;
  }

  lemma RowFor(t: Tables, rows: seq<JoinedRow>, u: UUID) returns (i: nat)
    requires ListsJoin(t, rows) && Paired(t) && u in t.loc
    ensures i < |rows| && rows[i] == JoinedRow(u, t.loc[u], t.info[u])
  {
    i :| 0 <= i < |rows| && rows[i].uuid == u;
  }

  lemma RowLoaded(rs: ResourceState, rs': ResourceState, rows: seq<JoinedRow>,
                  infos: seq<VMInfo>, cores: seq<int>, i: nat)
    requires Lists(rows, infos, cores) && Loaded(rs, rs', infos, cores) && i < |rows|
    ensures LoadedAt(rs', InfoOf(rows[i]), rows[i].core)
  {
    assert LoadedAt(rs', infos[i], cores[i]);
  }

  lemma RowAgrees(st: Stores, rs': ResourceState, row: JoinedRow)
    requires LoadedAt(rs', InfoOf(row), row.core)
    requires row.uuid in st.tables.loc && row.uuid in st.tables.info
    requires row == JoinedRow(row.uuid, st.tables.loc[row.uuid], st.tables.info[row.uuid])
    ensures Agrees(st.(rs := rs'), row.uuid, true) && row.uuid in rs'.location
  {
  }

  /** Restart equivalence: under agreement the rebuilt index gives the same core and the same record, but for the MAC
      address, of every stored VM, so GetVMIPByUUID and FindCoreByVmUUID answer as before. */
  lemma RestartAnswersTheSame(st: Stores, rs': ResourceState, u: UUID)
    requires Agrees(st, u, true) && Agrees(st.(rs := rs'), u, true) && u in st.tables.loc
    ensures LookupVM(st.rs, u).Some? && LookupVM(rs', u).Some?
    ensures LookupVM(rs', u).value == LookupVM(st.rs, u).value.(mac := LookupVM(rs', u).value.mac)
    ensures LookupVM(st.rs, u).value.ip == st.tables.info[u].ip
    ensures forall fault :: FindCore(st.(rs := rs'), u, fault) == FindCore(st, u, fault) == Some(st.tables.loc[u])
  {
  }

  /** All of it over a run: after any calls with any failures, calls about one VM not overlapping, a restart from the
      tables answers for every stored VM about which no call is under way just as the running system did. */
  lemma RestartEquivalence(w: World, steps: seq<Step>, rows: seq<JoinedRow>, infos: seq<VMInfo>, cores: seq<int>,
                           rs: ResourceState, u: UUID) returns (rs': ResourceState)
    requires AllIdle(w) && (forall v :: Agrees(w.stores, v, true)) && OneAtATime(w, steps)
    requires Unloaded(rs) && |rs.cores| == |w.stores.rs.cores|
    requires var st := Exec(w, steps).stores; ListsJoin(st.tables, rows) && Lists(rows, infos, cores)
    requires Quiet(Exec(w, steps), u) && u in Exec(w, steps).stores.tables.loc
    ensures Load(rs, infos, cores) == Some(rs')
    ensures var st := Exec(w, steps).stores;
            LookupVM(st.rs, u).Some? && LookupVM(rs', u).Some? && u in st.tables.info &&
            LookupVM(rs', u).value.ip == LookupVM(st.rs, u).value.ip == st.tables.info[u].ip &&
            (forall fault :: FindCore(st.(rs := rs'), u, fault) == FindCore(st, u, fault))
  {
    hide PhaseOk, Load, Lists;
    forall v | v in w.stores.tables.info || v in w.stores.tables.loc
      ensures v in w.stores.tables.info && v in w.stores.tables.loc
      ensures 0 <= w.stores.tables.loc[v] < |w.stores.rs.cores|
    {
      assert Agrees(w.stores, v, true);
    }
    Ledger.StartConserved(w);
    TablesStayLoadable(w, steps);
    StartAgrees(w, true);
    AgreementStays(w, steps, true);
    hide Exec, Agreement, TablesOk, ListsJoin;
    var st := Exec(w, steps).stores;
    QuietAgrees(Exec(w, steps), u, true);
    rs' := RestartAgrees(st, rows, infos, cores, rs);
    RestartAnswersTheSame(st, rs', u);
  }

  // ---------------------------------------------------------------- any number of crashes

  /** What the system has at the start: an index that agrees with loadable tables, no running VM, a sound Guacamole. */
  ghost predicate Startable(st: Stores) {
    TablesOk(st.tables, |st.rs.cores|) && (forall u :: Agrees(st, u, true)) && st.rs.aliveVM == [] && G.Inv(st.guac)
  }

  /** The calls and steps between a start and a crash, and what the restart then finds: the rows of the join, in the
      order in which the database returns them, and cores with fresh reports. */
  datatype Epoch = Epoch(requests: seq<Request>, steps: seq<Step>, rows: seq<JoinedRow>, rs: ResourceState)

  function Started(st: Stores, requests: seq<Request>): World {
    World(st, requests, seq(|requests|, _ => Idle))
  }

  function InfosOf(rows: seq<JoinedRow>): seq<VMInfo> { seq(|rows|, i requires 0 <= i < |rows| => InfoOf(rows[i])) }

  function CoresOf(rows: seq<JoinedRow>): seq<int> { seq(|rows|, i requires 0 <= i < |rows| => rows[i].core) }

  function AtCrash(st: Stores, e: Epoch): Stores { Exec(Started(st, e.requests), e.steps).stores }

  ghost predicate RestartFinds(st: Stores, e: Epoch) {
    ListsJoin(AtCrash(st, e).tables, e.rows) && Unloaded(e.rs) && e.rs.aliveVM == [] && |e.rs.cores| == |st.rs.cores|
  }

  /** The stores after the restart; the databases survive, the rest is rebuilt. */
  function AfterRestart(st: Stores, e: Epoch): Stores {
    match Load(e.rs, InfosOf(e.rows), CoresOf(e.rows))
    case None => AtCrash(st, e)
    case Some(rs) => AtCrash(st, e).(rs := rs)
  }

  ghost predicate EpochsFollow(st: Stores, epochs: seq<Epoch>)
    decreases |epochs|
  {
    epochs == [] || (RestartFinds(st, epochs[0]) && EpochsFollow(AfterRestart(st, epochs[0]), epochs[1..]))
  }

  function AfterEpochs(st: Stores, epochs: seq<Epoch>): Stores
    decreases |epochs|
  {
    if epochs == [] then st else AfterEpochs(AfterRestart(st, epochs[0]), epochs[1..])
  }

  /** A crash at any point of any run, with any number of calls in flight, is followed by a restart that works. */
  lemma RestartWorks(st: Stores, e: Epoch)
    requires Startable(st) && RestartFinds(st, e)
    ensures Load(e.rs, InfosOf(e.rows), CoresOf(e.rows)).Some?
    ensures Startable(AfterRestart(st, e)) && |AfterRestart(st, e).rs.cores| == |st.rs.cores|
    ensures AfterRestart(st, e).tables == AtCrash(st, e).tables && AfterRestart(st, e).guac == AtCrash(st, e).guac
  {
    hide G.Inv, Agrees, TablesOk, ListsJoin, Unloaded, Exec, Load;
    var w := Started(st, e.requests);
    Ledger.StartConserved(w);
    TablesStayLoadable(w, e.steps);
    SagaSuccess.GuacamoleStaysSound(w, e.steps);
    hide PhasesOk;
    var rs := RestartAgrees(AtCrash(st, e), e.rows, InfosOf(e.rows), CoresOf(e.rows), e.rs);
  }

  /** So after any number of crashes and restarts the system starts in agreement, and what is proved of runs from such a
      start holds of the next one. */
  lemma {:induction false} EveryRestartWorks(st: Stores, epochs: seq<Epoch>)
    requires Startable(st) && EpochsFollow(st, epochs)
    ensures Startable(AfterEpochs(st, epochs))
    decreases |epochs|
  {
    if epochs != [] {
      hide Startable, RestartFinds, AfterRestart;
      RestartWorks(st, epochs[0]);
      EveryRestartWorks(AfterRestart(st, epochs[0]), epochs[1..]);
    }
  }
}

/** structure/mysql_vm_repository.go: the tables inst_info and inst_loc. */
module Instances {
  import opened Common
  import opened Resources

  /** A row of inst_info without its key; the MAC address is not stored. */
  datatype Row = Row(ip: string, guacPassword: string, hw: Amounts)

  function RowOf(vm: VMInfo): Row { Row(vm.ip, vm.guacPassword, vm.hw) }

  /** Both tables have uuid as their primary key. */
  datatype Tables = Tables(info: map<UUID, Row>, loc: map<UUID, int>)

  predicate Paired(t: Tables) { t.info.Keys == t.loc.Keys }

  // ---------------------------------------------------------------- the transactions

  /** Statements: 0 begin, 1 inst_info, 2 inst_loc, 3 commit. */
  predicate AddSucceeds(t: Tables, uuid: UUID, fault: Fault) {
    !StrikesBefore(fault, 4) && uuid !in t.info && uuid !in t.loc
  }

  function Add(t: Tables, vm: VMInfo, core: int, fault: Fault): Tables {
    if AddSucceeds(t, vm.uuid, fault) then Tables(t.info[vm.uuid := RowOf(vm)], t.loc[vm.uuid := core]) else t
  }

  function Remove(t: Tables, uuid: UUID, fault: Fault): Tables {
    if StrikesBefore(fault, 4) then t else Tables(t.info - {uuid}, t.loc - {uuid})
  }

  function Update(t: Tables, vm: VMInfo, fault: Fault): Tables {
    if StrikesBefore(fault, 3) || vm.uuid !in t.info then t
    else t.(info := t.info[vm.uuid := Row(vm.ip, t.info[vm.uuid].guacPassword, vm.hw)])
  }

  /** A row of the join of the two tables. */
  datatype JoinedRow = JoinedRow(uuid: UUID, core: int, row: Row)

  function InfoOf(r: JoinedRow): VMInfo { VMInfo(r.uuid, r.row.ip, r.row.guacPassword, "", r.row.hw) }

  /** rows lists the join, each row once, in whatever order the database returns it. */
  ghost predicate ListsJoin(t: Tables, rows: seq<JoinedRow>) {
    (forall i :: 0 <= i < |rows| ==>
       rows[i].uuid in t.info && rows[i].uuid in t.loc &&
       rows[i].core == t.loc[rows[i].uuid] && rows[i].row == t.info[rows[i].uuid]) &&
    (forall u :: u in t.info && u in t.loc ==> exists i :: 0 <= i < |rows| && rows[i].uuid == u) &&
    (forall i, j :: 0 <= i < j < |rows| ==> rows[i].uuid != rows[j].uuid)
  }

  class MySQLVMRepository {
    var instInfo: map<UUID, Row>
    var instLoc: map<UUID, int>

    function State(): Tables
      reads this
    {
      Tables(instInfo, instLoc)
    }

    /** The statements run one by one; an early return rolls the open transaction back. */
    method AddInstance(instanceInfo: VMInfo, coreIdx: int, fault: Fault) returns (ok: bool)
      modifies this
      ensures State() == Add(old(State()), instanceInfo, coreIdx, fault)
      ensures ok <==> AddSucceeds(old(State()), instanceInfo.uuid, fault)
      ensures ok <==> (fault.None? || fault.value > 3) &&
                      instanceInfo.uuid !in old(instInfo) && instanceInfo.uuid !in old(instLoc)
      ensures ok ==> instLoc == old(instLoc)[instanceInfo.uuid := coreIdx] &&
                     instInfo == old(instInfo)[instanceInfo.uuid :=
                                   Row(instanceInfo.ip, instanceInfo.guacPassword, instanceInfo.hw)]
      ensures !ok ==> instInfo == old(instInfo) && instLoc == old(instLoc)
    {
      if Strikes(fault, 0) { return false; }
      var savedInfo, savedLoc := instInfo, instLoc;
      if Strikes(fault, 1) || instanceInfo.uuid in instInfo {
        instInfo, instLoc := savedInfo, savedLoc;
        return false;
      }
      instInfo := instInfo[instanceInfo.uuid := RowOf(instanceInfo)];
      if Strikes(fault, 2) || instanceInfo.uuid in instLoc {
        instInfo, instLoc := savedInfo, savedLoc;
        return false;
      }
      instLoc := instLoc[instanceInfo.uuid := coreIdx];
      if Strikes(fault, 3) {
        instInfo, instLoc := savedInfo, savedLoc;
        return false;
      }
      return true;
    }

    method UpdateInstance(instanceInfo: VMInfo, fault: Fault) returns (ok: bool)
      modifies this
      ensures State() == Update(old(State()), instanceInfo, fault)
      ensures ok <==> fault.None? || fault.value > 2
      ensures instLoc == old(instLoc) && instInfo.Keys == old(instInfo).Keys
      ensures forall u :: u in instInfo && u != instanceInfo.uuid ==> instInfo[u] == old(instInfo)[u]
      ensures ok && instanceInfo.uuid in instInfo ==>
                instInfo[instanceInfo.uuid].ip == instanceInfo.ip && instInfo[instanceInfo.uuid].hw == instanceInfo.hw
      ensures instanceInfo.uuid in instInfo ==>
                instInfo[instanceInfo.uuid].guacPassword == old(instInfo)[instanceInfo.uuid].guacPassword
      ensures !ok ==> instInfo == old(instInfo)
    {
      if Strikes(fault, 0) { return false; }
      var savedInfo := instInfo;
      if Strikes(fault, 1) { return false; }
      if instanceInfo.uuid in instInfo {
        var kept := instInfo[instanceInfo.uuid].guacPassword;
        instInfo := instInfo[instanceInfo.uuid := Row(instanceInfo.ip, kept, instanceInfo.hw)];
      }
      if Strikes(fault, 2) {
        instInfo := savedInfo;
        return false;
      }
      return true;
    }

    method DeleteInstance(uuid: UUID, fault: Fault) returns (ok: bool)
      modifies this
      ensures State() == Remove(old(State()), uuid, fault)
      ensures ok <==> !StrikesBefore(fault, 4)
      ensures ok <==> fault.None? || fault.value > 3
      ensures ok ==> instInfo == old(instInfo) - {uuid} && instLoc == old(instLoc) - {uuid}
      ensures !ok ==> instInfo == old(instInfo) && instLoc == old(instLoc)
    {
      if Strikes(fault, 0) { return false; }
      var savedInfo, savedLoc := instInfo, instLoc;
      if Strikes(fault, 1) { return false; }
      instInfo := instInfo - {uuid};
      if Strikes(fault, 2) {
        instInfo, instLoc := savedInfo, savedLoc;
        return false;
      }
      instLoc := instLoc - {uuid};
      if Strikes(fault, 3) {
        instInfo, instLoc := savedInfo, savedLoc;
        return false;
      }
      return true;
    }

    /** Statements: 0 begin, 1 select, 2 commit. */
    method GetInstanceLocation(uuid: UUID, fault: Fault) returns (core: Option<int>)
      ensures core == if StrikesBefore(fault, 3) || uuid !in instLoc then None else Some(instLoc[uuid])
      ensures fault.None? && uuid in instLoc ==> core == Some(instLoc[uuid])
    {
      if Strikes(fault, 0) || Strikes(fault, 1) || uuid !in instLoc || Strikes(fault, 2) { return None; }
      return Some(instLoc[uuid]);
    }

    /** rows is the result of the join query; a fault may strike at begin, at the query, at any row,
        at the end of the rows or at commit. */
    method GetAllInstanceInfo(rows: seq<JoinedRow>, fault: Fault)
      returns (lists: Option<(seq<VMInfo>, seq<int>)>)
      requires ListsJoin(State(), rows)
      ensures lists.None? <==> StrikesBefore(fault, |rows| + 4)
      ensures fault.None? ==> lists.Some?
      ensures lists.Some? ==> Lists(rows, lists.value.0, lists.value.1)
      ensures lists.Some? ==> |lists.value.0| == |rows| == |lists.value.1|
      ensures lists.Some? ==> forall i :: 0 <= i < |rows| ==>
                lists.value.0[i].uuid == rows[i].uuid && lists.value.0[i].ip == rows[i].row.ip &&
                lists.value.0[i].guacPassword == rows[i].row.guacPassword &&
                lists.value.0[i].mac == "" && lists.value.0[i].hw == rows[i].row.hw && lists.value.1[i] == rows[i].core
    {
      if Strikes(fault, 0) || Strikes(fault, 1) { return None; }
      var coreIdxList: seq<int> := [];
      var vmInfoList: seq<VMInfo> := [];
      for i := 0 to |rows|
        invariant !StrikesBefore(fault, i + 2)
        invariant Lists(rows[..i], vmInfoList, coreIdxList)
      {
        if Strikes(fault, i + 2) { return None; }
        vmInfoList := vmInfoList + [InfoOf(rows[i])];
        coreIdxList := coreIdxList + [rows[i].core];
      }
      assert rows[..|rows|] == rows;
      if Strikes(fault, |rows| + 2) || Strikes(fault, |rows| + 3) { return None; }
      return Some((vmInfoList, coreIdxList));
    }
  }

  ghost predicate Lists(rows: seq<JoinedRow>, infos: seq<VMInfo>, cores: seq<int>) {
    |infos| == |rows| && |cores| == |rows| &&
    forall i :: 0 <= i < |rows| ==> infos[i] == InfoOf(rows[i]) && cores[i] == rows[i].core
  }

  // ---------------------------------------------------------------- the tables stay paired

  datatype Op =
    | OpAdd(vm: VMInfo, core: int, fault: Fault)
    | OpUpdate(vm: VMInfo, fault: Fault)
    | OpRemove(uuid: UUID, fault: Fault)

  function ApplyOp(t: Tables, op: Op): Tables {
    match op
    case OpAdd(vm, core, fault) => Add(t, vm, core, fault)
    case OpUpdate(vm, fault) => Update(t, vm, fault)
    case OpRemove(uuid, fault) => Remove(t, uuid, fault)
  }

  function RunOps(t: Tables, ops: seq<Op>): Tables
    decreases |ops|
  {
    if ops == [] then t else RunOps(ApplyOp(t, ops[0]), ops[1..])
  }

  lemma {:induction false} TablesStayPaired(t: Tables, ops: seq<Op>)
    requires Paired(t)
    ensures Paired(RunOps(t, ops))
    decreases |ops|
  {
    if ops != [] {
      TablesStayPaired(ApplyOp(t, ops[0]), ops[1..]);
    }
  }

  /** So the loader sees every VM of either table exactly once, each with its own core. */
  lemma JoinLosesNoVM(t: Tables, ops: seq<Op>, rows: seq<JoinedRow>, infos: seq<VMInfo>, cores: seq<int>, u: UUID)
    requires Paired(t) && ListsJoin(RunOps(t, ops), rows) && Lists(rows, infos, cores)
    ensures var t' := RunOps(t, ops);
            u in t'.info || u in t'.loc <==>
            exists i :: 0 <= i < |infos| && infos[i].uuid == u
    ensures var t' := RunOps(t, ops);
            forall i :: 0 <= i < |infos| ==>
              infos[i].uuid in t'.info && infos[i].uuid in t'.loc &&
              RowOf(infos[i]) == t'.info[infos[i].uuid] && cores[i] == t'.loc[infos[i].uuid]
    ensures DistinctUUIDs(infos)
  {
    TablesStayPaired(t, ops);
    var t' := RunOps(t, ops);
    forall i | 0 <= i < |infos|
      ensures infos[i].uuid in t'.info && infos[i].uuid in t'.loc
      ensures RowOf(infos[i]) == t'.info[infos[i].uuid] && cores[i] == t'.loc[infos[i].uuid]
    {
      assert rows[i].uuid in t'.info;
    }
    if u in t'.info || u in t'.loc {
      var i :| 0 <= i < |rows| && rows[i].uuid == u;
      assert infos[i].uuid == u;
    }
  }
}

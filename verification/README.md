# KWS_Control: the VM lifecycle and the stores it keeps

KWS_Control is the control plane of a small VM cloud. A VM lives in six places at once: a charge and a record on a core in
memory, an entry in `VMLocation`, a place on the list of running VMs, rows of `inst_info` and `inst_loc`, an account in the
Guacamole database, and an address that CMS handed out. This project models the operations that touch them and proves that
they stay consistent, whatever the cores, CMS and the databases answer and however calls interleave.

| file | part of the system |
|---|---|
| `Network.dfy` | the subnet odometer on strings, with Go's `strconv.Atoi`, and the subnet of an address |
| `Subnet.dfy` | the write-ahead protocol around it, with crashes at any point |
| `Resources.dfy` | cores, `uint32` accounting, `VMLocation`, `AliveVM` |
| `Instances.dfy` | the transactions on `inst_info` and `inst_loc` |
| `Guacamole.dfy`, `GuacamoleView.dfy` | the five Guacamole tables with cascades and counters, and what a run does to them up to ids |
| `Cleanup.dfy` | chains of compensations |
| `Saga.dfy` | creates, deletes, shutdowns and lookups as a machine, any number of calls in flight |
| `SagaLedger.dfy`, `SagaTrace.dfy`, `SagaIndex.dfy`, `SagaCache.dfy`, `SagaAlive.dfy`, `SagaAnswers.dfy`, `SagaSuccess.dfy` | what holds of every run of the machine |
| `Startup.dfy` | reports of the cores, the loader, restarts |
| `Addresses.dfy` | serial runs of all operations and restarts: who has which address |
| `Control.dfy` | the operations of `ControlContext` and of `service/` as they are written |

How it is modelled:

- Objects whose methods update fields are classes: `Core`, `ResourceManager`, `MySQLVMRepository`, `GuacamoleDatabase`,
  `CleanupChain`, `ControlContext`. Each method is proved against a function of the old state, and the theorems are about
  these functions. What the functions give is also written out, value by value and field by field, where a reader might
  otherwise have to trust them.
- `Saga` cuts the three kinds of calls at their locks and transactions. A step of any call may come next, with any answer
  of a core, of CMS or of a database. `Control.RunCallIsExec` shows that a method run without interruption is one of these
  runs.
- A transaction gets the number of its first statement that fails, if any (`Common.Fault`). A failed transaction leaves its
  tables as they were, but not the `AUTO_INCREMENT` counters.
- Conditions that a theorem needs are stated as conditions on the run: first fit and no rival (`SagaLedger`); creates of one
  UUID that do not overlap and each start when nothing is left of it, or UUIDs used once (`SagaTrace`, `SagaAlive`,
  `SagaSuccess`); calls about one VM not overlapping (`SagaIndex`, `SagaCache`); what CMS may do (`Subnet.Trust`,
  `Addresses.MayOp`). For most of them a lemma shows what goes wrong without: `RivalsOvercommit`,
  `RefusedCreateLosesStoredVM`, `GrantedSubnetsIncreaseIff`, `CorrectionAgreesIffInSubnet`.
- The compensating `guacamole.Cleanup` may fail, and the code only logs that (`service/vm.go:71-73`). Nothing but the
  Guacamole account of the failed create depends on it: where a statement about that account needs a working cleanup, it
  says so (`tidy` in `SagaTrace`, `CleanUpWorks` in `Control`).

Where the code differs from what is written about it, the model follows the code:

- `README.md:176` says that `"Add"` reuses the subnet of an existing VM. `AddCmsSubnet` looks up the UUID of the VM being
  created, so an `"Add"` create for a new UUID gets no address in any run (`SagaAlive.AddNeverGetsAnAddress`).
- `pkg/guacamole/config.go:96` has an `ON DUPLICATE KEY` that never fires, because the connection name has no unique key
  (`database.md:34-41`). Repeated `Configure` calls make several connections of one name; `Cleanup` removes all of them.
- The address that `DeleteVM` sends to CMS is the stored one only while the VM is stored. A second delete of the same VM
  sends the old address again. As long as all VMs get their addresses in new subnets, one after the other, it is never that
  of another VM (`Addresses.StaleReleaseHitsNoOther`); otherwise it may be (`Control.SecondDeleteReleasesAddressInUse`).
- A create for a VM that is stored already takes that VM's Guacamole account away if it fails after its reservation and the
  cleanup works, and its record if the chosen core is the VM's own (`Control.FailedCreateOfStoredVM`).
- After the last subnet `FindSubnet` answers `"err"`, which is written to the database and sent to CMS like a subnet. If CMS
  refuses and the rollback succeeds, all is as before, and the next create does the same again. If the rollback fails, if the
  system crashes between the first write and the rollback, then `"err"` stays in variable and row; so it does if CMS grants
  `"err"`, unless the create goes on to correct the row. With `"err"` in both every later new-subnet create panics, restart
  or not (`Subnet.LastSubnetIsUsedUpExactly`, `Subnet.ExhaustsExactly`, `Subnet.ExhaustionIsFinal`).
- A lost answer of CMS is treated like a refusal. If the rollback then succeeds, the next create asks for the same subnet,
  and if CMS grants it, it is handed out twice. A crash or a failed rollback in between leaves it behind
  (`Subnet.GrantedSubnetsIncreaseIff`).
- Sizes are commented as GiB in `structure/vm.go:27-28`, but they are MiB.

## Model

| member | source | states |
|---|---|---|
| Network.FindSubnet | pkg/network/network.go:9-39 | the nested loops, the carry and the printing give the successor function `NextSubnet`; they panic exactly if one of three fields has no dot after it |
| Network.ReadField | pkg/network/network.go:13-17 | the inner loop splits off the longest dot-free prefix |
| Network.AtoiInvertsItoa | pkg/network/network.go:18 | every printed octet is read back as itself |
| Network.FindSubnetIsSuccessor | pkg/network/network.go:22-38 | on any string starting with three canonical octets the result is their 24-bit number plus one, again in canonical form; `"err"` exactly at 255.255.255 |
| Network.IterateAdds | pkg/network/network.go:9-39 | n calls in a row add n; the call that passes the last subnet gives `"err"`, and any further call panics |
| Network.ErrExactly | pkg/network/network.go:22-26 | for any string at all: `"err"` if and only if there are three fields and each reads as 255 or more |
| Network.ErrPanics | pkg/network/network.go:14 | `"err"` itself is not a usable input |
| Network.SubnetOfAddressHasSameSuccessor | pkg/network/network.go:9-47 | for any four-part address, its subnet and the address itself have the same next subnet |
| Network.SubnetOfFreshAddress | pkg/network/network.go:38-47 | the subnet of an address formed from a new subnet and a dot-free host part is that subnet |
| Subnet.StepKeepsProgress | service/network.go:38-61 | each step of the protocol, a crash, a lost answer and a failed rollback included, leaves variable and row at known octets; only a grant and what keeps the row ahead move them on, by one |
| Subnet.StepKeepsInv | service/network.go:38-61 | each step keeps all granted numbers below a known ceiling and in order, strictly as long as nothing is granted while a subnet is owed |
| Subnet.RejectedRowIsGrantedIffLost | service/network.go:50-60 | as long as no lost answer has been rolled back, the rollback of a failed request gives back a granted subnet exactly if the answer was lost |
| Subnet.GrantedSubnetsIncreaseIff | service/network.go:35-62 | over all serial runs with refusals, lost answers, failed updates and rollbacks, and crashes at any point, the subnets CMS grants strictly increase as 24-bit numbers if and only if CMS grants nothing between the rollback of a lost answer and the next crash or failed rollback that moves the row on |
| Subnet.GrantedSubnetsIncrease | service/network.go:35-62 | in particular they increase, and are pairwise different, in all runs in which no lost answer is rolled back |
| Subnet.GrantedSubnetsNeverDecrease | service/network.go:35-62 | with lost answers rolled back or not, the granted numbers never decrease |
| Subnet.RestartFindsTheSameSubnet | startup/init.go:152-157 | between creates the variable and the stored row give the same next subnet in every run in which addresses lie in their subnets, lost answers and failed rollbacks included, so a restart changes nothing |
| Subnet.ExhaustsExactly | service/network.go:38-61 | while addresses lie in their subnets, a run gets `"err"` into both values exactly at the last octets, by a crash with `"err"` written ahead or by a failed rollback of it |
| Subnet.LastSubnetIsUsedUpExactly | service/network.go:35-62 | a create from the last subnet, for every answer of CMS and cut off by a crash after any number of steps: exactly when it leaves `"err"` in both values, and that a rollback leads back to where it started |
| Subnet.ExhaustionIsFinal | service/network.go:38-48 | with `"err"` in both values every new-subnet create panics, and no run of any actions, restarts included, changes anything again |
| Subnet.FailedRollbackExhausts | service/network.go:50-56 | a run that gets there: at the last subnet CMS refuses `"err"` and the rollback fails; nothing that comes later helps |
| Subnet.LostAnswerRepeatsIffRolledBack | service/network.go:50-60 | if CMS granted a subnet but its answer got lost, the next create asks for it again exactly if the rollback succeeded |
| Subnet.GivingBackRepeats | service/network.go:50-60 | if the create right after the rollback of a granted subnet is granted an address, it is in that subnet again |
| Subnet.CorrectionAgreesIffInSubnet | service/vm.go:123-129 | correcting the row to CMS's address keeps row and variable in step exactly if the address starts with the granted octets |
| Resources.Core.constructor | startup/init.go:191-195 | a new core is alive, without VMs and with nothing free |
| Resources.ResourceManager.constructor | structure/resource_manager.go:17-21 | no cores, nothing located, nothing running |
| Resources.ResourceManager.SelectCore | structure/resource_manager.go:46-69 | the selected core is alive with free memory, processors and disk of at least the request, and each core before it is dead or short of one of the three; none is selected only if that is so of all cores; the alive count is the number of alive cores looked at |
| Resources.FirstFitIs | structure/resource_manager.go:55-67 | first fit, written out: alive, three amounts, and no such core before it or at all |
| Resources.CountAliveIs | structure/resource_manager.go:55-60 | the running count is the number of alive cores |
| Resources.ResourceManager.AllocateResources | structure/resource_manager.go:72-83 | the whole new state: record entered, three counters charged modulo 2^32, nothing else changed |
| Resources.ResourceManager.DeallocateResources | structure/resource_manager.go:86-94 | the whole new state after giving back |
| Resources.DeallocateUndoesAllocate | structure/resource_manager.go:85-94 | giving back restores the state, wrap-around included, if and only if the core had no record of that UUID before |
| Resources.ResourceManager.RegisterVM | structure/resource_manager.go:97-103 | located at the given core and appended to the running VMs |
| Resources.ResourceManager.UnregisterAlive | structure/resource_manager.go:106-117 | the first VM of that UUID leaves the list; the result says whether there was one |
| Resources.RemoveFirstIs | structure/resource_manager.go:110-115 | the first VM of the UUID leaves and all others stay in order; without one nothing changes |
| Resources.RemoveFirstRemovesExactly | structure/resource_manager.go:110-115 | on a list without duplicates exactly that VM leaves and the others keep their order |
| Instances.MySQLVMRepository.AddInstance | structure/mysql_vm_repository.go:21-56 | it succeeds if and only if no statement fails and the UUID is in neither table; then the tables are the old ones with address, password and amounts in `inst_info` and the core index in `inst_loc`, else they are the old ones |
| Instances.MySQLVMRepository.UpdateInstance | structure/mysql_vm_repository.go:60-87 | only the given VM's row changes: address and amounts, not its password; a missing row is not made |
| Instances.MySQLVMRepository.DeleteInstance | structure/mysql_vm_repository.go:90-115 | both rows go or neither |
| Instances.MySQLVMRepository.GetInstanceLocation | structure/mysql_vm_repository.go:150-173 | the stored core index, unless a statement fails or there is no row |
| Instances.MySQLVMRepository.GetAllInstanceInfo | structure/mysql_vm_repository.go:176-221 | two aligned lists of all rows of the join, or an error if and only if a statement, a row or the commit fails |
| Instances.TablesStayPaired | structure/mysql_vm_repository.go:21-115 | after every sequence of operations with failures at any statement, both tables have the same UUIDs |
| Instances.JoinLosesNoVM | structure/mysql_vm_repository.go:193-213 | hence every VM of either table is in the lists exactly once, with its own row and core |
| Guacamole.GuacamoleDatabase.InsertEntity | pkg/guacamole/config.go:59-68 | the new entity gets the counter's value |
| Guacamole.GuacamoleDatabase.UpsertUser | pkg/guacamole/config.go:78-89 | one user per entity, keeping its id, with the new credentials |
| Guacamole.GuacamoleDatabase.InsertConnection | pkg/guacamole/config.go:92-107 | always a new connection, whatever names exist |
| Guacamole.GuacamoleDatabase.SetParameters | pkg/guacamole/config.go:110-127 | the same four parameters in whatever order the map is visited; stops at the first failure |
| Guacamole.GuacamoleDatabase.WriteConfiguration | pkg/guacamole/config.go:57-138 | all rows of one configuration, and the counters drawn up to the failure |
| Guacamole.GuacamoleDatabase.Configure | pkg/guacamole/config.go:17-147 | without a failure the VM's user has the new credentials and may use a new connection with the address as host name, port 22, the given user name and private key, and the password is returned; with one the rows are the old ones and the password is empty |
| Guacamole.ConfigureWrites | pkg/guacamole/config.go:57-138 | the rows of one configuration, value by value: entity, credentials, connection, its four parameters and the permission |
| Guacamole.GuacamoleDatabase.Cleanup | pkg/guacamole/config.go:149-212 | entity and connections of the UUID with their cascades, or nothing; it fails exactly if one of its statements fails, of which there are three less without an entity |
| Guacamole.ConfigureKeepsInv | pkg/guacamole/config.go:53-144 | with a failure at any statement: foreign keys hold, keys are unique, each entity has one user, each connection four parameters and one permission held by the entity it is named after |
| Guacamole.CleanupKeepsInv | pkg/guacamole/config.go:149-212 | the same for Cleanup |
| Guacamole.OrphansAreAll | pkg/guacamole/config.go:193-199 | once the entity is gone, the connections without a permission are exactly all connections of that UUID |
| Guacamole.CleanupRows | pkg/guacamole/config.go:187-199 | a Cleanup leaves the rows of every other UUID untouched |
| GuacamoleView.SameViewIsRenaming | database.md:1-79 | two sound databases with the same accounts are the same five tables up to a bijective renaming of entity and connection ids |
| GuacamoleView.ApplyRefines | pkg/guacamole/config.go:53-212 | each transaction refines one on a map from UUID to account: credentials replaced and one connection more, or the account dropped |
| GuacamoleView.ConfigureGives | pkg/guacamole/config.go:109-135 | after a configuration without a failure the newest connection of the account has the given host name, user name and private key and port 22, and the account has the new credentials |
| GuacamoleView.EmptyDbInv | database.md:1-79 | the empty database is sound and has no account |
| GuacamoleView.RunKeepsInv | pkg/guacamole/config.go:53-212 | the invariant holds after every run of Configure and Cleanup with failures at any statement |
| GuacamoleView.OthersDoNotSee | pkg/guacamole/config.go:149-212 | the calls for one UUID are invisible to all other accounts, in every interleaving of calls |
| GuacamoleView.CleanupErases | pkg/guacamole/config.go:149-212 | after any run, a working Cleanup leaves no row of the UUID, however often it was configured, and the database is that of the run without the UUID's calls, up to ids |
| Cleanup.CleanupChain.constructor | service/cleanup.go:6-8 | an empty chain |
| Cleanup.CleanupChain.Push | service/cleanup.go:10-12 | appends one step |
| Cleanup.UnwindConcat | service/cleanup.go:14-17 | later steps are undone first: unwinding a joined chain is unwinding its second part and then its first |
| Cleanup.ChainRestoresIffEachInverts | service/cleanup.go:14-20 | a chain takes every later state back to every earlier one if and only if each compensation inverts its step |
| Cleanup.RunRestoresTheStart | service/cleanup.go:14-20 | after any number of steps the chain restores the start, and a second run changes nothing |
| Saga.RunKeepsPhasesOk | service/vm.go:18-136 | in every run each call is in a phase that fits its kind, with a core that exists and, for a create, its own UUID and amounts |
| Saga.AddNeedsOwnRecord | service/network.go:13-32 | an `"Add"` create gets an address if and only if its own UUID is already registered with a four-part address; for a new UUID it fails |
| SagaLedger.ActMovesFree | service/vm.go:86-90 | one step of one call moves a counter by exactly what that call takes or gives back, modulo 2^32 |
| SagaLedger.Conservation | structure/resource_manager.go:72-94 | at every step of every interleaving, with any failures and even duplicate UUIDs, each counter is its startup value minus what all calls hold, modulo 2^32 |
| SagaLedger.TruthfulIffFits | structure/resource_manager.go:72-94 | in every reachable state a counter is exact, without wrap-around, if and only if no more is held than was free at the start |
| SagaLedger.NeverWrapsIffCovered | structure/resource_manager.go:72-94 | over any run, no addition or subtraction wraps at any step if and only if every reservation finds its core still covering it when it gets the lock |
| SagaLedger.NoOvercommit | structure/resource_manager.go:46-94 | from any exact state: if cores are chosen by first fit and no one reserves on a core between another call's choice and its reservation, no addition or subtraction wraps at any step |
| SagaLedger.NoOvercommitFromStart | structure/resource_manager.go:46-94 | the same from the start |
| SagaLedger.RivalsOvercommit | service/vm.go:30-87 | without that condition: any two creates that fit one by one but not together have a run of first-fit choices after which the counter has wrapped by 2^32 |
| SagaTrace.SurvivorActs | service/vm.go:18-267 | a call cannot tell whether the traces of failing creates of other VMs are there |
| SagaTrace.FailingActs | service/vm.go:62-121 | a create that will fail changes nothing but what belongs to its own VM |
| SagaTrace.ErasureSimulates | service/vm.go:42-135 | a run and the run without the steps of failing creates stay in step |
| SagaTrace.AbortedSagasLeaveNoTrace | service/vm.go:42-135 | erase from any interleaving the steps of failed creates, retries under one UUID included: cores with counters and records, locations, running VMs, instance tables and all other accounts are equal, whether the cleanups worked or not; if they did and each try started without an account, the Guacamole tables are equal up to renamed ids |
| SagaTrace.DistinctCreatesStartFresh | service/vm.go:18-136 | creates with distinct UUIDs of which nothing is left at the beginning of a run start fresh in every interleaving |
| SagaTrace.NoTraceOfDistinctCreates | service/vm.go:42-135 | so no trace of the failed ones is left either |
| SagaIndex.ActIsLocal | service/vm.go:18-304 | a call about one VM leaves every entry about any other VM as it was |
| SagaIndex.ActAgrees | service/vm.go:86-131 | a call that is alone with its VM keeps index and tables in agreement about it, or in the known intermediate state of its phase |
| SagaIndex.AgreementStays | service/vm.go:18-304 | agreement survives all runs with any failures in which calls about one VM do not overlap, including creating a deleted VM again on another core |
| SagaIndex.IndexAgreesWithTables | service/vm.go:86-131 | when no call about a VM is under way, it is in both tables or in neither, and if it is stored then `VMLocation` and `VMInfoIdx` have its core, address, password and amounts |
| SagaCache.ForgettingIsInvisible | structure/control_infra.go:19-45 | dropping a cache entry is invisible to a working lookup if and only if the tables have the same core |
| SagaCache.CacheIsTransparent | structure/control_infra.go:22-44 | for a stored VM, whatever has been dropped before, no dropped entry is missed, and the fill on a miss puts the right entry back |
| SagaCache.ForgettingKeepsAgreement | structure/control_infra.go:36-43 | entries may be dropped in the middle of a run without harming the agreement |
| SagaCache.NoDropIsMissed | structure/control_infra.go:19-45 | in every run in which calls about one VM do not overlap, with any entries dropped at any points, a working lookup of a stored VM without a call under way gives the core of `inst_loc`, and a fill leaves index and tables in agreement |
| SagaCache.DropsChangeNoAnswer | structure/control_infra.go:19-45 | dropping entries of stored VMs between the calls about them: the run with the drops and the run without end with the same cores, running VMs, tables and Guacamole database, and `FindCoreByVmUUID` answers the same in both |
| SagaIndex.RefusedCreateLosesStoredVM | service/vm.go:86-114 | a create for a stored VM that the core refuses takes away the VM's Guacamole account exactly if the cleanup works, and the agreement about it exactly if the chosen core is the VM's own |
| SagaAlive.LookupWrites | structure/control_infra.go:36-44 | a call that is no create writes no location but the one the tables gave it, and adds no rows |
| SagaAlive.RegistrationOrder | structure/resource_manager.go:97-117 | in every run the list of running VMs is a subsequence of the order of registration |
| SagaAlive.AliveListIsFaithful | structure/resource_manager.go:97-117 | with UUIDs used once, in any interleaving: no UUID twice, registration order, each record the very one found through `VMLocation` and `VMInfoIdx`, and every completed VM listed until its shutdown |
| SagaAlive.AddNeverGetsAnAddress | service/vm.go:206-213 | in no run does an `"Add"` create for a new UUID get past the selection of its core |
| SagaAnswers.RecordIsOwn | service/vm.go:53-131 | in every interleaving, a create that has configured Guacamole or gone further has the record made of its own UUID and amounts, the address and MAC address that CMS gave it and the password generated for it, on the core chosen for it |
| SagaAnswers.ChosenCoreWasOnOffer | service/vm.go:30-40 | in every interleaving with first-fit choices, the core of a create was alive and had enough of all three amounts when it was selected, and was the first such core |
| SagaAnswers.SelectionFailsOnlyForLack | service/vm.go:30-40 | a create gets past its selection if and only if some core is alive and has enough at that moment |
| SagaSuccess.GuacamoleStaysSound | pkg/guacamole/config.go:53-212 | the Guacamole invariant holds at every point of every run of calls |
| SagaSuccess.CompletedVMIsEverywhere | service/vm.go:62-135 | in any interleaving the VM of a completed create, made of its own answers, is in both tables, on its core, located, running and reachable through Guacamole at its address, on port 22, as the first user of the request and with its own key and credentials, until a delete gets through to the tables |
| Startup.ConversionIsExact | startup/init.go:218-221 | gigabytes are converted to MiB exactly if and only if there are less than 2^22 of them; order is kept exactly as it is modulo 2^22 |
| Startup.RecordReport | startup/init.go:218-237 | total and free amounts from the report, times 1024 below 2^22; processors as known, or 9999 if their number is not |
| Startup.FreeStaysWithinHardware | startup/init.go:218-237 | for plausible reports, at every step of a run without rivals: free plus held is what was free at the start, which is within the reported total |
| Startup.LoadInstances | startup/init.go:252-267 | the loop computes `Load`, or fails where `Load` does |
| Startup.LoadInstance | startup/init.go:257-266 | one round of the loop, skipping a UUID the core already has |
| Startup.LoaderIsCorrect | startup/init.go:252-267 | with distinct UUIDs and empty indexes the loader fails if and only if some index is out of range; otherwise exactly the listed VMs are located, each with its own record on exactly its listed core, and no counter has moved |
| Startup.TablesStayLoadable | startup/init.go:252-256 | at every point of every run the tables are paired and every stored core index is in range |
| Startup.RestartAgrees | startup/init.go:247-267 | from loadable tables the loader builds an index that agrees with them about every VM and locates exactly the stored ones |
| Startup.RestartAnswersTheSame | startup/init.go:252-267 | two indexes that agree with the tables give the same core and the same record, but for the MAC address |
| Startup.RestartEquivalence | startup/init.go:247-267 | after any run in which calls about one VM do not overlap, a restart answers `GetVMIPByUUID` and `FindCoreByVmUUID` for every stored VM without a call under way just as before |
| Startup.RestartWorks | startup/init.go:247-269 | a crash at any point of any run, with any calls in flight, is followed by a restart that succeeds and starts in agreement, with both databases as they were |
| Startup.EveryRestartWorks | startup/init.go:247-269 | the same after any number of crashes and restarts |
| Control.RunCallIsExec | service/vm.go:18-304 | a call without interruption is a run of the machine |
| Control.NewSubnetOutcome | service/network.go:35-62 | without a crash the protocol ends in one of four ways: nothing happened, granted, rolled back, or left ahead |
| Control.CompensationsUnwind | service/vm.go:69-90 | the machine's compensation steps are CreateVM's cleanup chain, unwound |
| Control.LookupRun | structure/control_infra.go:19-45 | the lookup steps of any call give the core and the fill of an uninterrupted `FindCoreByVmUUID` |
| Control.DeleteOutcome | service/vm.go:225-267 | the machine's delete, as its outcomes |
| Control.DeleteIs | service/vm.go:225-267 | a delete, field by field: it succeeds if and only if a core is known, or stored and in range, the core agrees and no statement of the delete fails; on an error tables, Guacamole and Redis are as before; the address sent is that of the record the index leads to |
| Control.ShutdownOutcome | service/vm.go:286-304 | the machine's shutdown, as its outcomes |
| Control.ShutdownStopsOneVM | service/vm.go:286-304 | a shutdown, field by field: if a core is found and agrees, the first VM of that UUID leaves the running list and its Redis entry, if there is one, becomes stopped; nothing else changes but a location that may become known |
| Control.CreateOutcome | service/vm.go:18-136 | the machine's create, as its outcomes at each point of failure |
| Control.ReservesOnFirstOffer | service/vm.go:30-87 | a create gets to its reservation if and only if some core is alive and covers the request, the key works, there is a user, an address is granted and Guacamole is configured; it reserves on the first such core |
| Control.CreateSucceedsExactly | service/vm.go:18-136 | CreateVM succeeds if and only if, besides, the core agrees, no statement of the insert fails and the UUID is in neither table |
| Control.CreateMakes | service/vm.go:53-135 | and then, field by field: the first core on offer loses the three amounts and has the record of UUID, address, password, MAC address and amounts; the VM is located there and last on the running list; both rows; the Guacamole connection; the Redis entry; the next subnet in the variable and the corrected row |
| Control.SubnetsAfterCreate | service/network.go:35-62 | the variable and the row after a create, in every case |
| Control.ControlContext.constructor | startup/init.go:146-157 | the variable starts with the stored subnet |
| Control.ControlContext.FindCoreByVmUUID | structure/control_infra.go:19-45 | the cached core, else the stored one if its index is in range, with the cache filled, else none |
| Control.ControlContext.GetVMIPByUUID | service/network.go:79-94 | the address of the record reached through `VMLocation` and `VMInfoIdx`, if both have the UUID |
| Control.ControlContext.AddCmsSubnet | service/network.go:13-32 | CMS is asked for the subnet of the address in the UUID's own record if that has four parts, and its answer returned; else nothing is asked |
| Control.ControlContext.NewCmsSubnet | service/network.go:35-62 | CMS is asked for the next subnet if there is one and the write-ahead works; variable, row and answer are those of the protocol of `Subnet` run without a crash |
| Control.ControlContext.DeleteCmsSubnet | service/network.go:63-77 | the address that is sent, and success if CMS agrees |
| Control.ControlContext.RunCleanup | service/cleanup.go:14-20 | the loop from the last step to the first unwinds the chain on the real stores and leaves it empty |
| Control.ControlContext.AllocateCmsSubnet | service/vm.go:202-223 | `"Add"` leaves the subnets alone and asks for its own subnet, anything else runs the protocol and asks for the next |
| Control.ControlContext.ReserveVM | service/vm.go:86-105 | the core is charged, its compensation pushed, Redis told |
| Control.ControlContext.PersistVM | service/vm.go:117-131 | rows, correction of the subnet and registration, or nothing |
| Control.ControlContext.PlaceVM | service/vm.go:86-135 | reservation, core and database, or the unwound chain |
| Control.ControlContext.EquipVM | service/vm.go:62-135 | the same with Guacamole's configuration before it |
| Control.ControlContext.CreateVM | service/vm.go:18-136 | success exactly under the conditions of `CreateSucceedsExactly`, and then the fields of `CreateMakes`; in every case stores, subnets and Redis are those of one uninterrupted create of the machine with the first-fit core |
| Control.ControlContext.DeleteVM | service/vm.go:225-267 | success exactly under the conditions of `DeleteIs`; on an error tables, Guacamole and Redis are as before; on success both rows are gone, and the Redis entry if Redis works; the subnets never move; stores are those of one uninterrupted delete |
| Control.ControlContext.DeleteStored | service/vm.go:250-264 | rows gone, account cleaned up, Redis entry removed, or nothing if the rows stay |
| Control.ControlContext.ShutdownVM | service/vm.go:286-304 | success exactly if a core is found and agrees; then the first VM of that UUID leaves the running list and its Redis entry becomes stopped, with its amounts and address, if Redis works and has one; tables, Guacamole and subnets never change |
| Control.DeleteIsAllOrNothing | service/vm.go:225-267 | under agreement: on an error tables, Guacamole, Redis, cores and running VMs are unchanged; success takes the VM out of both tables, out of Redis if that works, and out of Guacamole exactly if Cleanup works, and touches no other; agreement is kept and no counter and no subnet moves |
| Control.DeleteReleasesStoredAddress | service/vm.go:244-248 | for a stored VM the address sent to CMS is `inst_ip` |
| Control.SentAddressIsStoredIffVMIs | service/vm.go:244-248 | under agreement, an address that is sent is a stored address of the VM if and only if the VM is stored |
| Control.StaleAddressIsAnothersIff | service/network.go:63-77 | a stale address is the stored address of another VM if and only if the two records have the same address |
| Control.SecondDeleteReleasesStaleAddress | service/vm.go:244-248 | a delete after a successful delete finds the old record again and sends an address that is stored no more |
| Control.SecondDeleteReleasesAddressInUse | service/vm.go:225-248 | if CMS has given the released address to a VM created in between, the second delete sends the address of that VM |
| Addresses.OpKeepsSound | service/vm.go:18-304 | each operation keeps the addresses of different VMs apart and below a known subnet; a new address is held by no VM and one subnet further |
| Addresses.NewAddressesDiffer | service/network.go:35-62 | over every run of creates, deletes, shutdowns and restarts, one after the other, with any failures, the addresses CMS gives to new-subnet creates lie in strictly increasing subnets and are pairwise different |
| Addresses.StaleReleaseHitsNoOther | service/vm.go:244-248 | hence no address that a delete sends to CMS, a stale one included, is the address of another stored VM |
| Addresses.LoaderRebuilds | startup/init.go:252-267 | the records that the loader builds have the addresses of their rows |
| Control.FailedPlacementRestores | service/vm.go:110-121 | a create that fails after its reservation leaves the cores as before if and only if the core had no record of that UUID |
| Control.FailedCreateRestoresIff | service/vm.go:18-136 | a failing CreateVM, with a working cleanup or not, leaves the tables as they were; cores and index exactly if it did not get to its reservation or the chosen core had no record of the UUID; all accounts exactly if it did not get there or the UUID had no account and the cleanup worked |
| Control.FailedCreateRestores | service/vm.go:18-136 | a failing CreateVM for a new UUID leaves cores, index and tables as they were, and the accounts unless it has to clean up and cannot; the Redis record stays if it was written |
| Control.FailedCreateOfStoredVM | service/vm.go:110-121 | a create for a stored VM that fails after its reservation takes its account away exactly if the cleanup works, and never leaves the accounts as they were; it takes the agreement away exactly on the VM's own core |

## Left out

- HTTP handlers, JSON, logging, configuration files and DSNs: no state of their own.
- The clients of the cores, CMS, Guacamole and RustFS, and snapshots: every request is an arbitrary answer.
- SSH keys, random salts and passwords, SHA-256: a generated password is an arbitrary non-empty string.
- The start of the cores (`startup/init.go:168-245`): addresses, goroutines and the pointers into a slice that later appends may move; the cores are a fixed list, only the conversion of a report is modelled, and a restart finds as many cores in the same order.
- `buildCoreCreateVMRequest`, `GetInstance`, status queries, StartVM and GetGuacamoleToken: the first builds a message and the second reads one row; the others look a core up and change nothing, which is a shutdown whose core request fails.
- Subnet allocation by creates at the same time: `Last_subnet` has no lock, so `Subnet` runs one create after the other, and `Saga` takes CMS's answer as given.
- Addresses and subnets that CMS handed out to a create that fails later: the code does not give them back, and the state of CMS is not part of the model.
- Subnet.GrantedSubnetsIncrease: CMS is taken not to grant a subnet named `"err"`; what it would do with that name is not known. What the code makes of such a grant is stated in `LastSubnetIsUsedUpExactly`.
- SagaCache.DropsChangeNoAnswer: only entries of stored VMs are dropped, because the entry of a deleted VM is not in the tables: without it a second delete fails earlier, and an `"Add"` create of the same name gets no address.
- Redis beyond one entry per VM: status normalisation and timestamps.
- Failures of the database are taken to leave the rows as they were: a commit that is applied although it is reported as failed is not modelled, nor is a rollback that fails.
- Transactions are taken as atomic steps with respect to each other; a deadlock is a failing statement.
- Names in MySQL are compared exactly here; a case-insensitive collation, column widths and the range of ids are not modelled.
- Two pointers to one `Core` are one position in the list of cores, and a `VMInfo` is a value: the code never changes one after making it. The loader's `&vmInfo` is a new variable in each round, as the Go version in `go.mod` has it.
- Panics other than that of `FindSubnet`, contexts and timeouts: a timeout is a failing statement or request.
- The MAC address is not stored, so a loaded record has an empty one; the model says so and compares the rest.
- Control.ControlContext.CreateVM: written as four methods, one calling the next, with the same steps in the same order; the chain is made when the first compensation is pushed, so the runs of an empty chain are not spelled out.

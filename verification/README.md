# Verification of the RMD operator

The RMD operator keeps workloads running on a fleet of RMD daemons, one per node. A user writes an
RmdWorkload object; a controller looks up the nodes it names or selects, POSTs or PATCHes the
workload there, records in the object's status which ID each daemon gave it, and DELETEs it where it
is no longer wanted. Any of these calls may fail, before or after it took effect. This project models
that protocol, the node list its controllers share, and the encodings it depends on, and proves what
they keep and what they achieve.

`dafny verify dfyconfig.toml` checks the whole project.

## How it is organised

The protocol is written twice. `Passes` says what one pass of the RmdWorkload controller does to the
cluster, as functions on a `World`: objects with spec and status, node labels, the RmdConfig
selector, the addresses that resolve, the shared node list, one RMD instance per address, and a tape
of faults from which every remote call takes the next. `WorkloadController` is the controller as it
is in the source: an object whose methods loop over nodes and edit the status in memory; each method
is proved to do what the function says, for every order in which Go may range over a map. Everything
else is proved about the functions, for every tape:

| module | what it is about |
|---|---|
| `Basics`, `Text`, `CpuSet` | options, widths, strings, decimal numbers, CPU lists |
| `RmdClient`, `RmdServer` | the request built from a spec, and the contract of the RMD instance that gets it |
| `Passes`, `WorkloadController` | one pass, as a function and as the controller |
| `Safety`, `Runs` | what every pass keeps, and so every run of passes, faults and changes of the cluster |
| `UnderFaults`, `LookupsUnderFaults`, `DeletesUnderFaults`, `PassesUnderFaults` | what each operation and a whole pass do for every tape: which call takes which fault, and the entries, status fields and outcome after it |
| `CleanPass`, `Convergence` | passes without faults: what one does, what two achieve, when nothing changes any more |
| `Undisturbed`, `Interleaving` | passes that meet no fault; convergence amid passes for other objects, passes with faults and changes of the cluster |
| `Deletion` | deleted objects and retries |
| `Duplicates`, `Draining` | how many copies a pass leaves, and what becomes of the second one |
| `Witnesses` | runs in which a clean pass does not do what one would hope |
| `NodeData`, `Registry` | the shared node list: removal in place while ranging, and the list over time |
| `Names`, `PodAddress`, `CacheWays`, `NodeAgent` | names, addresses, device IDs, annotations and the node agent's loop |

An RMD instance is a sequence of (ID, name, configuration) and the log of the names its IDs were
issued to. POST appends under an ID never used before; PATCH and DELETE change what is stored under a
live ID and nothing otherwise, in particular when the ID is the empty string of a status that never
held one. A fault makes a call fail before or after it takes effect.

## Results that are not what one would hope

The code is kept as it is; each comes with the exact condition, or the exact outcome, and a concrete
input where one is needed.

* One pass without faults need not give a node the wanted configuration: the PATCH uses the ID the
  status remembers, which may be missing or stale (`Convergence.OnePassConfiguresExactly`; a run in
  `Witnesses.OldConfigurationStays`). A second pass always does.
* A node that left the shared list keeps its workload after it left the spec
  (`Convergence.OnePassExactly`; a run in `Witnesses.LeftRegistryKeepsWorkload`).
* A node listed n times on which the workload does not run yet gets n copies of it; one on which it
  runs keeps what it has, however often it is listed (`Duplicates.CopiesExactly`; a run in
  `Witnesses.ListedTwice`). So a clean pass makes a second copy if and only if some node is listed more
  than once that resolves and lacks the workload (`Duplicates.SingleExactly`).
* Once there are several copies on an instance, a pass finds and deletes one of them only; and a pass
  for a deleted object looks at registered nodes only. It reports success, is not repeated, and leaves
  the workload behind unless every instance that holds it is that of a registered node and holds a
  single copy (`Deletion.SuccessMeansGone`; runs in `Witnesses.DeletionLeavesACopy` and
  `Witnesses.DeletionMissesUnregistered`). README.md:380 of the repository promises a delete on every
  instance; the shared list starts empty, and a node also leaves it with its node state.
* A pass for an object that still exists removes one copy from each unwanted node, so it takes as many
  passes as there are copies (`Draining.PlacedAfterExactly`). An object that never listed a node more
  than once that lacked the workload has no second copies (`Runs.RunSingle`).
* Removing a name from the shared list fails on lists with duplicates, in two ways
  (`NodeData.DeleteIsExact`); the list never has any (`Registry.RegistryIsExact`).
* A node whose name contains `rmd-node-state-` stays in the shared list when its node state is deleted
  (`Names.NodeStateRoundTrip`, `Registry.UndecodableNodeStays`). What leaves the list is the node its
  name decodes to, if there is one: deleting the state of rmd-node-state-a takes out the healthy node a
  (`Registry.DeletedStateTakesAnother`, `Registry.WrongNodeForgotten`).
* Two containers of different pods can share a workload name although both pass the check
  (`Names.NamesCollideExactly`, `Names.CollisionPassesTheCheck`).
* Annotations of container c10 are read for container c1 too (`NodeAgent.PrefixesMix`).
* Device IDs of cache ways can collide when node numbers differ in length
  (`CacheWays.IdsCollideExactly`, `CacheWays.UnequalLengthsCollide`).
* The node agent never brings an edited annotation to a stored workload: it reads the stored object over
  the one it built before it updates (`NodeAgent.EnsureAllMeaning`).
* If a node's RMD moved to an instance that issued the remembered ID to another name, a pass would PATCH
  that other workload (`Convergence.PatchHitsRemembered`, `Witnesses.MovedAddressMixesIds`). The runs
  below exclude such a move.
* The comment on the name convention of pkg/nodeagent/pod_controller.go:243 lacks a dash the code has;
  the model follows the code. The comment at pkg/controller/rmdworkload/rmdworkload_controller.go:114
  says deleted objects are found through the RmdNodeStates; the code uses the shared list, and so does
  the model.

## Assumptions

Each is a `requires` or a definition, none is hidden in a body.

* A node's RMD keeps one address for good (`home` in `Runs.EnvOk`); what happens otherwise is shown
  above. Specs may list a node twice; the theorems on convergence ask of the one object they are about
  that it does not (`Safety.ListsOnce`), and of no other. `PodAddress.AddressMapIsInjective` derives
  that different nodes have different addresses from facts about pods and nodes.
* What a clean pass may rely on is `CleanPass.Ready`: registered nodes resolve, instances answer, and
  the spec can be formatted for the nodes it is aimed at.
* Library code that is not part of this model is taken as follows. `labels.Merge`: the second map wins.
  `labels.AreLabelsInWhiteList`: every selector entry is among the node's labels, or the node has none.
  cpuset lists: comma-separated numbers and ranges `lo-hi` with `lo <= hi`, the empty string being the
  empty set, printed as sorted, maximal ranges ("List format" of cpuset(7)).

## Model

| member | source | states |
|---|---|---|
| WorkloadController.ReconcileRmdWorkload.Reconcile | pkg/controller/rmdworkload/rmdworkload_controller.go:110-186 | the controller's pass over its own fields, with its loops and early returns, leaves the cluster and reports what the pass function says, for some possible order of the map of obsolete workloads; it keeps the ownership of stored IDs and every workload and object of another name |
| WorkloadController.ReconcileRmdWorkload.FindObsoleteWorkloads | pkg/controller/rmdworkload/rmdworkload_controller.go:188-212 | the search of the shared list for a deleted object: address to ID, or an error at the first node that cannot be asked |
| WorkloadController.ReconcileRmdWorkload.DeleteObsolete | pkg/controller/rmdworkload/rmdworkload_controller.go:129-135 | deletes over a map in any order; the first failure ends the loop |
| WorkloadController.ReconcileRmdWorkload.GetTargetedNode | pkg/controller/rmdworkload/rmdworkload_controller.go:214-234 | looks up a node and whether the workload is there |
| WorkloadController.ReconcileRmdWorkload.TargetListed | pkg/controller/rmdworkload/rmdworkload_controller.go:239-252 | listed nodes that cannot be looked up are passed over |
| WorkloadController.ReconcileRmdWorkload.TargetSelected | pkg/controller/rmdworkload/rmdworkload_controller.go:275-284 | a selected node that cannot be looked up ends the search |
| WorkloadController.ReconcileRmdWorkload.FindTargetedNodes | pkg/controller/rmdworkload/rmdworkload_controller.go:237-285 | chooses between the two, and merges the selectors |
| WorkloadController.ReconcileRmdWorkload.CheckRemoved | pkg/controller/rmdworkload/rmdworkload_controller.go:296-347 | decides for one registered node whether the workload has to go |
| WorkloadController.ReconcileRmdWorkload.FindRemovedNodes | pkg/controller/rmdworkload/rmdworkload_controller.go:290-350 | the same over the shared list, ended by the first error |
| WorkloadController.ReconcileRmdWorkload.AddWorkload | pkg/controller/rmdworkload/rmdworkload_controller.go:396-408 | POSTs, swallows the error and updates the status |
| WorkloadController.ReconcileRmdWorkload.UpdateWorkload | pkg/controller/rmdworkload/rmdworkload_controller.go:410-422 | PATCHes under the remembered ID, swallows the error and updates the status |
| WorkloadController.ReconcileRmdWorkload.SyncTargets | pkg/controller/rmdworkload/rmdworkload_controller.go:150-164 | the loop over the targets, ended by the first status that cannot be stored |
| WorkloadController.ReconcileRmdWorkload.RemoveWorkload | pkg/controller/rmdworkload/rmdworkload_controller.go:424-442 | deletes, drops the status entries and stores the status once at the end |
| WorkloadController.ReconcileRmdWorkload.UpdateRmdWorkloadStatus | pkg/controller/rmdworkload/rmdworkload_controller.go:444-519 | response first, then what the instance reports if the workload has an ID there |
| WorkloadController.ReconcileRmdWorkload.PostWorkload | pkg/rmd/rmd.go:377-417 | POST of the formatted workload: response, and effect also when reported as failed |
| WorkloadController.ReconcileRmdWorkload.PatchWorkload | pkg/rmd/rmd.go:420-457 | PATCH under an ID, which fails without effect when the ID is not live |
| WorkloadController.ReconcileRmdWorkload.DeleteWorkload | pkg/rmd/rmd.go:460-484 | DELETE under an ID, likewise |
| UnderFaults.TargetExactly | pkg/controller/rmdworkload/rmdworkload_controller.go:396-422 | adding or updating one target, for every tape: which call takes which fault, the entries of the instance after the request, the response and every field of the node's state, what is stored; the pass ends there iff the process ends in formatting or the status cannot be stored |
| UnderFaults.SendExactly | pkg/rmd/rmd.go:377-457 | one POST or PATCH, for every tape: one entry more with a new ID, or the configuration under that ID replaced, unless it is refused; 201 or 200 iff it met no fault and a PATCH found its ID, else a failure; it never ends the pass |
| UnderFaults.UpdateExactly | pkg/controller/rmdworkload/rmdworkload_controller.go:444-519 | the status update, for every tape and field by field: the response is the one given; ID, policy, cores and the four numbers are those of the first entry of the name if the instance could be read and has it, else as before; other nodes' states and other objects are unchanged; it succeeds iff the object is there and the store met no fault |
| UnderFaults.RefusalIsStored | pkg/controller/rmdworkload/rmdworkload_controller.go:398-408 | a refused request changes no instance and does not end the pass: the failure is stored as the node's response |
| UnderFaults.TargetsExactly | pkg/controller/rmdworkload/rmdworkload_controller.go:150-164 | the loop over distinct targets, for every tape: it ends at the first target whose status cannot be stored or whose formatting ends the process, each target before has the outcome its own calls give it, and later ones are untouched |
| UnderFaults.AllServed | pkg/controller/rmdworkload/rmdworkload_controller.go:150-164 | so when no target is of that kind all of them are served, whatever requests fail |
| LookupsUnderFaults.LookupExactly | pkg/controller/rmdworkload/rmdworkload_controller.go:214-234 | a node is found iff its address resolves and its instance can be read without a fault, and then the flag says whether some entry has the name |
| LookupsUnderFaults.TargetedExactly | pkg/controller/rmdworkload/rmdworkload_controller.go:237-285 | for every tape: for a list the targets are those listed nodes that are found, in order; for a selector there are targets iff the RmdConfig object and the node list are read and all matching nodes are found, and then one for each |
| LookupsUnderFaults.MatchingExactly | pkg/controller/rmdworkload/rmdworkload_controller.go:267-273 | the matching nodes are those with every label of the merged selector, in the order of the list |
| LookupsUnderFaults.NoConfigFails | pkg/controller/rmdworkload/rmdworkload_controller.go:262-265 | without an RmdConfig object a pass with a selector fails and changes nothing |
| LookupsUnderFaults.UnreadFails | pkg/controller/rmdworkload/rmdworkload_controller.go:121-141 | a pass that cannot read its object fails after that one call and changes nothing |
| LookupsUnderFaults.CheckExactly | pkg/controller/rmdworkload/rmdworkload_controller.go:296-347 | the decision for one registered node, for every tape: an error if it cannot be found, read or resolved again; nothing where no entry has the name, or the list has the node, or its labels pass; else the first entry of the name is to go |
| LookupsUnderFaults.RemovedExactly | pkg/controller/rmdworkload/rmdworkload_controller.go:290-350 | the registered nodes are checked in turn, the first error ends the search, and the removals are those decided on, in order |
| DeletesUnderFaults.DeleteExactly | pkg/rmd/rmd.go:460-484 | one DELETE, for every tape: the entry with that ID goes and the others stay in order, unless it is refused; it succeeds iff it met no fault and the ID was there |
| DeletesUnderFaults.RemovalsExactly | pkg/controller/rmdworkload/rmdworkload_controller.go:424-442 | the removals, for every tape: the first delete that fails ends the pass with later ones unmade and no status stored; after the last the status without exactly these nodes is stored |
| DeletesUnderFaults.ObsoleteExactly | pkg/controller/rmdworkload/rmdworkload_controller.go:129-135 | the deletes for a deleted object, likewise; they succeed iff none fails |
| PassesUnderFaults.ObjectPassExactly | pkg/controller/rmdworkload/rmdworkload_controller.go:143-186 | the whole pass for an object, for every tape: nothing changed if the targets cannot be found; else the sync, after whose early end nothing is checked or deleted; then the check of every registered node, and the deletes only if all could be checked; success iff the last status is stored |
| PassesUnderFaults.DeletedPassExactly | pkg/controller/rmdworkload/rmdworkload_controller.go:122-138 | the whole pass for a deleted object, for every tape: nothing changed if some registered node cannot be found; else the deletes, and success iff none failed |
| Safety.PassKeeps | pkg/controller/rmdworkload/rmdworkload_controller.go:110-186 | whatever fails and whatever specs list: every stored ID still was issued to its object by its node's instance, and workloads of other names and other objects are as before; and a name held once is still held once if its spec lists no node more than once that resolves and lacks it |
| Safety.RequestSafe | pkg/controller/rmdworkload/rmdworkload_controller.go:396-422 | one POST or PATCH, from a status that owns its IDs, concerns one instance and one name |
| Safety.SyncTargetsKeeps | pkg/controller/rmdworkload/rmdworkload_controller.go:150-164 | the sync loop keeps the ownership of stored IDs and the workloads of other names |
| Safety.SyncTargetsSingle | pkg/controller/rmdworkload/rmdworkload_controller.go:145-164 | and makes no second copy, given targets that are distinct and whose existence flags were right when taken |
| Safety.FindTargetedFound | pkg/controller/rmdworkload/rmdworkload_controller.go:237-285 | the targets found are nodes the spec asks for, each at its address with the right existence flag, and none that is to be posted is met twice if no node that resolves and lacks the workload is listed more than once |
| Safety.RemovalsFound | pkg/controller/rmdworkload/rmdworkload_controller.go:290-350 | a search that succeeds finds exactly the registered nodes that hold the workload and are no longer wanted, with the live IDs |
| Safety.RemoveWorkloadKeeps | pkg/controller/rmdworkload/rmdworkload_controller.go:424-442 | deleting at removed nodes touches no other name and keeps stored IDs owned |
| Safety.ObsoleteSearch | pkg/controller/rmdworkload/rmdworkload_controller.go:188-212 | a search that succeeds has asked every registered node, found every one of their instances that holds the name, and found no other |
| Runs.RunGood | pkg/controller/rmdworkload/rmdworkload_controller.go:110-186 | at every moment of every run of passes, faults and cluster changes, with any specs: every stored ID was issued to its object by its node's instance |
| Runs.RunSingle | pkg/controller/rmdworkload/rmdworkload_controller.go:145-164 | in every run a name held at most once per instance stays so, as long as its own spec lists no node more than once that resolves and lacks it, whatever other specs list |
| Safety.FrameOthers | pkg/controller/rmdworkload/rmdworkload_controller.go:110-186 | a pass changes neither the number of copies of another name nor which of them is found |
| Runs.StoredIdsAreOwn | pkg/controller/rmdworkload/rmdworkload_controller.go:412-412 | spelled out for the ID a PATCH would use: issued by that node's instance to this very name, and no live workload of another name has it |
| Runs.PassesAreIsolated | pkg/controller/rmdworkload/rmdworkload_controller.go:110-186 | in any run, a pass for one object posts under no other name and leaves every workload and object of another name unchanged on every instance |
| Convergence.TargetedNeverRemovable | pkg/controller/rmdworkload/rmdworkload_controller.go:267-346 | no node is both asked for and removable, in either mode, since merging keeps the workload's selector |
| Convergence.SelectorTrichotomy | pkg/controller/rmdworkload/rmdworkload_controller.go:255-346 | with a selector a node is targeted iff it matches the merged selector, removable iff it has labels that fail the workload's, never both |
| Convergence.NeverDeletesWhatItSent | pkg/controller/rmdworkload/rmdworkload_controller.go:145-180 | in a pass with any faults no node or address that was posted or patched is deleted at |
| CleanPass.CleanSyncTargets | pkg/controller/rmdworkload/rmdworkload_controller.go:150-164 | without faults the sync loop serves each target once and touches nothing else, in closed form |
| CleanPass.CleanFindTargeted | pkg/controller/rmdworkload/rmdworkload_controller.go:237-285 | without faults the targets are exactly the nodes asked for that resolve |
| CleanPass.CleanPrune | pkg/controller/rmdworkload/rmdworkload_controller.go:166-180 | without faults the final check deletes the copy it finds at exactly the unwanted nodes and drops exactly their status entries |
| Convergence.OutcomeUnwanted | pkg/controller/rmdworkload/rmdworkload_controller.go:308-345 | that is one copy at each unwanted node, which stays unwanted iff it held a second |
| Convergence.CleanPassOutcome | pkg/controller/rmdworkload/rmdworkload_controller.go:143-186 | the whole effect of a pass without faults: every instance, and the status, whose keys become the old ones minus removed plus targeted nodes |
| Convergence.OnePassPlaces | pkg/controller/rmdworkload/rmdworkload_controller.go:143-186 | from any good state one clean pass puts the workload on every node it is aimed at, under the ID the status then holds, and leaves it on no unwanted one iff none held a second copy |
| Convergence.OnePassExactly | pkg/controller/rmdworkload/rmdworkload_controller.go:143-186 | a node holds the workload after a clean pass iff it is aimed at, or held more copies than the pass removes there: one if it is registered and removable, none otherwise |
| Convergence.OnePassConfiguresExactly | pkg/controller/rmdworkload/rmdworkload_controller.go:410-422 | one clean pass gives a node the wanted configuration iff the workload was absent, or its ID was remembered, or it was configured so already |
| Convergence.OnePassResponds | pkg/controller/rmdworkload/rmdworkload_controller.go:398-422 | the response a clean pass stores for a wanted node: Success 201 if the workload was absent, Success 200 if it was there under the remembered ID, a failure otherwise |
| Convergence.NextPassSettles | pkg/controller/rmdworkload/rmdworkload_controller.go:410-422 | a clean pass over a placed workload gives every target the wanted configuration and an up-to-date status |
| Convergence.FixpointIffSettled | pkg/controller/rmdworkload/rmdworkload_controller.go:143-186 | a clean pass changes nothing anywhere iff the workload is settled |
| Convergence.TwoPassesConverge | pkg/controller/rmdworkload/rmdworkload_controller.go:110-186 | from any state of any run: after two passes without faults every wanted node has the wanted configuration, however many copies are elsewhere; the first places the workload iff no unwanted node held a second copy, and then the second settles it and every further one changes nothing |
| Convergence.KnownIsConfigured | pkg/controller/rmdworkload/rmdworkload_controller.go:410-422 | once the status holds the live IDs, a clean pass configures every wanted node |
| Convergence.PatchHitsRemembered | pkg/controller/rmdworkload/rmdworkload_controller.go:412-412 | the PATCH of a clean pass changes whatever entry has the ID the status remembers, whoever it belongs to |
| Convergence.SingleHasNoSpares | pkg/controller/rmdworkload/rmdworkload_controller.go:145-164 | that condition holds for an object that never listed a node more than once that lacked the workload |
| Draining.PlacedAfterExactly | pkg/controller/rmdworkload/rmdworkload_controller.go:166-180 | after k clean passes in a row the workload is placed iff no unwanted node held more than k copies |
| Interleaving.FaultyPassKeepsPlaced | pkg/controller/rmdworkload/rmdworkload_controller.go:143-186 | a pass for a placed object keeps it placed whatever fails, and changes no instance if the configuration is the wanted one |
| Interleaving.PassForAnother | pkg/controller/rmdworkload/rmdworkload_controller.go:110-186 | a pass for another object, with any faults, changes nothing a pass for this one would find |
| Undisturbed.PassCalm | pkg/controller/rmdworkload/rmdworkload_controller.go:110-186 | a pass that meets no fault ends as it would with no fault left on the tape |
| Interleaving.AsideWhen | pkg/controller/rmdworkload/rmdworkload_controller.go:290-350 | which changes of the cluster leave an object alone: its nodes keep their addresses, and a node that becomes removable does not hold the workload |
| Interleaving.ConvergesAmidOthers | pkg/controller/rmdworkload/rmdworkload_controller.go:110-186 | in a run of passes for any objects with any faults, and of changes that leave the object alone: placed for good after the first pass for it that is ready and meets no fault, configured for good after the second, wherever they come and whatever faults are still to come |
| Interleaving.NeverChangesAgain | pkg/controller/rmdworkload/rmdworkload_controller.go:110-186 | from then on no instance ever shows anything else under the name |
| Convergence.PlacedOnListed | pkg/controller/rmdworkload/rmdworkload_controller.go:239-327 | a placed workload runs on a registered node iff that node is listed |
| Convergence.PlacedOnSelected | pkg/controller/rmdworkload/rmdworkload_controller.go:254-346 | with a selector it runs on all nodes that match the merged one and on no registered node whose labels fail the workload's |
| Convergence.SettledStatusEchoesSpec | pkg/controller/rmdworkload/rmdworkload_controller.go:451-510 | once settled, the response is Success 200, the ID that of the entry found, policy and listed cores are the spec's, and the four numbers are the spec's modulo 2^32, for every 64-bit value, and equal iff the value fits |
| Deletion.SuccessExactly | pkg/controller/rmdworkload/rmdworkload_controller.go:188-212 | with any faults: a pass for a deleted object that reports success has removed one copy from the instance of each registered node that held any, and has left every other instance alone |
| Deletion.SuccessMeansGone | pkg/controller/rmdworkload/rmdworkload_controller.go:122-138 | so after it no instance at all holds the name iff every holder was registered and held one copy |
| Deletion.DeletedInRun | pkg/controller/rmdworkload/rmdworkload_controller.go:122-138 | in any run, for an object that made no second copies: gone everywhere after such a pass iff every holder was registered |
| Deletion.FailureNeedsFault | pkg/controller/rmdworkload/rmdworkload_controller.go:122-138 | while the registry is up, a pass that reports failure has used up a fault |
| Deletion.RetriesEnd | pkg/controller/rmdworkload/rmdworkload_controller.go:114-138 | at most as many failed retries as faults, and no other name touched; when a pass succeeds the workload is gone everywhere iff every holder left was registered with one copy, so in particular if that was so at the start |
| Duplicates.CopiesExactly | pkg/controller/rmdworkload/rmdworkload_controller.go:143-186 | the copies on every instance after a clean pass over a node list: the number of mentions if there was none, else as before, less one if its node is registered and not listed |
| Duplicates.SingleExactly | pkg/controller/rmdworkload/rmdworkload_controller.go:145-164 | where no instance held two, such a pass makes a second copy iff some node is listed more than once that resolves and lacks the workload |
| Duplicates.CopiesSynced | pkg/controller/rmdworkload/rmdworkload_controller.go:150-164 | each target whose flag says absent posts one more copy at its address, and no other request makes or removes one |
| Witnesses.ListedTwice | pkg/controller/rmdworkload/rmdworkload_controller.go:145-164 | a run in which the list [n, n] ends with two copies |
| Witnesses.DeletionLeavesACopy | pkg/controller/rmdworkload/rmdworkload_controller.go:122-138 | its continuation: the object is deleted, the pass reports success, a copy stays |
| Witnesses.DeletionMissesUnregistered | pkg/controller/rmdworkload/rmdworkload_controller.go:122-138 | a run with single copies in which the node has left the registry when the object is deleted: the pass reports success and deletes nothing |
| Witnesses.LeftRegistryKeepsWorkload | pkg/controller/rmdworkload/rmdworkload_controller.go:295-327 | a run in which a node leaves registry and spec and keeps the workload through a clean pass |
| Witnesses.OldConfigurationStays | pkg/controller/rmdworkload/rmdworkload_controller.go:410-422 | a run in which the status of a POST is lost, the spec is edited, and the next clean pass leaves the old configuration |
| Witnesses.MovedAddressMixesIds | pkg/controller/rmdworkload/rmdworkload_controller.go:412-412 | a good state in which, once a node resolves to another instance, a clean pass for w changes the workload v there |
| RmdServer.FindWorkloadByName | pkg/rmd/rmd.go:487-494 | finds an entry of that name iff there is one, else an empty one |
| RmdServer.FindsFirst | pkg/rmd/rmd.go:487-494 | the entry found is the first of that name |
| RmdServer.PostKeeps | pkg/rmd/rmd.go:377-417 | POST keeps IDs distinct and owned and other names' workloads, and adds one copy of its name |
| RmdServer.PatchKeeps | pkg/rmd/rmd.go:420-457 | PATCH under an ID issued to a name, or none, changes workloads of that name only |
| RmdServer.DeleteKeeps | pkg/rmd/rmd.go:460-484 | DELETE likewise |
| RmdServer.DeleteFound | pkg/controller/rmdworkload/rmdworkload_controller.go:204-209 | deleting the workload found under a name removes one copy, so the name is gone iff there was only one |
| RmdClient.GetAllCpus | pkg/rmd/rmd.go:274-283 | the loop over the caches prints a list that denotes the union of their lists, or fails iff one cannot be read |
| RmdClient.FormatMeaning | pkg/rmd/rmd.go:309-374 | for every spec: when there is a request, an error, or the end of the process, each as an iff; a request has the spec's policy, plugins and listed cores, both cache values always, narrowed to 32 bits, and each MBA value unless it narrows to zero |
| RmdClient.AllCoresMeaning | pkg/rmd/rmd.go:314-332 | an all-cores request names exactly the CPUs of some cache that are not reserved, in any order of the caches, and is refused or fatal exactly when a list cannot be read |
| RmdClient.ReservedMeaning | pkg/rmd/rmd.go:322-323 | the reserved set is the union of the reserved lists taken one by one, and it can be read iff each of them can and none of several is empty |
| CpuSet.ParsePrint | pkg/rmd/rmd.go:282-326 | printing a CPU set and parsing it gives the set back |
| CpuSet.RangesDenote | pkg/rmd/rmd.go:283-283 | the printed ranges denote the set |
| CpuSet.RangesMaximal | pkg/rmd/rmd.go:283-283 | they ascend with a gap between any two |
| CpuSet.OnePartExactly | pkg/rmd/rmd.go:279-324 | a list without commas is read iff it is empty, a number, or two numbers lo-hi with lo at most hi, and then as these CPUs |
| CpuSet.JoinMeansUnion | pkg/rmd/rmd.go:323-323 | joining lists with commas denotes their union, except that an empty string among several makes it unreadable |
| NodeData.RmdNodeData.UpdateRmdNodeData | pkg/state/state.go:16-23 | appends a name that is not in the list, in a grown array if need be |
| NodeData.RmdNodeData.CutAt | pkg/state/state.go:29-29 | the append that removes one entry shifts the backing array in place |
| NodeData.RmdNodeData.DeleteRmdNodeData | pkg/state/state.go:26-32 | the loop over a fixed bound that reads live elements: panics iff a repeated name is also last, else removes what it does not skip; exact on lists without duplicates |
| NodeData.DeleteMeaning | pkg/state/state.go:26-32 | the same of the loop from any backing array |
| NodeData.DeleteIsExact | pkg/state/state.go:26-32 | stays in bounds and removes exactly the name iff it is not repeated in a row and not repeated with its last copy at the end |
| NodeData.TwoCopiesPanic | pkg/state/state.go:26-32 | [x, x] runs off the slice |
| NodeData.TwoCopiesLeaveOne | pkg/state/state.go:26-32 | [x, x, a] keeps a copy |
| Registry.RegistryIsExact | pkg/state/state.go:16-32 | over every interleaving of feeds and deletions the list has no duplicates and holds exactly the nodes fed since last forgotten |
| Registry.FeedAllIsAFeed | pkg/controller/rmdconfig/rmdconfig_controller.go:166-176 | a pass of the RmdConfig controller with any faults feeds a first part of the labelled nodes, all of them iff it succeeds |
| Registry.CreateExactly | pkg/controller/rmdconfig/rmdconfig_controller.go:184-218 | for every tape: a failed lookup or a node state that exists is passed over; else one is created unless the create is refused, and any fault of the create is reported |
| Registry.FeedNeedsFault | pkg/controller/rmdconfig/rmdconfig_controller.go:166-176 | a pass that fails has used up a fault, and one that succeeds has fed exactly the labelled nodes |
| Registry.FeedCreatesStates | pkg/controller/rmdconfig/rmdconfig_controller.go:184-218 | it creates node states of labelled nodes only, and of all of them when nothing fails |
| Registry.ReconcileRmdConfig.Feed | pkg/controller/rmdconfig/rmdconfig_controller.go:161-176 | the feed loop on the shared list, and the list in the status |
| Registry.ReconcileRmdConfig.CreateNodeStateIfNotPresent | pkg/controller/rmdconfig/rmdconfig_controller.go:184-218 | creates a missing node state; a failed lookup is passed over |
| Registry.ReconcileRmdNodeState.ForgetDeleted | pkg/controller/rmdnodestate/rmdnodestate_controller.go:99-106 | takes the decoded node out of the shared list |
| Registry.DeletedStateForgetsItsNode | pkg/controller/rmdnodestate/rmdnodestate_controller.go:99-106 | after any history, deleting the state of a node takes that node out and no other, if its name decodes |
| Registry.UndecodableNodeStays | pkg/controller/rmdnodestate/rmdnodestate_controller.go:104-105 | a listed node whose name contains the prefix stays |
| Registry.DeletedStateTakesAnother | pkg/controller/rmdnodestate/rmdnodestate_controller.go:104-105 | another listed node is taken out iff the name contains the prefix and what it decodes to is listed |
| Registry.WrongNodeForgotten | pkg/controller/rmdnodestate/rmdnodestate_controller.go:104-105 | deleting the state of rmd-node-state-a takes node a out and leaves rmd-node-state-a |
| Registry.ReconcileRmdNodeState.RebuildWorkloads | pkg/controller/rmdnodestate/rmdnodestate_controller.go:148-156 | the map of workloads by name, the last of each name winning |
| Registry.ByUuidExactly | pkg/controller/rmdnodestate/rmdnodestate_controller.go:148-156 | under each name the map holds the entry of the highest index with that name, and no other names |
| Registry.StatusIsFaithful | pkg/controller/rmdnodestate/rmdnodestate_controller.go:148-156 | every workload of the instance appears in it iff no name is held twice |
| Names.NamesCollideExactly | pkg/nodeagent/pod_controller.go:231-245 | two accepted containers share a name iff they are the same or one pod ends where the other container begins |
| Names.NamesAreInjective | pkg/nodeagent/pod_controller.go:231-245 | so the name determines pod and container once containers do not begin with rmd-workload- |
| Names.CollisionPassesTheCheck | pkg/nodeagent/pod_controller.go:231-235 | a collision between two containers the check accepts |
| Names.NodeStateRoundTrip | pkg/controller/rmdnodestate/rmdnodestate_controller.go:104-104 | decoding a node-state name gives its node back iff the node's name does not contain the prefix |
| PodAddress.FindsFirstPod | pkg/util/util.go:118-136 | both lookups return the first pod that fits |
| PodAddress.AddressExactly | pkg/controller/rmdworkload/rmdworkload_controller.go:353-394 | a node resolves to an address iff it is the prefix, IP and first port of the first container of the first pod that names the node, or failing any the first on one of its addresses; the IP is the pod's, or the first of its IPs when that is empty |
| PodAddress.AddressesDiffer | pkg/controller/rmdworkload/rmdworkload_controller.go:391-392 | an address determines its IP and port, also for IPs with colons |
| PodAddress.ResolutionIsInjective | pkg/controller/rmdworkload/rmdworkload_controller.go:353-394 | two nodes that resolve to one address, by name or host address, are one node |
| PodAddress.AddressMapIsInjective | pkg/controller/rmdworkload/rmdworkload_controller.go:353-394 | so the addresses of all nodes are an injective map |
| CacheWays.GetGuaranteedCacheWayPools | pkg/rmd/rmd.go:202-218 | the device map has exactly the IDs of the guaranteed ways, each with the node of its last writer; it stops at the first cache that cannot be read, with what it has |
| CacheWays.IdsCollideExactly | pkg/rmd/rmd.go:214-215 | two ways share an ID iff they are the same or one node's text runs on into the other's way |
| CacheWays.NothingIsLost | pkg/rmd/rmd.go:202-217 | with distinct node texts of equal length each way has its own device with its own NUMA node |
| CacheWays.TwoPools | pkg/rmd/rmd.go:202-217 | a host with ways 0-1 guaranteed and way 2 in another pool has the devices 00 and 01 of node 0 |
| Text.AtoiExactly | pkg/nodeagent/pod_controller.go:282-291 | a string is read as a number iff it spells one of 64 bits: an optional sign, zeros, and its digits |
| CacheWays.UnequalLengthsCollide | pkg/rmd/rmd.go:214-215 | way 11 of node 1 and way 1 of node 11 share a device |
| NodeAgent.GetAnnotationInfo | pkg/nodeagent/pod_controller.go:271-304 | the loop over the annotations applies each of them once, in some order; each of policy, mba_percentage, mba_mbps, pstate_ratio and pstate_monitoring ends with the value of some annotation with the container's prefix, that suffix and a usable value, or as it was if there is none |
| NodeAgent.OneValueIsTaken | pkg/nodeagent/pod_controller.go:271-304 | so a field for which all such annotations have one value ends with that value |
| NodeAgent.OrderIndependentExactly | pkg/nodeagent/pod_controller.go:271-304 | the result is the same for all orders iff no two annotations set one field to different values |
| NodeAgent.OneKeyPerField | pkg/nodeagent/pod_controller.go:274-300 | in particular with at most one key per field |
| NodeAgent.PrefixesMix | pkg/nodeagent/pod_controller.go:274-276 | containers c1 and c10 show that the condition is needed |
| NodeAgent.BuildRmdWorkload | pkg/nodeagent/pod_controller.go:220-269 | one workload for each accepted container, in order, or none when one of them cannot be read |
| NodeAgent.AcceptedInOrder | pkg/nodeagent/pod_controller.go:227-236 | a container is left out iff its name contains -rmd-workload-, and the others stay in order |
| NodeAgent.BuiltNamesCollide | pkg/nodeagent/pod_controller.go:231-245 | of the workloads built for any two pods, two share a name iff pod and container agree or one pod ends where the other container begins |
| NodeAgent.BuiltNamesDistinct | pkg/nodeagent/pod_controller.go:231-245 | within one pod they share a name iff their containers do |
| NodeAgent.ReconcilePod.CreateOrUpdate | pkg/nodeagent/pod_controller.go:153-183 | the loop that creates what is missing and writes back what is there |
| NodeAgent.EnsureAllMeaning | pkg/nodeagent/pod_controller.go:153-183 | a pass cut short anywhere keeps every stored workload's spec and adds only what was built; one that succeeds has added all of it |
| NodeAgent.EnsureExactly | pkg/nodeagent/pod_controller.go:153-183 | one step, for every tape: created iff missing and its Get met no fault and its Create was not refused, never changed when stored; it succeeds iff neither call met a fault |
| NodeAgent.FailureNeedsFault | pkg/nodeagent/pod_controller.go:153-183 | a pass that fails has used up a fault, and one that succeeds has stored every name it built |
| NodeAgent.AgentRetriesEnd | pkg/nodeagent/pod_controller.go:145-183 | failed retries in a row are at most as many as the faults, and after that many the next pass succeeds and everything it built is stored |
| NodeAgent.RetriesAreSafe | pkg/nodeagent/pod_controller.go:145-183 | so does any number of passes cut short followed by one that succeeds, each with workloads it built itself: stored specs stay, all that the last one built exists, and every new one has a spec some pass built |

## Left out

- HTTP, TLS, JSON, gRPC, file reading, logging, metrics, leader election, DaemonSets, QoS checks, endpoint parsing, generated copies: plumbing.
- Internals of the RMD server and the Kubernetes API server: the contracts above stand for them. An RMD instance that restarts and forgets its workloads or reuses IDs, and a node whose RMD moves to another address, are outside the runs.
- Conflicts between updates, cache lag and races on the unlocked shared list: each pass of a controller is one atomic step.
- Namespaces: RMD knows a workload by the object's name alone, so there is one namespace.
- Response texts in the status: kept as none, success with its code, or failure. CosName and Status of a workload's state, which are copied, are not kept.
- P-state plugin data: an opaque value that either can or cannot be read; its path into the status (pkg/controller/rmdworkload/rmdworkload_controller.go:485-508) is not modelled.
- The several calls inside getPodAddress: one call with one fault.
- CPU lists: signs before numbers and other spellings the cpuset library may accept are taken as unreadable.
- The growth of a slice's capacity: the array doubles; Go's own policy is not modelled. Nor is the aliasing of the RmdConfig status with the shared list after a pass.
- WorkloadController.ReconcileRmdWorkload.UpdateRmdWorkloadStatus: does not model CosName, Status and the P-state data of a workload's state, which are copied from the reply.
- WorkloadController.ReconcileRmdWorkload.PostWorkload: does not model the text of a response, only whether there is one, and whether it is a success with its code or a failure.
- WorkloadController.ReconcileRmdWorkload.PatchWorkload: does not model the text of a response, likewise.
- Registry.ReconcileRmdConfig.CreateNodeStateIfNotPresent: does not tell an owner reference that cannot be set from a create that fails before it takes effect; both end the pass with nothing stored.
- NodeAgent.ReconcilePod.CreateOrUpdate: does not tell these two apart either.
- NodeAgent.BuildRmdWorkload: does not model which containers request cache, nor how their cores and cache limit are read; both are inputs.
- Registry.ReconcileRmdNodeState.RebuildWorkloads: an error while copying one workload's fields, which ends the pass, is not modelled, nor is the copying itself.
- GetAvailableCacheWays, UpdateNodeStatusWorkload, the device plugin's Allocate loop and the choice of containers that request cache: easy members.

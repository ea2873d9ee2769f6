/**
 What the operations of a pass do under every tape of faults, in terms of the faults that each of their
 calls takes, the entries of the instances and the fields of the status.
 */
module UnderFaults {
  import opened RmdClient
  import opened RmdServer
  import opened Passes

  /** The fault that the call after `k` others takes. */
  function FaultAt(w: World, k: nat): Fault {
    if k < |w.faults| then w.faults[k] else NoFault
  }

  function FaultsFrom(w: World, k: nat): seq<Fault> {
    if k <= |w.faults| then w.faults[k..] else []
  }

  lemma FaultsLater(w: World, v: World, k: nat)
    requires v.faults == FaultsFrom(w, k)
    ensures forall j: nat :: FaultAt(v, j) == FaultAt(w, k + j)
    ensures forall j: nat :: FaultsFrom(v, j) == FaultsFrom(w, k + j)
  {
  }

  lemma OneSpent(w: World)
    ensures NextFault(w) == FaultAt(w, 0) && Spent(w) == w.(faults := FaultsFrom(w, 1))
    ensures forall k: nat :: FaultAt(Spent(w), k) == FaultAt(w, k + 1)
    ensures forall k: nat :: FaultsFrom(Spent(w), k) == FaultsFrom(w, k + 1)
  {
  }

  /* ---- one request ---- */

  /** The entries after a POST: one more, at the end, under an ID that was never issued. */
  ghost predicate Posted(i: Instance, j: Instance, name: string, payload: Payload) {
    && |j.entries| == |i.entries| + 1 && (forall k :: 0 <= k < |i.entries| ==> j.entries[k] == i.entries[k])
    && j.entries[|i.entries|].id == Id(|i.issued|)
    && j.entries[|i.entries|].uuid == name && j.entries[|i.entries|].config == payload
    && j.issued == i.issued + [name] && j.shareCpuLists == i.shareCpuLists
  }

  /** The entries after a PATCH: the configuration under that ID is replaced, and nothing else. */
  ghost predicate Reconfigured(i: Instance, j: Instance, id: WorkloadId, payload: Payload) {
    && |j.entries| == |i.entries|
    && (forall k :: 0 <= k < |i.entries| ==>
          && j.entries[k].id == i.entries[k].id && j.entries[k].uuid == i.entries[k].uuid
          && j.entries[k].config == if i.entries[k].id == id then payload else i.entries[k].config)
    && j.issued == i.issued && j.shareCpuLists == i.shareCpuLists
  }

  ghost predicate HasId(i: Instance, id: WorkloadId) {
    exists k :: 0 <= k < |i.entries| && i.entries[k].id == id
  }

  /** Only the instance at this address may differ. */
  ghost predicate OnlyAt(rmd: map<string, Instance>, rmd': map<string, Instance>, address: string) {
    rmd'.Keys == rmd.Keys && forall a :: a in rmd && a != address ==> rmd'[a] == rmd[a]
  }

  /** The request for a spec: only one for all cores asks the instance first, and only then can a fault refuse it. */
  function FormatUnder(w: World, spec: Spec, address: string, k: nat): Format {
    if !spec.allCores then FormatWorkload(spec, [])
    else if FaultAt(w, k) == NoFault && address in w.rmd then FormatWorkload(spec, w.rmd[address].shareCpuLists)
    else FormatError
  }

  /** What is sent for a target takes effect unless it is refused, also when its answer is lost. */
  ghost predicate SentUnder(w: World, w': World, name: string, t: Target, id: WorkloadId, payload: Payload, k: nat) {
    if t.address !in w.rmd || FaultAt(w, k) == Before then w'.rmd == w.rmd
    else
      && OnlyAt(w.rmd, w'.rmd, t.address)
      && if t.present then Reconfigured(w.rmd[t.address], w'.rmd[t.address], id, payload)
         else Posted(w.rmd[t.address], w'.rmd[t.address], name, payload)
  }

  /** The answer: success only for a request that met no fault, and for a PATCH only under an ID that is there. */
  ghost predicate AnsweredUnder(w: World, t: Target, id: WorkloadId, k: nat, response: Response) {
    if t.address in w.rmd && FaultAt(w, k) == NoFault && (t.present ==> HasId(w.rmd[t.address], id)) then
      response == Success(if t.present then 200 else 201)
    else response == Failure
  }

  lemma {:induction false} PatchedEntries(entries: seq<Entry>, id: WorkloadId, config: Payload)
    ensures |Patched(entries, id, config)| == |entries|
    ensures forall k :: 0 <= k < |entries| ==>
              var e, f := entries[k], Patched(entries, id, config)[k];
              f.id == e.id && f.uuid == e.uuid && f.config == if e.id == id then config else e.config
  {
    if entries != [] {
      PatchedEntries(entries[1..], id, config);
    }
  }

  lemma SendExactly(w: World, t: Target, payload: Payload, name: string, id: WorkloadId)
    ensures var sent := Send(w, t.address, payload, !t.present, name, id);
            && sent.world == w.(rmd := sent.world.rmd, faults := FaultsFrom(w, 1))
            && SentUnder(w, sent.world, name, t, id, payload, 0)
            && sent.result.Some? && AnsweredUnder(w, t, id, 0, sent.result.value)
  {
    OneSpent(w);
    if t.address in w.rmd {
      var i := w.rmd[t.address];
      PatchedEntries(i.entries, id, payload);
      assert Live(i, id) <==> HasId(i, id);
    }
  }

  /* ---- the status ---- */

  /** The fields that come from the instance. */
  ghost predicate ShowsEntry(state: WorkloadState, e: Entry) {
    && state.id == e.id && state.policy == e.config.policy && state.coreIds == e.config.coreIds
    && state.cacheMax == (if e.config.cacheMax.Some? then e.config.cacheMax.value else 0)
    && state.cacheMin == (if e.config.cacheMin.Some? then e.config.cacheMin.value else 0)
    && state.mbaPercentage == (if e.config.mbaPercentage.Some? then e.config.mbaPercentage.value else 0)
    && state.mbaMbps == (if e.config.mbaMbps.Some? then e.config.mbaMbps.value else 0)
  }

  /** The same fields, as they were. */
  ghost predicate ShowsSame(state: WorkloadState, before: WorkloadState) {
    && state.id == before.id && state.policy == before.policy && state.coreIds == before.coreIds
    && state.cacheMax == before.cacheMax && state.cacheMin == before.cacheMin
    && state.mbaPercentage == before.mbaPercentage && state.mbaMbps == before.mbaMbps
  }

  /** The first entry of that name, with an ID. */
  ghost predicate IsFirstOf(entries: seq<Entry>, name: string, k: nat) {
    && k < |entries| && entries[k].uuid == name
    && forall j :: 0 <= j < k ==> entries[j].uuid != name
  }

  /** There is an entry of that name, and the first one has an ID. */
  ghost predicate HasNamed(entries: seq<Entry>, name: string) {
    exists k: nat :: IsFirstOf(entries, name, k) && entries[k].id != NoId
  }

  /** What the status shows beside the response: what the instance says if it could be read and has the name. */
  ghost predicate StateShows(state: WorkloadState, before: WorkloadState, rmd: map<string, Instance>, address: string,
                             name: string, readable: bool)
  {
    if readable && address in rmd && HasNamed(rmd[address].entries, name) then
      forall k: nat :: IsFirstOf(rmd[address].entries, name, k) ==> ShowsEntry(state, rmd[address].entries[k])
    else ShowsSame(state, before)
  }

  ghost predicate NodeShows(states: States, states': States, node: string, response: Response,
                            rmd: map<string, Instance>, address: string, name: string, readable: bool)
  {
    && node in states' && states'.Keys == states.Keys + {node}
    && (forall n :: n in states && n != node ==> states'[n] == states[n])
    && states'[node].response == response
    && StateShows(states'[node], if node in states then states[node] else EMPTY_STATE, rmd, address, name, readable)
  }

  /** The status is stored unless the object is gone or the call refused, also when its answer is lost. */
  ghost predicate StoredUnder(w: World, w': World, name: string, states: States, k: nat) {
    if name in w.objects && FaultAt(w, k) != Before then
      && w'.objects.Keys == w.objects.Keys
      && w'.objects[name].spec == w.objects[name].spec && w'.objects[name].states == states
      && forall m :: m in w.objects && m != name ==> w'.objects[m] == w.objects[m]
    else w'.objects == w.objects
  }

  ghost predicate StoreSucceeds(w: World, name: string, k: nat) {
    name in w.objects && FaultAt(w, k) == NoFault
  }

  lemma StoreExactly(w: World, name: string, states: States)
    ensures var (w', ok) := StoreStatus(w, name, states);
            && w' == w.(objects := w'.objects, faults := FaultsFrom(w, 1))
            && StoredUnder(w, w', name, states, 0) && (ok <==> StoreSucceeds(w, name, 0))
  {
    OneSpent(w);
  }

  /** The entry that a search by name returns, by index. */
  lemma FoundFirst(entries: seq<Entry>, name: string)
    ensures forall k: nat :: IsFirstOf(entries, name, k) ==> FindWorkloadByName(entries, name) == entries[k]
    ensures FindWorkloadByName(entries, name).id != NoId ==>
              exists k: nat :: IsFirstOf(entries, name, k) && entries[k] == FindWorkloadByName(entries, name)
  {
    if e :| e in entries && e.uuid == name {
      FindsFirst(entries, name);
      var k :| 0 <= k < |entries| && entries[k].uuid == name && FindWorkloadByName(entries, name) == entries[k]
               && forall j :: 0 <= j < k ==> entries[j].uuid != name;
      assert IsFirstOf(entries, name, k);
      forall l: nat | IsFirstOf(entries, name, l)
        ensures l == k
      {
        assert !(l < k) && !(k < l);
      }
    }
  }

  lemma StoredLater(w: World, v: World, w': World, name: string, states: States, k: nat, j: nat)
    requires v.objects == w.objects && v.faults == FaultsFrom(w, k) && StoredUnder(v, w', name, states, j)
    ensures StoredUnder(w, w', name, states, k + j)
    ensures StoreSucceeds(v, name, j) <==> StoreSucceeds(w, name, k + j)
  {
    FaultsLater(w, v, k);
  }

  lemma StateExactly(w: World, name: string, states: States, node: string, address: string, response: Response)
    ensures NodeShows(states, UpdateRmdWorkloadStatus(w, name, states, node, address, response).states, node, response,
                      w.rmd, address, name, FaultAt(w, 0) == NoFault)
  {
    if GetWorkloads(w, address).result.Some? {
      FoundFirst(w.rmd[address].entries, name);
    }
  }

  /** What an update of the status does, call by call: the lookup takes the first fault, the store the second. */
  lemma UpdateExactly(w: World, name: string, states: States, node: string, address: string, response: Response)
    ensures var s := UpdateRmdWorkloadStatus(w, name, states, node, address, response);
            && s.world == w.(objects := s.world.objects, faults := FaultsFrom(w, 2))
            && NodeShows(states, s.states, node, response, w.rmd, address, name, FaultAt(w, 0) == NoFault)
            && StoredUnder(w, s.world, name, s.states, 1) && (s.ok <==> StoreSucceeds(w, name, 1))
  {
    OneSpent(w);
    var g := GetWorkloads(w, address);
    var s := UpdateRmdWorkloadStatus(w, name, states, node, address, response);
    StoreExactly(g.world, name, s.states);
    StoredLater(w, g.world, s.world, name, s.states, 1, 0);
    StateExactly(w, name, states, node, address, response);
  }

  /* ---- one target ---- */

  function AskedFirst(spec: Spec): nat {
    if spec.allCores then 1 else 0
  }

  /** The calls made for a target: the caches if all cores are wanted, the request if there is one, lookup and store. */
  function CallsFor(w: World, spec: Spec, address: string, k: nat): nat {
    AskedFirst(spec) + if FormatUnder(w, spec, address, k).Formatted? then 3 else 2
  }

  function RememberedId(states: States, node: string): WorkloadId {
    if node in states then states[node].id else NoId
  }

  /** The request of a target and its answer, when its calls begin after `k` others; no request has no answer. */
  ghost predicate RequestedUnder(w: World, w': World, name: string, spec: Spec, id: WorkloadId, t: Target, k: nat,
                                 response: Response)
  {
    var format := FormatUnder(w, spec, t.address, k);
    if format.Formatted? then
      && SentUnder(w, w', name, t, id, format.payload, k + AskedFirst(spec))
      && AnsweredUnder(w, t, id, k + AskedFirst(spec), response)
    else w'.rmd == w.rmd && response == NoResponse
  }

  /** What the sync of one target leaves: it ends the pass when the process ends or the status cannot be stored. */
  ghost predicate TargetUnder(w: World, s: Synced, name: string, spec: Spec, states: States, t: Target) {
    var n := CallsFor(w, spec, t.address, 0);
    if FormatUnder(w, spec, t.address, 0).Fatal? then
      s.world == w.(faults := FaultsFrom(w, AskedFirst(spec))) && s.states == states && !s.ok
    else
      && s.world.env == w.env && s.world.faults == FaultsFrom(w, n)
      && t.node in s.states
      && RequestedUnder(w, s.world, name, spec, RememberedId(states, t.node), t, 0, s.states[t.node].response)
      && NodeShows(states, s.states, t.node, s.states[t.node].response, s.world.rmd, t.address, name,
                   FaultAt(w, n - 2) == NoFault)
      && StoredUnder(w, s.world, name, s.states, n - 1) && (s.ok <==> StoreSucceeds(w, name, n - 1))
  }

  lemma FormatExactly(w: World, spec: Spec, address: string)
    ensures FormatRequest(w, spec, address) ==
            (w.(faults := FaultsFrom(w, AskedFirst(spec))), FormatUnder(w, spec, address, 0))
  {
    OneSpent(w);
    assert w == w.(faults := FaultsFrom(w, 0));
  }

  lemma RequestExactly(w: World, name: string, spec: Spec, states: States, t: Target)
    requires !FormatUnder(w, spec, t.address, 0).Fatal?
    ensures var sent := if !t.present then PostWorkload(w, name, spec, t.address)
                        else PatchWorkload(w, spec, t.address, RememberedId(states, t.node));
            && sent.world == w.(rmd := sent.world.rmd, faults := FaultsFrom(w, CallsFor(w, spec, t.address, 0) - 2))
            && sent.result.Some?
            && RequestedUnder(w, sent.world, name, spec, RememberedId(states, t.node), t, 0, sent.result.value)
  {
    FormatExactly(w, spec, t.address);
    var (w1, format) := FormatRequest(w, spec, t.address);
    FaultsLater(w, w1, AskedFirst(spec));
    if format.Formatted? {
      SendExactly(w1, t, format.payload, if t.present then "" else name,
                  if t.present then RememberedId(states, t.node) else NoId);
    }
  }

  lemma AnsweredAs(w: World, w1: World, s: Synced, name: string, spec: Spec, states: States, t: Target,
                   response: Response)
    requires !FormatUnder(w, spec, t.address, 0).Fatal? && s.world.env == w.env && s.world.rmd == w1.rmd
    requires RequestedUnder(w, w1, name, spec, RememberedId(states, t.node), t, 0, response)
    requires var n := CallsFor(w, spec, t.address, 0);
             && s.world.faults == FaultsFrom(w, n)
             && NodeShows(states, s.states, t.node, response, s.world.rmd, t.address, name,
                          FaultAt(w, n - 2) == NoFault)
             && StoredUnder(w, s.world, name, s.states, n - 1) && (s.ok <==> StoreSucceeds(w, name, n - 1))
    ensures TargetUnder(w, s, name, spec, states, t)
  {
  }

  /** After the request come the lookup and the store. */
  lemma AnsweredExactly(w: World, w1: World, name: string, spec: Spec, states: States, t: Target, response: Response)
    requires var n := CallsFor(w, spec, t.address, 0);
             w1 == w.(rmd := w1.rmd, faults := FaultsFrom(w, n - 2)) && !FormatUnder(w, spec, t.address, 0).Fatal?
    requires RequestedUnder(w, w1, name, spec, RememberedId(states, t.node), t, 0, response)
    ensures TargetUnder(w, UpdateRmdWorkloadStatus(w1, name, states, t.node, t.address, response), name, spec, states,
                        t)
  {
    var n, s := CallsFor(w, spec, t.address, 0), UpdateRmdWorkloadStatus(w1, name, states, t.node, t.address, response);
    FaultsLater(w, w1, n - 2);
    UpdateExactly(w1, name, states, t.node, t.address, response);
    StoredLater(w, w1, s.world, name, s.states, n - 2, 1);
    AnsweredAs(w, w1, s, name, spec, states, t, response);
  }

  lemma SyncTargetParts(w: World, name: string, spec: Spec, states: States, t: Target)
    ensures var sent := if !t.present then PostWorkload(w, name, spec, t.address)
                        else PatchWorkload(w, spec, t.address, RememberedId(states, t.node));
            SyncTarget(w, name, spec, states, t) ==
            if sent.result.None? then Synced(sent.world, states, false)
            else UpdateRmdWorkloadStatus(sent.world, name, states, t.node, t.address, sent.result.value)
  {
    assert RememberedId(states, t.node) == StateOf(states, t.node).id;
  }

  /** One target, for every tape: its request, the instances and the status after it, and when it ends the pass. */
  lemma TargetExactly(w: World, name: string, spec: Spec, states: States, t: Target)
    ensures TargetUnder(w, SyncTarget(w, name, spec, states, t), name, spec, states, t)
  {
    FormatExactly(w, spec, t.address);
    SyncTargetParts(w, name, spec, states, t);
    if !FormatUnder(w, spec, t.address, 0).Fatal? {
      RequestExactly(w, name, spec, states, t);
      var sent := if !t.present then PostWorkload(w, name, spec, t.address)
                  else PatchWorkload(w, spec, t.address, RememberedId(states, t.node));
      AnsweredExactly(w, sent.world, name, spec, states, t, sent.result.value);
    }
  }

  /* ---- all targets ---- */

  /** After how many calls those of target `i` begin. */
  function Begin(w: World, spec: Spec, targets: seq<Target>, i: nat): nat
    requires i <= |targets|
  {
    if i == 0 then 0
    else
      var k := Begin(w, spec, targets, i - 1);
      k + CallsFor(w, spec, targets[i - 1].address, k)
  }

  /** The pass goes on after target `i`: the process did not end, and the store, its last call, succeeded. */
  ghost predicate GoesOn(w: World, name: string, spec: Spec, targets: seq<Target>, i: nat)
    requires i < |targets|
  {
    && !FormatUnder(w, spec, targets[i].address, Begin(w, spec, targets, i)).Fatal?
    && StoreSucceeds(w, name, Begin(w, spec, targets, i + 1) - 1)
  }

  ghost predicate DistinctTargets(targets: seq<Target>) {
    forall i, j :: 0 <= i < j < |targets| ==>
      targets[i].node != targets[j].node && targets[i].address != targets[j].address
  }

  /** `w` with the instance at one address as in `rmd`. */
  function WithOnly(w: World, rmd: map<string, Instance>, address: string): World {
    if address in w.rmd && address in rmd then w.(rmd := w.rmd[address := rmd[address]]) else w
  }

  /** What is left of a target whose calls began after `k` others: on its instance, and in the state of its node. */
  ghost predicate OutcomeAt(w: World, s: Synced, name: string, spec: Spec, states: States, t: Target, k: nat) {
    && t.node in s.states
    && RequestedUnder(w, WithOnly(w, s.world.rmd, t.address), name, spec, RememberedId(states, t.node), t, k,
                      s.states[t.node].response)
    && StateShows(s.states[t.node], if t.node in states then states[t.node] else EMPTY_STATE, s.world.rmd, t.address,
                  name, FaultAt(w, k + CallsFor(w, spec, t.address, k) - 2) == NoFault)
  }

  ghost predicate UntouchedAt(w: World, s: Synced, states: States, t: Target) {
    && (t.address in w.rmd ==> t.address in s.world.rmd && s.world.rmd[t.address] == w.rmd[t.address])
    && (t.node in s.states <==> t.node in states) && (t.node in states ==> s.states[t.node] == states[t.node])
  }

  /** Nothing has happened yet at this target, and `k` calls were made. */
  ghost predicate NotYet(w: World, v: World, st: States, states: States, t: Target, k: nat) {
    && v.faults == FaultsFrom(w, k) && v.rmd.Keys == w.rmd.Keys
    && (t.address in w.rmd ==> v.rmd[t.address] == w.rmd[t.address])
    && (t.node in st <==> t.node in states) && (t.node in states ==> st[t.node] == states[t.node])
  }

  lemma FormatLater(w: World, v: World, st: States, states: States, spec: Spec, t: Target, k: nat)
    requires NotYet(w, v, st, states, t, k)
    ensures FormatUnder(v, spec, t.address, 0) == FormatUnder(w, spec, t.address, k)
    ensures CallsFor(v, spec, t.address, 0) == CallsFor(w, spec, t.address, k)
    ensures RememberedId(st, t.node) == RememberedId(states, t.node)
  {
    FaultsLater(w, v, k);
  }

  lemma StatusNow(w: World, v: World, s: Synced, name: string, spec: Spec, st: States, t: Target, k: nat)
    requires TargetUnder(v, s, name, spec, st, t) && !FormatUnder(v, spec, t.address, 0).Fatal?
    ensures t.node in s.states
    ensures StateShows(s.states[t.node], if t.node in st then st[t.node] else EMPTY_STATE, s.world.rmd, t.address, name,
                       FaultAt(v, CallsFor(v, spec, t.address, 0) - 2) == NoFault)
    ensures s.world.faults == FaultsFrom(v, CallsFor(v, spec, t.address, 0))
    ensures s.world.objects.Keys == v.objects.Keys
    ensures s.ok <==> StoreSucceeds(v, name, CallsFor(v, spec, t.address, 0) - 1)
    ensures forall n :: n != t.node ==> (n in s.states <==> n in st) && (n in st ==> s.states[n] == st[n])
  {
  }

  lemma RequestNow(w: World, v: World, s: Synced, name: string, spec: Spec, st: States, states: States, t: Target,
                   k: nat)
    requires NotYet(w, v, st, states, t, k) && TargetUnder(v, s, name, spec, st, t)
    requires !FormatUnder(w, spec, t.address, k).Fatal? && t.node in s.states
    ensures RequestedUnder(w, WithOnly(w, s.world.rmd, t.address), name, spec, RememberedId(states, t.node), t, k,
                           s.states[t.node].response)
    ensures OnlyAt(v.rmd, s.world.rmd, t.address)
  {
    FormatLater(w, v, st, states, spec, t, k);
    FaultsLater(w, v, k);
  }

  lemma OutcomeNow(w: World, v: World, s: Synced, name: string, spec: Spec, st: States, states: States, t: Target,
                   k: nat)
    requires NotYet(w, v, st, states, t, k) && TargetUnder(v, s, name, spec, st, t)
    requires !FormatUnder(w, spec, t.address, k).Fatal?
    ensures OutcomeAt(w, s, name, spec, states, t, k)
    ensures s.world.faults == FaultsFrom(w, k + CallsFor(w, spec, t.address, k))
    ensures s.world.objects.Keys == v.objects.Keys && OnlyAt(v.rmd, s.world.rmd, t.address)
    ensures v.objects.Keys == w.objects.Keys ==>
              (s.ok <==> StoreSucceeds(w, name, k + CallsFor(w, spec, t.address, k) - 1))
    ensures forall n :: n != t.node ==> (n in s.states <==> n in st) && (n in st ==> s.states[n] == st[n])
  {
    FormatLater(w, v, st, states, spec, t, k);
    FaultsLater(w, v, k);
    StatusNow(w, v, s, name, spec, st, t, k);
    RequestNow(w, v, s, name, spec, st, states, t, k);
  }

  ghost predicate DoneAt(w: World, s: Synced, name: string, spec: Spec, states: States, targets: seq<Target>, i: nat)
    requires i < |targets|
  {
    OutcomeAt(w, s, name, spec, states, targets[i], Begin(w, spec, targets, i))
  }

  ghost predicate RestAt(w: World, s: Synced, states: States, targets: seq<Target>, i: nat)
    requires i < |targets|
  {
    UntouchedAt(w, s, states, targets[i])
  }

  /** How far the loop over the targets has come. */
  ghost predicate SyncedTo(w: World, v: World, name: string, spec: Spec, states: States, st: States,
                           targets: seq<Target>, m: nat)
    requires m <= |targets|
  {
    && v.faults == FaultsFrom(w, Begin(w, spec, targets, m)) && v.rmd.Keys == w.rmd.Keys
    && v.objects.Keys == w.objects.Keys
    && (forall i :: 0 <= i < m ==> DoneAt(w, Synced(v, st, true), name, spec, states, targets, i))
    && (forall i :: m <= i < |targets| ==> RestAt(w, Synced(v, st, true), states, targets, i))
  }

  lemma OutcomeStays(w: World, v: World, s: Synced, name: string, spec: Spec, states: States, st: States, u: Target,
                     k: nat, t: Target)
    requires OutcomeAt(w, Synced(v, st, true), name, spec, states, u, k) && v.rmd.Keys == w.rmd.Keys
    requires u.node != t.node && u.address != t.address && OnlyAt(v.rmd, s.world.rmd, t.address)
    requires forall n :: n != t.node ==> (n in s.states <==> n in st) && (n in st ==> s.states[n] == st[n])
    ensures OutcomeAt(w, Synced(s.world, s.states, true), name, spec, states, u, k)
  {
  }

  lemma OutcomesStay(w: World, v: World, s: Synced, name: string, spec: Spec, states: States, st: States,
                     targets: seq<Target>, m: nat)
    requires m < |targets| && DistinctTargets(targets) && SyncedTo(w, v, name, spec, states, st, targets, m)
    requires OnlyAt(v.rmd, s.world.rmd, targets[m].address)
    requires forall n :: n != targets[m].node ==> (n in s.states <==> n in st) && (n in st ==> s.states[n] == st[n])
    ensures forall i :: 0 <= i < m ==>
              DoneAt(w, Synced(s.world, s.states, true), name, spec, states, targets, i)
  {
    forall i | 0 <= i < m
      ensures DoneAt(w, Synced(s.world, s.states, true), name, spec, states, targets, i)
    {
      assert DoneAt(w, Synced(v, st, true), name, spec, states, targets, i);
      OutcomeStays(w, v, s, name, spec, states, st, targets[i], Begin(w, spec, targets, i), targets[m]);
    }
  }

  lemma RestUntouched(w: World, v: World, s: Synced, name: string, spec: Spec, states: States, st: States,
                      targets: seq<Target>, m: nat)
    requires m < |targets| && DistinctTargets(targets) && SyncedTo(w, v, name, spec, states, st, targets, m)
    requires OnlyAt(v.rmd, s.world.rmd, targets[m].address)
    requires forall n :: n != targets[m].node ==> (n in s.states <==> n in st) && (n in st ==> s.states[n] == st[n])
    ensures forall i :: m < i < |targets| ==> RestAt(w, Synced(s.world, s.states, true), states, targets, i)
  {
    forall i | m < i < |targets|
      ensures RestAt(w, Synced(s.world, s.states, true), states, targets, i)
    {
      assert RestAt(w, Synced(v, st, true), states, targets, i);
    }
  }

  lemma NextNotYet(w: World, v: World, name: string, spec: Spec, states: States, st: States, targets: seq<Target>,
                   m: nat)
    requires m < |targets| && SyncedTo(w, v, name, spec, states, st, targets, m)
    ensures NotYet(w, v, st, states, targets[m], Begin(w, spec, targets, m))
    ensures FormatUnder(v, spec, targets[m].address, 0) ==
            FormatUnder(w, spec, targets[m].address, Begin(w, spec, targets, m))
  {
    assert RestAt(w, Synced(v, st, true), states, targets, m);
    FormatLater(w, v, st, states, spec, targets[m], Begin(w, spec, targets, m));
  }

  lemma TargetNow(w: World, v: World, s: Synced, name: string, spec: Spec, states: States, st: States,
                  targets: seq<Target>, m: nat)
    requires m < |targets| && SyncedTo(w, v, name, spec, states, st, targets, m)
    requires TargetUnder(v, s, name, spec, st, targets[m])
    requires !FormatUnder(w, spec, targets[m].address, Begin(w, spec, targets, m)).Fatal?
    ensures OutcomeAt(w, s, name, spec, states, targets[m], Begin(w, spec, targets, m))
    ensures s.world.faults == FaultsFrom(w, Begin(w, spec, targets, m + 1))
    ensures s.world.objects.Keys == w.objects.Keys && OnlyAt(v.rmd, s.world.rmd, targets[m].address)
    ensures s.ok <==> StoreSucceeds(w, name, Begin(w, spec, targets, m + 1) - 1)
    ensures forall n :: n != targets[m].node ==> (n in s.states <==> n in st) && (n in st ==> s.states[n] == st[n])
  {
    NextNotYet(w, v, name, spec, states, st, targets, m);
    OutcomeNow(w, v, s, name, spec, st, states, targets[m], Begin(w, spec, targets, m));
  }

  lemma DoneNow(w: World, s: Synced, name: string, spec: Spec, states: States, targets: seq<Target>, m: nat)
    requires m < |targets| && OutcomeAt(w, s, name, spec, states, targets[m], Begin(w, spec, targets, m))
    ensures DoneAt(w, Synced(s.world, s.states, true), name, spec, states, targets, m)
  {
  }

  lemma SyncedJoin(w: World, s: Synced, name: string, spec: Spec, states: States, targets: seq<Target>, m: nat)
    requires m < |targets|
    requires forall i :: 0 <= i < m ==> DoneAt(w, Synced(s.world, s.states, true), name, spec, states, targets, i)
    requires DoneAt(w, Synced(s.world, s.states, true), name, spec, states, targets, m)
    requires forall i :: m < i < |targets| ==> RestAt(w, Synced(s.world, s.states, true), states, targets, i)
    requires s.world.faults == FaultsFrom(w, Begin(w, spec, targets, m + 1))
    requires s.world.objects.Keys == w.objects.Keys && s.world.rmd.Keys == w.rmd.Keys
    ensures SyncedTo(w, s.world, name, spec, states, s.states, targets, m + 1)
  {
  }

  /** One target further. */
  lemma SyncedFurther(w: World, v: World, s: Synced, name: string, spec: Spec, states: States, st: States,
                      targets: seq<Target>, m: nat)
    requires m < |targets| && DistinctTargets(targets) && SyncedTo(w, v, name, spec, states, st, targets, m)
    requires TargetUnder(v, s, name, spec, st, targets[m])
    requires !FormatUnder(w, spec, targets[m].address, Begin(w, spec, targets, m)).Fatal?
    ensures SyncedTo(w, s.world, name, spec, states, s.states, targets, m + 1)
    ensures s.ok <==> StoreSucceeds(w, name, Begin(w, spec, targets, m + 1) - 1)
  {
    TargetNow(w, v, s, name, spec, states, st, targets, m);
    DoneNow(w, s, name, spec, states, targets, m);
    OutcomesStay(w, v, s, name, spec, states, st, targets, m);
    RestUntouched(w, v, s, name, spec, states, st, targets, m);
    SyncedJoin(w, s, name, spec, states, targets, m);
  }

  /** The loop served `m` targets; the one after them, if any, ended it. */
  ghost predicate ServedUntil(w: World, s: Synced, name: string, spec: Spec, states: States, targets: seq<Target>,
                              m: nat)
  {
    && m <= |targets| && (forall i :: 0 <= i < m ==> GoesOn(w, name, spec, targets, i))
    && (m < |targets| ==> !GoesOn(w, name, spec, targets, m))
    && (s.ok <==> m == |targets|)
    && (forall i :: 0 <= i < m ==> DoneAt(w, s, name, spec, states, targets, i))
    && (m < |targets| && !FormatUnder(w, spec, targets[m].address, Begin(w, spec, targets, m)).Fatal? ==>
          DoneAt(w, s, name, spec, states, targets, m))
    && (forall i :: m < i < |targets| ==> RestAt(w, s, states, targets, i))
  }

  lemma ServedHere(w: World, v: World, s: Synced, name: string, spec: Spec, states: States, st: States,
                   targets: seq<Target>, m: nat)
    requires m < |targets| && SyncedTo(w, v, name, spec, states, st, targets, m)
    requires forall i :: 0 <= i < m ==> GoesOn(w, name, spec, targets, i)
    requires FormatUnder(w, spec, targets[m].address, Begin(w, spec, targets, m)).Fatal?
    requires s.world.rmd == v.rmd && s.states == st && !s.ok
    ensures ServedUntil(w, s, name, spec, states, targets, m)
  {
    SameOutcomes(w, v, s, name, spec, states, st, targets, m);
  }

  lemma SameOutcomes(w: World, v: World, s: Synced, name: string, spec: Spec, states: States, st: States,
                     targets: seq<Target>, m: nat)
    requires m <= |targets| && SyncedTo(w, v, name, spec, states, st, targets, m)
    requires s.world.rmd == v.rmd && s.states == st
    ensures forall i :: 0 <= i < m ==> DoneAt(w, s, name, spec, states, targets, i)
    ensures forall i :: m <= i < |targets| ==> RestAt(w, s, states, targets, i)
  {
    forall i | 0 <= i < m
      ensures DoneAt(w, s, name, spec, states, targets, i)
    {
      assert DoneAt(w, Synced(v, st, true), name, spec, states, targets, i);
    }
    forall i | m <= i < |targets|
      ensures RestAt(w, s, states, targets, i)
    {
      assert RestAt(w, Synced(v, st, true), states, targets, i);
    }
  }

  lemma StoreStops(w: World, s: Synced, name: string, spec: Spec, states: States, targets: seq<Target>, m: nat)
    requires m < |targets| && SyncedTo(w, s.world, name, spec, states, s.states, targets, m + 1)
    requires forall i :: 0 <= i < m ==> GoesOn(w, name, spec, targets, i)
    requires !StoreSucceeds(w, name, Begin(w, spec, targets, m + 1) - 1) && !s.ok
    ensures ServedUntil(w, s, name, spec, states, targets, m)
  {
    SameOutcomes(w, s.world, s, name, spec, states, s.states, targets, m + 1);
  }

  /** The next target: the loop goes on, or it ends here. */
  lemma OneTarget(w: World, v: World, name: string, spec: Spec, states: States, st: States, targets: seq<Target>,
                  m: nat)
    requires m < |targets| && DistinctTargets(targets) && SyncedTo(w, v, name, spec, states, st, targets, m)
    requires forall i :: 0 <= i < m ==> GoesOn(w, name, spec, targets, i)
    ensures var s := SyncTarget(v, name, spec, st, targets[m]);
            if s.ok then
              SyncedTo(w, s.world, name, spec, states, s.states, targets, m + 1) && GoesOn(w, name, spec, targets, m)
            else ServedUntil(w, s, name, spec, states, targets, m)
  {
    var s := SyncTarget(v, name, spec, st, targets[m]);
    TargetExactly(v, name, spec, st, targets[m]);
    NextNotYet(w, v, name, spec, states, st, targets, m);
    if FormatUnder(w, spec, targets[m].address, Begin(w, spec, targets, m)).Fatal? {
      ServedHere(w, v, s, name, spec, states, st, targets, m);
    } else {
      SyncedFurther(w, v, s, name, spec, states, st, targets, m);
      if !s.ok {
        StoreStops(w, s, name, spec, states, targets, m);
      }
    }
  }

  lemma {:induction false} TargetsFrom(w: World, v: World, name: string, spec: Spec, states: States, st: States,
                                       targets: seq<Target>, m: nat) returns (n: nat)
    requires m <= |targets| && DistinctTargets(targets) && SyncedTo(w, v, name, spec, states, st, targets, m)
    requires forall i :: 0 <= i < m ==> GoesOn(w, name, spec, targets, i)
    ensures ServedUntil(w, SyncTargets(v, name, spec, st, targets[m..]), name, spec, states, targets, n)
    decreases |targets| - m
  {
    n := m;
    if m == |targets| {
      SameOutcomes(w, v, Synced(v, st, true), name, spec, states, st, targets, m);
    } else {
      var s := SyncTarget(v, name, spec, st, targets[m]);
      assert targets[m..][0] == targets[m] && targets[m..][1..] == targets[m + 1..];
      OneTarget(w, v, name, spec, states, st, targets, m);
      if s.ok {
        n := TargetsFrom(w, s.world, name, spec, states, s.states, targets, m + 1);
      }
    }
  }

  /**
   The loop over the targets, for every tape. Only the end of the process or a status that cannot be
   stored ends it, so a request that is refused, or whose answer is lost, keeps no later target from
   being served; each target served has the outcome that its own calls give it.
   */
  lemma TargetsExactly(w: World, name: string, spec: Spec, states: States, targets: seq<Target>) returns (m: nat)
    requires DistinctTargets(targets)
    ensures ServedUntil(w, SyncTargets(w, name, spec, states, targets), name, spec, states, targets, m)
  {
    assert targets[0..] == targets && w.faults == FaultsFrom(w, 0);
    m := TargetsFrom(w, w, name, spec, states, states, targets, 0);
  }

  /** A request that is refused changes no instance and ends nothing: the failure is what the status says. */
  lemma RefusalIsStored(w: World, name: string, spec: Spec, states: States, t: Target)
    requires FormatUnder(w, spec, t.address, 0).Formatted? && name in w.objects
    requires t.address !in w.rmd || FaultAt(w, AskedFirst(spec)) == Before
    requires FaultAt(w, AskedFirst(spec) + 2) == NoFault
    ensures var s := SyncTarget(w, name, spec, states, t);
            && s.ok && s.world.rmd == w.rmd && t.node in s.states && s.states[t.node].response == Failure
            && s.world.objects[name].states == s.states
  {
    TargetExactly(w, name, spec, states, t);
  }

  /** While the process goes on and every status is stored, all targets are served, whatever becomes of requests. */
  lemma AllServed(w: World, name: string, spec: Spec, states: States, targets: seq<Target>)
    requires DistinctTargets(targets) && forall i :: 0 <= i < |targets| ==> GoesOn(w, name, spec, targets, i)
    ensures var s := SyncTargets(w, name, spec, states, targets);
            s.ok && forall i :: 0 <= i < |targets| ==> DoneAt(w, s, name, spec, states, targets, i)
  {
    var m := TargetsExactly(w, name, spec, states, targets);
  }
}

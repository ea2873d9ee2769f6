/**
 A pass without faults, in closed form: what it leaves on every instance and in the status.
 */
module CleanPass {
  import opened Basics
  import opened RmdClient
  import opened RmdServer
  import opened Passes
  import opened Safety

  ghost predicate Clean(w: World) {
    FaultsLeft(w.faults) == 0
  }

  /** The request for this spec to this instance. */
  function FormatAt(spec: Spec, i: Instance): Format {
    FormatWorkload(spec, if spec.allCores then i.shareCpuLists else [])
  }

  /** A targeted node whose RMD pod resolves. */
  predicate Aimed(w: World, spec: Spec, node: string) {
    node in TargetedNames(w.env, spec) && node in w.env.addresses
  }

  /** A registered node where the workload runs and is no longer wanted. */
  predicate Unwanted(w: World, name: string, spec: Spec, node: string) {
    && node in w.env.registry && node in w.env.addresses && w.env.addresses[node] in w.rmd
    && Holds(w.rmd[w.env.addresses[node]], name) && Removable(w.env, spec, node)
  }

  /** Everything a pass for `name` needs is there, and RMD can be asked for what the spec says. */
  ghost predicate Ready(w: World, name: string) {
    && name != "" && name in w.objects
    && (forall n :: n in w.env.registry ==> n in w.env.addresses)
    && (forall n :: n in w.env.addresses ==> w.env.addresses[n] in w.rmd)
    && var spec := w.objects[name].spec;
       && (forall n :: n in w.env.addresses && Aimed(w, spec, n) ==>
               FormatAt(spec, w.rmd[w.env.addresses[n]]).Formatted?)
       && (spec.nodeSelector != map[] ==>
             && w.env.config.Some?
             && (forall n :: n in TargetedNames(w.env, spec) ==> n in w.env.addresses)
             && (forall n :: n in w.env.registry ==> FindNode(w.env.nodes, n).Some?))
  }

  /* ---- one target ---- */

  /** The instance after the request of a target, as chosen by the lookup: a PATCH or a POST. */
  function Answered(i: Instance, present: bool, name: string, id: WorkloadId, payload: Payload): Instance {
    if present then Patch(i, id, payload) else Post(i, name, payload)
  }

  function Answer(i: Instance, present: bool, id: WorkloadId): Response {
    if !present then Success(201) else if Live(i, id) then Success(200) else Failure
  }

  /** The same when the lookup is up to date, given the ID the status remembers. */
  function Served(i: Instance, name: string, spec: Spec, id: WorkloadId): Instance
    requires FormatAt(spec, i).Formatted?
  {
    Answered(i, Holds(i, name), name, id, FormatAt(spec, i).payload)
  }

  function NewState(state: WorkloadState, i: Instance, name: string, spec: Spec): WorkloadState
    requires FormatAt(spec, i).Formatted?
  {
    Refreshed(state.(response := Answer(i, Holds(i, name), state.id)), Find(Served(i, name, spec, state.id), name))
  }

  lemma AnsweredHolds(i: Instance, present: bool, name: string, id: WorkloadId, payload: Payload)
    requires WellFormed(i) && (present ==> Holds(i, name))
    ensures var j := Answered(i, present, name, id, payload);
            WellFormed(j) && Holds(j, name) && Find(j, name).id.Id? && j.shareCpuLists == i.shareCpuLists
  {
    if present {
      PatchWellFormed(i, id, payload);
      PatchHolds(i, id, payload, name);
    } else {
      PostKeeps(i, name, payload);
    }
    FoundIssued(Answered(i, present, name, id, payload), name);
  }

  lemma CleanFormat(w: World, spec: Spec, address: string)
    requires Clean(w) && address in w.rmd
    ensures var (w1, format) := FormatRequest(w, spec, address);
            Clean(w1) && w1 == w.(faults := w1.faults) && format == FormatAt(spec, w.rmd[address])
  {
  }

  lemma CleanSend(w: World, address: string, payload: Payload, post: bool, name: string, id: WorkloadId)
    requires Clean(w) && address in w.rmd
    ensures var sent, i := Send(w, address, payload, post, name, id), w.rmd[address];
            && Clean(sent.world)
            && sent.world ==
                 w.(faults := sent.world.faults,
                    rmd := w.rmd[address := if post then Post(i, name, payload) else Patch(i, id, payload)])
            && sent.result == Some(if post then Success(201) else if Live(i, id) then Success(200) else Failure)
  {
  }

  lemma CleanRequest(w: World, name: string, spec: Spec, states: States, t: Target, payload: Payload)
    requires Clean(w) && t.address in w.rmd && FormatAt(spec, w.rmd[t.address]) == Formatted(payload)
    ensures var i, id := w.rmd[t.address], StateOf(states, t.node).id;
            var sent := Request(w, name, spec, states, t);
            && Clean(sent.world) && sent.result == Some(Answer(i, t.present, id))
            && sent.world ==
                 w.(faults := sent.world.faults, rmd := w.rmd[t.address := Answered(i, t.present, name, id, payload)])
  {
    CleanFormat(w, spec, t.address);
    var (w1, format) := FormatRequest(w, spec, t.address);
    if t.present {
      CleanSend(w1, t.address, payload, false, "", StateOf(states, t.node).id);
    } else {
      CleanSend(w1, t.address, payload, true, name, NoId);
    }
  }

  lemma CleanUpdateStatus(w: World, name: string, states: States, t: Target, response: Response)
    requires Clean(w) && t.address in w.rmd && name in w.objects && Find(w.rmd[t.address], name).id.Id?
    ensures var s := UpdateRmdWorkloadStatus(w, name, states, t.node, t.address, response);
            && s.ok && Clean(s.world)
            && s.states ==
                 states[t.node := Refreshed(StateOf(states, t.node).(response := response),
                                            Find(w.rmd[t.address], name))]
            && s.world ==
                 w.(objects := w.objects[name := w.objects[name].(states := s.states)], faults := s.world.faults)
  {
  }

  /** One target without faults, also when the lookup that chose its request is out of date. */
  lemma CleanSyncAny(w: World, name: string, spec: Spec, states: States, t: Target, payload: Payload)
    requires Clean(w) && t.address in w.rmd && WellFormed(w.rmd[t.address]) && name in w.objects
    requires FormatAt(spec, w.rmd[t.address]) == Formatted(payload) && (t.present ==> Holds(w.rmd[t.address], name))
    ensures var i, state := w.rmd[t.address], StateOf(states, t.node);
            var j := Answered(i, t.present, name, state.id, payload);
            var s := SyncTarget(w, name, spec, states, t);
            && s.ok && Clean(s.world) && s.world.env == w.env
            && s.world.rmd == w.rmd[t.address := j]
            && s.states ==
                 states[t.node := Refreshed(state.(response := Answer(i, t.present, state.id)), Find(j, name))]
            && s.world.objects == w.objects[name := w.objects[name].(states := s.states)]
  {
    var i, state := w.rmd[t.address], StateOf(states, t.node);
    CleanRequest(w, name, spec, states, t, payload);
    AnsweredHolds(i, t.present, name, state.id, payload);
    CleanUpdateStatus(Request(w, name, spec, states, t).world, name, states, t, Answer(i, t.present, state.id));
  }

  lemma CleanSyncTarget(w: World, name: string, spec: Spec, states: States, t: Target)
    requires Clean(w) && t.address in w.rmd && WellFormed(w.rmd[t.address]) && name in w.objects
    requires FormatAt(spec, w.rmd[t.address]).Formatted? && (t.present <==> Holds(w.rmd[t.address], name))
    ensures var i, state := w.rmd[t.address], StateOf(states, t.node);
            var s := SyncTarget(w, name, spec, states, t);
            && s.ok && Clean(s.world) && s.world.env == w.env
            && s.world.rmd == w.rmd[t.address := Served(i, name, spec, state.id)]
            && s.states == states[t.node := NewState(state, i, name, spec)]
            && s.world.objects == w.objects[name := w.objects[name].(states := s.states)]
  {
    CleanSyncAny(w, name, spec, states, t, FormatAt(spec, w.rmd[t.address]).payload);
  }

  /* ---- all targets ---- */

  ghost predicate NodeAmong(targets: seq<Target>, node: string) {
    exists t :: t in targets && t.node == node
  }

  ghost predicate AddressAmong(targets: seq<Target>, address: string) {
    exists t :: t in targets && t.address == address
  }

  ghost predicate TargetsReady(w: World, name: string, spec: Spec, targets: seq<Target>) {
    && (forall t :: t in targets ==>
          && t.address in w.rmd && WellFormed(w.rmd[t.address]) && FormatAt(spec, w.rmd[t.address]).Formatted?
          && (t.present <==> Holds(w.rmd[t.address], name)))
    && (forall j, k :: 0 <= j < k < |targets| ==>
            targets[j].node != targets[k].node && targets[j].address != targets[k].address)
  }

  /** What the sync of all targets leaves at one of them. */
  ghost predicate TargetSynced(rmd: map<string, Instance>, s: Synced, name: string, spec: Spec, states: States,
                               t: Target)
    requires t.address in rmd && FormatAt(spec, rmd[t.address]).Formatted?
  {
    && t.address in s.world.rmd
    && s.world.rmd[t.address] == Served(rmd[t.address], name, spec, StateOf(states, t.node).id)
    && t.node in s.states && s.states[t.node] == NewState(StateOf(states, t.node), rmd[t.address], name, spec)
  }

  /** What the sync of all targets leaves everywhere else. */
  ghost predicate RestUntouched(w: World, s: Synced, name: string, states: States, targets: seq<Target>) {
    && s.ok && Clean(s.world) && s.world.env == w.env && s.world.rmd.Keys == w.rmd.Keys
    && (forall a :: a in w.rmd && !AddressAmong(targets, a) ==> s.world.rmd[a] == w.rmd[a])
    && (forall n :: n in s.states <==> n in states || NodeAmong(targets, n))
    && (forall n :: n in states && !NodeAmong(targets, n) ==> s.states[n] == states[n])
    && s.world.objects.Keys == w.objects.Keys
    && (forall m :: m in w.objects ==>
            s.world.objects[m].spec == w.objects[m].spec && (m != name ==> s.world.objects[m] == w.objects[m]))
  }

  ghost predicate SyncedCleanly(w: World, s: Synced, name: string, spec: Spec, states: States, targets: seq<Target>)
    requires TargetsReady(w, name, spec, targets)
  {
    && RestUntouched(w, s, name, states, targets)
    && forall t :: t in targets ==> TargetSynced(w.rmd, s, name, spec, states, t)
  }

  lemma {:induction false} CleanSyncTargets(w: World, name: string, spec: Spec, states: States, targets: seq<Target>)
    requires Clean(w) && name in w.objects && TargetsReady(w, name, spec, targets)
    ensures SyncedCleanly(w, SyncTargets(w, name, spec, states, targets), name, spec, states, targets)
    decreases |targets|
  {
    if targets != [] {
      var t, rest := targets[0], targets[1..];
      assert t in targets;
      CleanSyncTarget(w, name, spec, states, t);
      var s := SyncTarget(w, name, spec, states, t);
      RestReady(w, s.world.rmd, name, spec, targets);
      assert TargetsReady(s.world, name, spec, rest);
      CleanSyncTargets(s.world, name, spec, s.states, rest);
      var e := SyncTargets(s.world, name, spec, s.states, rest);
      assert e == SyncTargets(w, name, spec, states, targets);
      UntouchedStep(w, s, e, name, states, targets);
      SyncedStep(w, s, e, name, spec, states, targets);
    }
  }

  lemma RestReady(w: World, rmd: map<string, Instance>, name: string, spec: Spec, targets: seq<Target>)
    requires targets != [] && TargetsReady(w, name, spec, targets)
    requires targets[0].address in rmd && rmd == w.rmd[targets[0].address := rmd[targets[0].address]]
    ensures TargetsReady(w.(rmd := rmd), name, spec, targets[1..])
    ensures forall u :: u in targets[1..] ==>
              u in targets && u.node != targets[0].node && u.address != targets[0].address
  {
  }

  lemma SyncedStep(w: World, s: Synced, e: Synced, name: string, spec: Spec, states: States, targets: seq<Target>)
    requires targets != [] && TargetsReady(w, name, spec, targets)
    requires forall u :: u in targets[1..] ==>
               u in targets && u.node != targets[0].node && u.address != targets[0].address
    requires targets[0].address in w.rmd && targets[0] in targets
             && TargetSynced(w.rmd, s, name, spec, states, targets[0])
    requires s.world.rmd == w.rmd[targets[0].address := s.world.rmd[targets[0].address]]
    requires s.states == states[targets[0].node := s.states[targets[0].node]]
    requires TargetsReady(s.world, name, spec, targets[1..])
    requires SyncedCleanly(s.world, e, name, spec, s.states, targets[1..])
    ensures forall u :: u in targets ==> TargetSynced(w.rmd, e, name, spec, states, u)
  {
    var t, rest := targets[0], targets[1..];
    assert !AddressAmong(rest, t.address) && !NodeAmong(rest, t.node);
    SyncedEarlier(w.rmd, s, e, name, spec, states, t);
    forall u | u in rest
      ensures TargetSynced(w.rmd, e, name, spec, states, u)
    {
      SyncedLater(w.rmd, s, e, name, spec, states, u);
    }
    assert forall u :: u in targets ==> u == t || u in rest;
  }

  lemma SyncedEarlier(rmd: map<string, Instance>, s: Synced, e: Synced, name: string, spec: Spec, states: States,
                      t: Target)
    requires t.address in rmd && FormatAt(spec, rmd[t.address]).Formatted?
             && TargetSynced(rmd, s, name, spec, states, t)
    requires t.address in e.world.rmd && e.world.rmd[t.address] == s.world.rmd[t.address]
    requires t.node in e.states && e.states[t.node] == s.states[t.node]
    ensures TargetSynced(rmd, e, name, spec, states, t)
  {
  }

  lemma SyncedLater(rmd: map<string, Instance>, s: Synced, e: Synced, name: string, spec: Spec, states: States,
                    u: Target)
    requires u.address in rmd && u.address in s.world.rmd && s.world.rmd[u.address] == rmd[u.address]
    requires FormatAt(spec, rmd[u.address]).Formatted? && StateOf(s.states, u.node) == StateOf(states, u.node)
    requires TargetSynced(s.world.rmd, e, name, spec, s.states, u)
    ensures TargetSynced(rmd, e, name, spec, states, u)
  {
  }

  lemma UntouchedStep(w: World, s: Synced, e: Synced, name: string, states: States, targets: seq<Target>)
    requires targets != [] && name in w.objects && targets[0].address in w.rmd && targets[0].address in s.world.rmd
    requires s.world.env == w.env
    requires s.world.rmd == w.rmd[targets[0].address := s.world.rmd[targets[0].address]]
    requires targets[0].node in s.states && s.states == states[targets[0].node := s.states[targets[0].node]]
    requires s.world.objects == w.objects[name := w.objects[name].(states := s.states)]
    requires RestUntouched(s.world, e, name, s.states, targets[1..])
    ensures RestUntouched(w, e, name, states, targets)
  {
    var t, rest := targets[0], targets[1..];
    assert forall u :: u in targets <==> u == t || u in rest;
    assert forall a :: AddressAmong(targets, a) <==> a == t.address || AddressAmong(rest, a);
    assert forall n :: NodeAmong(targets, n) <==> n == t.node || NodeAmong(rest, n);
  }

  /* ---- finding the targets ---- */

  lemma {:induction false} CleanListed(w: World, nodes: seq<string>, name: string)
    requires Clean(w) && forall n :: n in w.env.addresses ==> w.env.addresses[n] in w.rmd
    ensures TargetListed(w, nodes, name).result.Some?
    ensures forall n :: n in nodes && n in w.env.addresses ==> NodeAmong(TargetListed(w, nodes, name).result.value, n)
    decreases |nodes|
  {
    if nodes != [] {
      var t := GetTargetedNode(w, nodes[0], name);
      CleanListed(t.world, nodes[1..], name);
      var rest := TargetListed(t.world, nodes[1..], name).result.value;
      var all := TargetListed(w, nodes, name).result.value;
      assert forall u :: u in rest ==> u in all;
      if nodes[0] in w.env.addresses {
        assert t.result.Some? && t.result.value.node == nodes[0] && t.result.value in all;
      }
    }
  }

  lemma {:induction false} CleanSelected(w: World, nodes: seq<string>, name: string)
    requires Clean(w) && forall n :: n in w.env.addresses ==> w.env.addresses[n] in w.rmd
    requires forall n :: n in nodes ==> n in w.env.addresses
    ensures TargetSelected(w, nodes, name).result.Some?
    ensures forall n :: n in nodes ==> NodeAmong(TargetSelected(w, nodes, name).result.value, n)
    decreases |nodes|
  {
    if nodes != [] {
      var t := GetTargetedNode(w, nodes[0], name);
      assert t.result.Some? && t.result.value.node == nodes[0];
      CleanSelected(t.world, nodes[1..], name);
      var rest := TargetSelected(t.world, nodes[1..], name).result.value;
      var all := TargetSelected(w, nodes, name).result.value;
      assert all == [t.result.value] + rest;
      assert t.result.value in all && forall u :: u in rest ==> u in all;
      forall n | n in nodes
        ensures NodeAmong(all, n)
      {
        assert n == nodes[0] || (n in nodes[1..] && NodeAmong(rest, n));
      }
    }
  }

  /** Well-formed instances, nodes on different addresses, and no node asked for twice by this object. */
  ghost predicate Orderly(w: World, name: string) {
    && name in w.objects
    && Injective(w.env.addresses)
    && (forall a :: a in w.rmd ==> WellFormed(w.rmd[a]))
    && DistinctNodes(w.env.nodes) && NoDuplicates(w.env.registry)
    && TargetedDistinct(w.env, w.objects[name].spec)
  }

  lemma CleanFindTargeted(w: World, name: string)
    requires Orderly(w, name) && Clean(w) && Ready(w, name)
    ensures var spec := w.objects[name].spec;
            var t := FindTargetedNodes(w, name, spec);
            && t.result.Some? && Clean(t.world)
            && TargetsAt(w, t.result.value) && TargetsReady(w, name, spec, t.result.value)
            && forall n :: NodeAmong(t.result.value, n) <==> Aimed(w, spec, n)
  {
    var spec := w.objects[name].spec;
    FindTargetedFound(w, name, spec);
    var names := TargetedNames(w.env, spec);
    if spec.nodeSelector == map[] {
      CleanListed(w, names, name);
    } else {
      CleanSelected(Spent(Spent(w)), names, name);
    }
    var targets := FindTargetedNodes(w, name, spec).result.value;
    TargetsAreReady(w, name, spec, names, targets);
  }

  lemma TargetsAreReady(w: World, name: string, spec: Spec, names: seq<string>, targets: seq<Target>)
    requires Orderly(w, name) && Ready(w, name) && spec == w.objects[name].spec && names == TargetedNames(w.env, spec)
    requires FoundAmong(w, names, name, targets)
    ensures TargetsReady(w, name, spec, targets)
  {
    NamesDistinct(w.env, spec);
    forall j, k | 0 <= j < k < |targets|
      ensures targets[j].node != targets[k].node && targets[j].address != targets[k].address
    {
      assert targets[j] in targets && targets[k] in targets && !Twice(names, targets[j].node);
    }
  }

  /* ---- the final check ---- */

  lemma {:induction false} CleanFindRemoved(w: World, name: string, spec: Spec, registry: seq<string>)
    requires Clean(w) && name != ""
    requires forall n :: n in registry ==> n in w.env.addresses && w.env.addresses[n] in w.rmd
    requires spec.nodeSelector != map[] ==> forall n :: n in registry ==> FindNode(w.env.nodes, n).Some?
    ensures FindRemovedNodes(w, name, spec, registry).result.Some?
    decreases |registry|
  {
    if registry != [] {
      assert registry[0] in registry;
      var c := CheckRemoved(w, name, spec, registry[0]);
      assert c.result.Some?;
      CleanFindRemoved(c.world, name, spec, registry[1..]);
    }
  }

  ghost predicate RemovalAmong(removals: seq<Removal>, node: string) {
    exists r :: r in removals && r.node == node
  }

  ghost predicate RemovalAddress(removals: seq<Removal>, address: string) {
    exists r :: r in removals && r.address == address
  }

  ghost predicate RemovedCleanly(w: World, e: Synced, name: string, states: States, removals: seq<Removal>) {
    && e.ok && Clean(e.world) && e.world.env == w.env && e.world.rmd.Keys == w.rmd.Keys
    && (forall r :: r in removals ==> r.address in w.rmd && e.world.rmd[r.address] == Delete(w.rmd[r.address], r.id))
    && (forall a :: a in w.rmd && !RemovalAddress(removals, a) ==> e.world.rmd[a] == w.rmd[a])
    && (forall n :: n in e.states <==> n in states && !RemovalAmong(removals, n))
    && (forall n :: n in e.states ==> e.states[n] == states[n])
    && name in w.objects
    && e.world.objects == w.objects[name := w.objects[name].(states := e.states)]
  }

  lemma RemovedStep(w: World, w': World, e: Synced, name: string, states: States, removals: seq<Removal>)
    requires removals != [] && name in w.objects && removals[0].address in w.rmd
    requires var r := removals[0];
             Clean(w') && w' == w.(rmd := w.rmd[r.address := Delete(w.rmd[r.address], r.id)], faults := w'.faults)
    requires forall x :: x in removals[1..] ==> x.address in w.rmd && x.address != removals[0].address
    requires RemovedCleanly(w', e, name, states - {removals[0].node}, removals[1..])
    ensures RemovedCleanly(w, e, name, states, removals)
  {
    var r, rest := removals[0], removals[1..];
    assert forall x :: x in removals <==> x == r || x in rest;
    assert forall a :: RemovalAddress(removals, a) <==> a == r.address || RemovalAddress(rest, a);
    assert forall n :: RemovalAmong(removals, n) <==> n == r.node || RemovalAmong(rest, n);
    assert !RemovalAddress(rest, r.address);
  }

  lemma {:induction false} CleanRemove(w: World, name: string, states: States, removals: seq<Removal>)
    requires Clean(w) && name in w.objects
    requires forall r :: r in removals ==> r.address in w.rmd && Live(w.rmd[r.address], r.id)
    requires forall j, k :: 0 <= j < k < |removals| ==> removals[j].address != removals[k].address
    ensures RemovedCleanly(w, RemoveWorkload(w, name, states, removals), name, states, removals)
    decreases |removals|
  {
    if removals != [] {
      var r, rest := removals[0], removals[1..];
      assert r in removals;
      var (w', ok) := DeleteWorkload(w, r.address, r.id);
      assert ok && Clean(w') && w'.rmd == w.rmd[r.address := Delete(w.rmd[r.address], r.id)];
      forall x | x in rest
        ensures x in removals && x.address != r.address
      {
        var k :| 0 <= k < |rest| && rest[k] == x;
        assert removals[k + 1] == x;
      }
      CleanRemove(w', name, states - {r.node}, rest);
      RemovedStep(w, w', RemoveWorkload(w', name, states - {r.node}, rest), name, states, removals);
    }
  }

  /** What the final check leaves: one copy is gone from every unwanted node and nothing else changed. */
  ghost predicate Pruned(w: World, p: Pass, name: string, spec: Spec, states: States) {
    && p.done && Clean(p.world) && p.world.env == w.env && p.world.rmd.Keys == w.rmd.Keys
    && name in w.objects && name in p.world.objects
    && (forall n :: n in w.env.addresses && Unwanted(w, name, spec, n) ==>
          var a := w.env.addresses[n];
          a in w.rmd && p.world.rmd[a] == Delete(w.rmd[a], Find(w.rmd[a], name).id))
    && (forall a :: a in w.rmd && (forall n :: Unwanted(w, name, spec, n) ==> w.env.addresses[n] != a) ==>
            p.world.rmd[a] == w.rmd[a])
    && (forall n :: n in p.world.objects[name].states <==> n in states && !Unwanted(w, name, spec, n))
    && (forall n :: n in p.world.objects[name].states ==> p.world.objects[name].states[n] == states[n])
    && p.world.objects == w.objects[name := w.objects[name].(states := p.world.objects[name].states)]
  }

  lemma RemovalsLive(w: World, name: string, spec: Spec, registry: seq<string>, removals: seq<Removal>)
    requires RemovalsOf(w, name, spec, registry, removals) && NoDuplicates(registry) && Injective(w.env.addresses)
    ensures forall x :: x in removals ==> x.address in w.rmd && Live(w.rmd[x.address], x.id)
    ensures forall j, k :: 0 <= j < k < |removals| ==> removals[j].address != removals[k].address
  {
    forall x | x in removals
      ensures x.address in w.rmd && Live(w.rmd[x.address], x.id)
    {
      assert RemovalFound(w, name, spec, x);
      assert Find(w.rmd[x.address], name) in w.rmd[x.address].entries;
    }
    forall j, k | 0 <= j < k < |removals|
      ensures removals[j].address != removals[k].address
    {
      assert removals[j] in removals && removals[k] in removals;
    }
  }

  lemma CleanPrune(w: World, name: string, spec: Spec, states: States)
    requires Clean(w) && name != "" && name in w.objects && Injective(w.env.addresses) && NoDuplicates(w.env.registry)
    requires forall n :: n in w.env.registry ==> n in w.env.addresses && w.env.addresses[n] in w.rmd
    requires spec.nodeSelector != map[] ==> forall n :: n in w.env.registry ==> FindNode(w.env.nodes, n).Some?
    ensures Pruned(w, Prune(w, name, spec, states), name, spec, states)
  {
    CleanFindRemoved(w, name, spec, w.env.registry);
    RemovalsFound(w, name, spec, w.env.registry);
    var r := FindRemovedNodes(w, name, spec, w.env.registry);
    var removals := r.result.value;
    RemovalsLive(w, name, spec, w.env.registry, removals);
    CleanRemove(r.world, name, states, removals);
    assert forall n :: RemovalAmong(removals, n) <==> Unwanted(w, name, spec, n);
    forall a | a in w.rmd && RemovalAddress(removals, a)
      ensures exists n :: Unwanted(w, name, spec, n) && w.env.addresses[n] == a
    {
      var x :| x in removals && x.address == a;
      assert RemovalFound(w, name, spec, x) && RemovalAmong(removals, x.node);
    }
    forall n | n in w.env.addresses && Unwanted(w, name, spec, n)
      ensures var a := w.env.addresses[n];
              RemoveWorkload(r.world, name, states, removals).world.rmd[a] == Delete(w.rmd[a], Find(w.rmd[a], name).id)
    {
      var x :| x in removals && x.node == n;
      assert RemovalFound(w, name, spec, x);
    }
  }
}

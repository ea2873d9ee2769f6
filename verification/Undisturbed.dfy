/**
 A pass that meets no fault, although the tape still holds some: it does what it would do with an empty
 tape.
 */
module Undisturbed {
  import opened RmdClient
  import opened RmdServer
  import opened Passes

  /** The same state, with no fault to come. */
  function Blank(w: World): World {
    w.(faults := [])
  }

  /** No fault was met between the two. */
  ghost predicate Calm(w: World, w': World) {
    FaultsLeft(w'.faults) == FaultsLeft(w.faults)
  }

  ghost predicate Later(w: World, w': World) {
    FaultsLeft(w'.faults) <= FaultsLeft(w.faults)
  }

  function Blanked<T>(c: Called<T>): Called<T> {
    Called(Blank(c.world), c.result)
  }

  function BlankedSync(s: Synced): Synced {
    Synced(Blank(s.world), s.states, s.ok)
  }

  function BlankedPass(p: Pass): Pass {
    Pass(Blank(p.world), p.done)
  }

  /* ---- calls ---- */

  lemma SpentCalm(w: World)
    ensures Later(w, Spent(w)) && (Calm(w, Spent(w)) <==> NextFault(w).NoFault?)
    ensures Spent(Blank(w)) == Blank(w) == Blank(Spent(w))
  {
  }

  lemma SendCalm(w: World, address: string, payload: Payload, post: bool, name: string, id: WorkloadId)
    ensures var sent := Send(w, address, payload, post, name, id);
            && Later(w, sent.world)
            && (Calm(w, sent.world) ==> Send(Blank(w), address, payload, post, name, id) == Blanked(sent))
  {
    SpentCalm(w);
  }

  lemma FormatCalm(w: World, spec: Spec, address: string)
    ensures var (w1, format) := FormatRequest(w, spec, address);
            && Later(w, w1)
            && (Calm(w, w1) ==> FormatRequest(Blank(w), spec, address) == (Blank(w1), format))
  {
    SpentCalm(w);
  }

  lemma SendFormattedCalm(w: World, spec: Spec, address: string, post: bool, name: string, id: WorkloadId)
    ensures var sent := SendFormatted(w, spec, address, post, name, id);
            && Later(w, sent.world)
            && (Calm(w, sent.world) ==> SendFormatted(Blank(w), spec, address, post, name, id) == Blanked(sent))
  {
    FormatCalm(w, spec, address);
    var (w1, format) := FormatRequest(w, spec, address);
    if format.Formatted? {
      SendCalm(w1, address, format.payload, post, name, id);
    }
  }

  lemma DeleteCalm(w: World, address: string, id: WorkloadId)
    ensures var (w', ok) := DeleteWorkload(w, address, id);
            && Later(w, w')
            && (Calm(w, w') ==> DeleteWorkload(Blank(w), address, id) == (Blank(w'), ok))
  {
    SpentCalm(w);
  }

  lemma StoreCalm(w: World, name: string, states: States)
    ensures var (w', ok) := StoreStatus(w, name, states);
            && Later(w, w')
            && (Calm(w, w') ==> StoreStatus(Blank(w), name, states) == (Blank(w'), ok))
  {
    SpentCalm(w);
  }

  /* ---- lookups ---- */

  lemma TargetCalm(w: World, node: string, name: string)
    ensures var t := GetTargetedNode(w, node, name);
            Calm(w, t.world) ==> GetTargetedNode(Blank(w), node, name) == Blanked(t)
  {
    SpentCalm(w);
    SpentCalm(Spent(w));
  }

  lemma {:induction false} ListedCalm(w: World, nodes: seq<string>, name: string)
    ensures var t := TargetListed(w, nodes, name);
            Calm(w, t.world) ==> TargetListed(Blank(w), nodes, name) == Blanked(t)
    decreases |nodes|
  {
    if nodes != [] {
      TargetCalm(w, nodes[0], name);
      ListedCalm(GetTargetedNode(w, nodes[0], name).world, nodes[1..], name);
    }
  }

  lemma {:induction false} SelectedCalm(w: World, nodes: seq<string>, name: string)
    ensures var t := TargetSelected(w, nodes, name);
            Calm(w, t.world) ==> TargetSelected(Blank(w), nodes, name) == Blanked(t)
    decreases |nodes|
  {
    if nodes != [] {
      TargetCalm(w, nodes[0], name);
      SelectedCalm(GetTargetedNode(w, nodes[0], name).world, nodes[1..], name);
    }
  }

  lemma FindTargetedCalm(w: World, name: string, spec: Spec)
    ensures var t := FindTargetedNodes(w, name, spec);
            Calm(w, t.world) ==> FindTargetedNodes(Blank(w), name, spec) == Blanked(t)
  {
    if spec.nodeSelector == map[] {
      ListedCalm(w, spec.nodes, name);
    } else {
      SpentCalm(w);
      SpentCalm(Spent(w));
      if w.env.config.Some? {
        SelectedCalm(Spent(Spent(w)), MatchingNodes(w.env.nodes, Merge(w.env.config.value, spec.nodeSelector)), name);
      }
    }
  }

  lemma CheckCalm(w: World, name: string, spec: Spec, node: string)
    ensures var c := CheckRemoved(w, name, spec, node);
            Calm(w, c.world) ==> CheckRemoved(Blank(w), name, spec, node) == Blanked(c)
  {
    SpentCalm(w);
    SpentCalm(Spent(w));
    SpentCalm(Spent(Spent(w)));
    SpentCalm(Spent(Spent(Spent(w))));
  }

  lemma {:induction false} FindRemovedCalm(w: World, name: string, spec: Spec, registry: seq<string>)
    ensures var r := FindRemovedNodes(w, name, spec, registry);
            Calm(w, r.world) ==> FindRemovedNodes(Blank(w), name, spec, registry) == Blanked(r)
    decreases |registry|
  {
    if registry != [] {
      CheckCalm(w, name, spec, registry[0]);
      FindRemovedCalm(CheckRemoved(w, name, spec, registry[0]).world, name, spec, registry[1..]);
    }
  }

  /* ---- the pass ---- */

  lemma UpdateCalm(w: World, name: string, states: States, node: string, address: string, response: Response)
    ensures var s := UpdateRmdWorkloadStatus(w, name, states, node, address, response);
            && Later(w, s.world)
            && (Calm(w, s.world) ==>
                  UpdateRmdWorkloadStatus(Blank(w), name, states, node, address, response) == BlankedSync(s))
  {
    SpentCalm(w);
    var s := UpdateRmdWorkloadStatus(w, name, states, node, address, response);
    StoreCalm(GetWorkloads(w, address).world, name, s.states);
  }

  lemma SyncTargetCalm(w: World, name: string, spec: Spec, states: States, t: Target)
    ensures var s := SyncTarget(w, name, spec, states, t);
            && Later(w, s.world)
            && (Calm(w, s.world) ==> SyncTarget(Blank(w), name, spec, states, t) == BlankedSync(s))
  {
    if t.present {
      SendFormattedCalm(w, spec, t.address, false, "", StateOf(states, t.node).id);
    } else {
      SendFormattedCalm(w, spec, t.address, true, name, NoId);
    }
    var sent := if t.present then PatchWorkload(w, spec, t.address, StateOf(states, t.node).id)
                else PostWorkload(w, name, spec, t.address);
    if sent.result.Some? {
      UpdateCalm(sent.world, name, states, t.node, t.address, sent.result.value);
    }
  }

  lemma {:induction false} SyncTargetsCalm(w: World, name: string, spec: Spec, states: States, targets: seq<Target>)
    ensures var s := SyncTargets(w, name, spec, states, targets);
            && Later(w, s.world)
            && (Calm(w, s.world) ==> SyncTargets(Blank(w), name, spec, states, targets) == BlankedSync(s))
    decreases |targets|
  {
    if targets != [] {
      SyncTargetCalm(w, name, spec, states, targets[0]);
      var s := SyncTarget(w, name, spec, states, targets[0]);
      if s.ok {
        SyncTargetsCalm(s.world, name, spec, s.states, targets[1..]);
      }
    }
  }

  lemma {:induction false} RemoveCalm(w: World, name: string, states: States, removals: seq<Removal>)
    ensures var s := RemoveWorkload(w, name, states, removals);
            && Later(w, s.world)
            && (Calm(w, s.world) ==> RemoveWorkload(Blank(w), name, states, removals) == BlankedSync(s))
    decreases |removals|
  {
    if removals == [] {
      StoreCalm(w, name, states);
    } else {
      DeleteCalm(w, removals[0].address, removals[0].id);
      var (w', ok) := DeleteWorkload(w, removals[0].address, removals[0].id);
      if ok {
        RemoveCalm(w', name, states - {removals[0].node}, removals[1..]);
      }
    }
  }

  lemma PruneCalm(w: World, name: string, spec: Spec, states: States)
    ensures var p := Prune(w, name, spec, states);
            && Later(w, p.world)
            && (Calm(w, p.world) ==> Prune(Blank(w), name, spec, states) == BlankedPass(p))
  {
    FindRemovedCalm(w, name, spec, w.env.registry);
    var r := FindRemovedNodes(w, name, spec, w.env.registry);
    if r.result.Some? {
      RemoveCalm(r.world, name, states, r.result.value);
    }
  }

  lemma SyncCalm(w: World, name: string)
    requires name in w.objects
    ensures var p := Sync(w, name);
            Later(w, p.world) && (Calm(w, p.world) ==> Sync(Blank(w), name) == BlankedPass(p))
  {
    var spec, states := w.objects[name].spec, w.objects[name].states;
    FindTargetedCalm(w, name, spec);
    var t := FindTargetedNodes(w, name, spec);
    if t.result.Some? {
      SyncTargetsCalm(t.world, name, spec, states, t.result.value);
      var s := SyncTargets(t.world, name, spec, states, t.result.value);
      if s.ok {
        PruneCalm(s.world, name, spec, s.states);
      }
    }
  }

  /** A pass that meets no fault ends as it would have ended without any. */
  lemma PassCalm(w: World, name: string, order: seq<string>)
    requires name in w.objects && Calm(w, Reconcile(w, name, order).world)
    ensures PossibleOrder(Blank(w), name, order)
    ensures Reconcile(Blank(w), name, order) == BlankedPass(Reconcile(w, name, order))
  {
    SpentCalm(w);
    SyncCalm(Spent(w), name);
  }
}

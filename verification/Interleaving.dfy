/**
 Convergence while other things go on: passes for other objects, passes for the same object that meet
 faults, and changes of the cluster that neither touch the object nor the nodes it is aimed at, and
 make no node unwanted.
 */
module Interleaving {
  import opened Basics
  import opened RmdClient
  import opened RmdServer
  import opened Passes
  import opened Safety
  import opened CleanPass
  import opened Runs
  import opened Convergence
  import opened Undisturbed

  /* ---- steps that do not concern the object ---- */

  /** What a pass finds under the name is the same, on every instance there was. */
  ghost predicate SameFinds(rmd: map<string, Instance>, rmd': map<string, Instance>, name: string) {
    && (forall a :: a in rmd ==>
          && a in rmd' && rmd'[a].shareCpuLists == rmd[a].shareCpuLists
          && Find(rmd'[a], name) == Find(rmd[a], name)
          && (Holds(rmd'[a], name) <==> Holds(rmd[a], name)))
    && (forall a :: a in rmd' && a !in rmd ==> !Holds(rmd'[a], name))
  }

  /** The object is the same, it is aimed at the same nodes at the same addresses, and no node became unwanted. */
  ghost predicate SameFor(w: World, w': World, name: string) {
    && SameFinds(w.rmd, w'.rmd, name)
    && name in w.objects && name in w'.objects && w'.objects[name] == w.objects[name]
    && var spec := w.objects[name].spec;
       && (forall n :: Aimed(w', spec, n) <==> Aimed(w, spec, n))
       && (forall n :: n in w.env.addresses && n in w'.env.addresses && Aimed(w, spec, n) ==>
             w'.env.addresses[n] == w.env.addresses[n])
       && (forall n :: Unwanted(w', name, spec, n) ==> Unwanted(w, name, spec, n))
  }

  lemma SameForKeeps(w: World, w': World, name: string)
    requires SameFor(w, w', name)
    ensures Placed(w, name) ==> Placed(w', name)
    ensures Configured(w, name) ==> Configured(w', name)
  {
    var spec := w.objects[name].spec;
    if Placed(w, name) {
      forall n
        ensures !Unwanted(w', name, spec, n)
      {
        assert !Unwanted(w, name, spec, n);
      }
      SameKnown(w, w', name);
    }
  }

  lemma SameKnown(w: World, w': World, name: string)
    requires SameFor(w, w', name)
    ensures var spec, states := w.objects[name].spec, w.objects[name].states;
            && (Known(w, name, spec, states) ==> Known(w', name, spec, states))
            && (Known(w, name, spec, states) && ConfiguredFor(w, name, spec) ==> ConfiguredFor(w', name, spec))
  {
    assert forall n :: Aimed(w, w.objects[name].spec, n) ==> n in w.env.addresses;
  }

  lemma FrameSameFinds(w: World, w': World, name: string, passed: string)
    requires Frame(w, w', passed) && passed != name
    ensures SameFinds(w.rmd, w'.rmd, name)
  {
    FrameOthers(w, w', passed, name);
    assert forall a :: a in w.rmd ==> OnlyFor(w.rmd[a], w'.rmd[a], passed);
  }

  lemma SameInEnv(w: World, w': World, name: string)
    requires w'.env == w.env && SameFinds(w.rmd, w'.rmd, name)
    requires name in w.objects && name in w'.objects && w'.objects[name] == w.objects[name]
    ensures SameFor(w, w', name)
  {
  }

  /** A pass for another object is such a step, whatever fails in it. */
  lemma PassForAnother(home: map<string, string>, w: World, w': World, name: string, passed: string)
    requires Good(home, w) && PassOf(w, w', passed) && passed != name && name in w.objects
    ensures SameFor(w, w', name)
  {
    var order :| PassStep(w, w', passed, order);
    PassGood(home, w, passed, order);
    FrameSameFinds(w, w', name, passed);
    SameInEnv(w, w', name);
  }

  /**
   A change of the cluster that leaves this object and its nodes alone: other objects may be edited,
   created or deleted, other nodes relabelled, registered or taken out, other pods come and go.
   */
  ghost predicate Aside(home: map<string, string>, w: World, w': World, name: string) {
    EnvStep(home, w, w') && SameFor(w, w', name)
  }

  /** What makes it one: other nodes only join or leave, and one that joins has labels that pass or no workload. */
  lemma AsideWhen(home: map<string, string>, w: World, w': World, name: string)
    requires EnvStep(home, w, w') && name in w.objects && name in w'.objects && w'.objects[name] == w.objects[name]
    requires var spec := w.objects[name].spec;
             && (forall n :: Aimed(w', spec, n) <==> Aimed(w, spec, n))
             && Within(w.env.addresses, w'.env.addresses)
             && forall n :: n in w'.env.registry && Removable(w'.env, spec, n) ==>
                  || (n in w.env.registry && n in w.env.addresses && Removable(w.env, spec, n))
                  || (n in w'.env.addresses && w'.env.addresses[n] in w'.rmd ==>
                        !Holds(w'.rmd[w'.env.addresses[n]], name))
    ensures Aside(home, w, w', name)
  {
    var spec := w.objects[name].spec;
    forall n | Unwanted(w', name, spec, n)
      ensures Unwanted(w, name, spec, n)
    {
      assert w.env.addresses[n] == w'.env.addresses[n];
      assert w.env.addresses[n] in w.rmd;
    }
  }

  /* ---- passes for the object itself, with faults ---- */

  ghost predicate SteadyInstance(i: Instance, j: Instance, name: string) {
    WellFormed(i) && WellFormed(j) && (Holds(j, name) <==> Holds(i, name)) && Find(j, name).id == Find(i, name).id
  }

  /** No instance gained or lost the name, or another ID for it; and none changed if all was configured. */
  ghost predicate Steady(w: World, w': World, name: string, spec: Spec) {
    && w'.env == w.env && w'.rmd.Keys == w.rmd.Keys
    && (forall a :: a in w.rmd ==> SteadyInstance(w.rmd[a], w'.rmd[a], name))
    && (ConfiguredFor(w, name, spec) ==> w'.rmd == w.rmd)
    && name in w.objects && name in w'.objects && w'.objects[name].spec == w.objects[name].spec
  }

  lemma SteadyTransitive(u: World, v: World, w: World, name: string, spec: Spec)
    requires Steady(u, v, name, spec) && Steady(v, w, name, spec)
    ensures Steady(u, w, name, spec)
  {
    if ConfiguredFor(u, name, spec) {
      assert forall n :: Aimed(v, spec, n) <==> Aimed(u, spec, n);
      assert ConfiguredFor(v, name, spec);
    }
  }

  lemma SteadyKnown(w: World, w': World, name: string, spec: Spec, states: States)
    requires Steady(w, w', name, spec) && Known(w, name, spec, states)
    ensures Known(w', name, spec, states)
  {
    assert forall n :: Aimed(w', spec, n) <==> Aimed(w, spec, n);
  }

  lemma PatchedSteady(i: Instance, name: string, payload: Payload)
    requires WellFormed(i) && Holds(i, name)
    ensures SteadyInstance(i, Patch(i, Find(i, name).id, payload), name)
    ensures payload == Find(i, name).config ==> Patch(i, Find(i, name).id, payload) == i
  {
    PatchWellFormed(i, Find(i, name).id, payload);
    PatchHolds(i, Find(i, name).id, payload, name);
    FindPatched(i.entries, Find(i, name).id, payload, name);
    PatchIdentity(i, Find(i, name));
  }

  lemma OneSteady(w: World, w': World, name: string, spec: Spec, address: string, j: Instance)
    requires (forall a :: a in w.rmd ==> WellFormed(w.rmd[a])) && name in w.objects && address in w.rmd
    requires w'.env == w.env && w'.objects == w.objects && w'.rmd == w.rmd[address := j]
    requires SteadyInstance(w.rmd[address], j, name) && (ConfiguredFor(w, name, spec) ==> j == w.rmd[address])
    ensures Steady(w, w', name, spec)
  {
    assert w.rmd[address := w.rmd[address]] == w.rmd;
  }

  ghost predicate Targeted(w: World, name: string, spec: Spec, t: Target) {
    && t.present && t.node in w.env.addresses && w.env.addresses[t.node] == t.address
    && Aimed(w, spec, t.node)
  }

  /** A PATCH that may fail leaves its instance as it was, or patched. */
  lemma SendLeaves(w: World, address: string, payload: Payload, id: WorkloadId)
    requires address in w.rmd
    ensures var w' := Send(w, address, payload, false, "", id).world;
            && w'.env == w.env && w'.objects == w.objects
            && address in w'.rmd && w'.rmd == w.rmd[address := w'.rmd[address]]
            && (w'.rmd[address] == w.rmd[address] || w'.rmd[address] == Patch(w.rmd[address], id, payload))
  {
  }

  lemma PatchLeaves(w: World, spec: Spec, address: string, id: WorkloadId)
    requires address in w.rmd
    ensures var w', format := PatchWorkload(w, spec, address, id).world, FormatAt(spec, w.rmd[address]);
            && w'.env == w.env && w'.objects == w.objects
            && address in w'.rmd && w'.rmd == w.rmd[address := w'.rmd[address]]
            && (w'.rmd[address] == w.rmd[address]
                || (format.Formatted? && w'.rmd[address] == Patch(w.rmd[address], id, format.payload)))
  {
    var (w1, format) := FormatRequest(w, spec, address);
    if format.Formatted? {
      SendLeaves(w1, address, format.payload, id);
    }
  }

  lemma FaultySend(w: World, name: string, spec: Spec, states: States, t: Target)
    requires (forall a :: a in w.rmd ==> WellFormed(w.rmd[a])) && name in w.objects
    requires Known(w, name, spec, states) && Targeted(w, name, spec, t)
    ensures var sent := PatchWorkload(w, spec, t.address, StateOf(states, t.node).id);
            Steady(w, sent.world, name, spec) && sent.world.objects == w.objects
  {
    var i, id, format := w.rmd[t.address], StateOf(states, t.node).id, FormatAt(spec, w.rmd[t.address]);
    var w' := PatchWorkload(w, spec, t.address, id).world;
    PatchLeaves(w, spec, t.address, id);
    var j := w'.rmd[t.address];
    if j != i {
      PatchedSteady(i, name, format.payload);
    }
    OneSteady(w, w', name, spec, t.address, j);
  }

  lemma FaultyUpdate(w: World, name: string, spec: Spec, states: States, t: Target, response: Response)
    requires (forall a :: a in w.rmd ==> WellFormed(w.rmd[a])) && name in w.objects
    requires Known(w, name, spec, states) && Known(w, name, spec, w.objects[name].states) && Targeted(w, name, spec, t)
    ensures var s := UpdateRmdWorkloadStatus(w, name, states, t.node, t.address, response);
            && Steady(w, s.world, name, spec) && s.world.rmd == w.rmd
            && Known(s.world, name, spec, s.states) && Known(s.world, name, spec, s.world.objects[name].states)
  {
    var s := UpdateRmdWorkloadStatus(w, name, states, t.node, t.address, response);
    assert Known(w, name, spec, s.states);
    assert s.world.objects[name].states == s.states || s.world.objects[name] == w.objects[name];
    assert Steady(w, s.world, name, spec);
    SteadyKnown(w, s.world, name, spec, s.states);
    SteadyKnown(w, s.world, name, spec, w.objects[name].states);
  }

  lemma FaultySent(w: World, name: string, spec: Spec, states: States, t: Target)
    requires (forall a :: a in w.rmd ==> WellFormed(w.rmd[a])) && name in w.objects
    requires Known(w, name, spec, states) && Known(w, name, spec, w.objects[name].states) && Targeted(w, name, spec, t)
    ensures var w' := PatchWorkload(w, spec, t.address, StateOf(states, t.node).id).world;
            && Steady(w, w', name, spec) && w'.objects == w.objects
            && Known(w', name, spec, states) && Known(w', name, spec, w.objects[name].states)
  {
    FaultySend(w, name, spec, states, t);
    var w' := PatchWorkload(w, spec, t.address, StateOf(states, t.node).id).world;
    SteadyKnown(w, w', name, spec, states);
    SteadyKnown(w, w', name, spec, w.objects[name].states);
  }

  /** For a target that is there, the sync is a PATCH and what follows from its answer. */
  lemma PresentTarget(w: World, name: string, spec: Spec, states: States, t: Target)
    requires t.present
    ensures var sent := PatchWorkload(w, spec, t.address, StateOf(states, t.node).id);
            SyncTarget(w, name, spec, states, t) ==
            if sent.result.None? then Synced(sent.world, states, false)
            else UpdateRmdWorkloadStatus(sent.world, name, states, t.node, t.address, sent.result.value)
  {
  }

  lemma FaultyAnswered(w: World, w1: World, name: string, spec: Spec, states: States, t: Target, response: Response)
    requires Steady(w, w1, name, spec) && Known(w1, name, spec, states) && Targeted(w1, name, spec, t)
    requires Known(w1, name, spec, w1.objects[name].states)
    ensures var s := UpdateRmdWorkloadStatus(w1, name, states, t.node, t.address, response);
            && Steady(w, s.world, name, spec)
            && Known(s.world, name, spec, s.states) && Known(s.world, name, spec, s.world.objects[name].states)
  {
    FaultyUpdate(w1, name, spec, states, t, response);
    var s := UpdateRmdWorkloadStatus(w1, name, states, t.node, t.address, response);
    SteadyTransitive(w, w1, s.world, name, spec);
  }

  lemma FaultyTarget(w: World, name: string, spec: Spec, states: States, t: Target)
    requires (forall a :: a in w.rmd ==> WellFormed(w.rmd[a])) && name in w.objects
    requires Known(w, name, spec, states) && Known(w, name, spec, w.objects[name].states) && Targeted(w, name, spec, t)
    ensures var s := SyncTarget(w, name, spec, states, t);
            && Steady(w, s.world, name, spec)
            && Known(s.world, name, spec, s.states) && Known(s.world, name, spec, s.world.objects[name].states)
  {
    FaultySent(w, name, spec, states, t);
    PresentTarget(w, name, spec, states, t);
    var sent := PatchWorkload(w, spec, t.address, StateOf(states, t.node).id);
    if sent.result.Some? {
      FaultyAnswered(w, sent.world, name, spec, states, t, sent.result.value);
    }
  }

  lemma {:induction false} FaultyTargets(w: World, name: string, spec: Spec, states: States, targets: seq<Target>)
    requires (forall a :: a in w.rmd ==> WellFormed(w.rmd[a])) && name in w.objects
    requires Known(w, name, spec, states) && Known(w, name, spec, w.objects[name].states)
    requires forall t :: t in targets ==> Targeted(w, name, spec, t)
    ensures var s := SyncTargets(w, name, spec, states, targets);
            && Steady(w, s.world, name, spec)
            && Known(s.world, name, spec, s.states) && Known(s.world, name, spec, s.world.objects[name].states)
    decreases |targets|
  {
    if targets != [] {
      assert Targeted(w, name, spec, targets[0]);
      FaultyTarget(w, name, spec, states, targets[0]);
      var s := SyncTarget(w, name, spec, states, targets[0]);
      if s.ok {
        forall t | t in targets[1..]
          ensures Targeted(s.world, name, spec, t)
        {
          assert t in targets && Targeted(w, name, spec, t);
        }
        FaultyTargets(s.world, name, spec, s.states, targets[1..]);
        SteadyTransitive(w, s.world, SyncTargets(s.world, name, spec, s.states, targets[1..]).world, name, spec);
      }
    }
  }

  lemma NothingToRemove(w: World, name: string, spec: Spec)
    requires name != "" && forall n :: !Unwanted(w, name, spec, n)
    ensures var r := FindRemovedNodes(w, name, spec, w.env.registry).result; r.Some? ==> r.value == []
  {
    var r := FindRemovedNodes(w, name, spec, w.env.registry).result;
    RemovalsFound(w, name, spec, w.env.registry);
    if r.Some? && r.value != [] {
      assert r.value[0] in r.value && RemovalFound(w, name, spec, r.value[0]);
      assert Unwanted(w, name, spec, r.value[0].node);
    }
  }

  /** Where no node is unwanted, the final check deletes nothing. */
  lemma FaultyPrune(w: World, name: string, spec: Spec, states: States)
    requires (forall a :: a in w.rmd ==> WellFormed(w.rmd[a])) && name != "" && name in w.objects
    requires forall n :: !Unwanted(w, name, spec, n)
    ensures var p := Prune(w, name, spec, states);
            && Steady(w, p.world, name, spec) && p.world.rmd == w.rmd
            && (p.world.objects[name].states == states || p.world.objects == w.objects)
  {
    NothingToRemove(w, name, spec);
    var r := FindRemovedNodes(w, name, spec, w.env.registry);
    if r.result.Some? {
      assert RemoveWorkload(r.world, name, states, []).world == StoreStatus(r.world, name, states).0;
    }
  }

  lemma PlacedIgnoresTape(w: World, w1: World, name: string)
    requires OnlyRead(w, w1) && Placed(w, name)
    ensures Placed(w1, name)
            && (ConfiguredFor(w1, name, w.objects[name].spec) <==> ConfiguredFor(w, name, w.objects[name].spec))
  {
    var spec := w.objects[name].spec;
    assert forall n :: Aimed(w1, spec, n) <==> Aimed(w, spec, n);
    forall n
      ensures !Unwanted(w1, name, spec, n)
    {
      assert !Unwanted(w, name, spec, n);
    }
  }

  lemma FaultySync(home: map<string, string>, w: World, name: string)
    requires Good(home, w) && name != "" && Placed(w, name)
    ensures var p := Sync(w, name); Steady(w, p.world, name, w.objects[name].spec) && Placed(p.world, name)
  {
    var spec, states := w.objects[name].spec, w.objects[name].states;
    var t := FindTargetedNodes(w, name, spec);
    FindTargetedFound(w, name, spec);
    if t.result.Some? {
      forall u | u in t.result.value
        ensures Targeted(t.world, name, spec, u)
      {
        assert Aimed(w, spec, u.node);
      }
      PlacedIgnoresTape(w, t.world, name);
      FaultyTargets(t.world, name, spec, states, t.result.value);
      var s := SyncTargets(t.world, name, spec, states, t.result.value);
      FaultySyncEnds(w, t.world, s, name);
    } else {
      PlacedIgnoresTape(w, t.world, name);
    }
  }

  lemma FaultySyncEnds(w: World, w1: World, s: Synced, name: string)
    requires name != "" && Placed(w, name) && OnlyRead(w, w1) && Steady(w1, s.world, name, w.objects[name].spec)
    requires Known(s.world, name, w.objects[name].spec, s.states)
    requires Known(s.world, name, w.objects[name].spec, s.world.objects[name].states)
    ensures var spec := w.objects[name].spec;
            var p := if s.ok then Prune(s.world, name, spec, s.states) else Pass(s.world, false);
            Steady(w, p.world, name, spec) && Placed(p.world, name)
  {
    var spec := w.objects[name].spec;
    PlacedIgnoresTape(w, w1, name);
    assert Steady(w, s.world, name, spec);
    SteadyUnwanted(w, s.world, name, spec);
    if s.ok {
      FaultyPrune(s.world, name, spec, s.states);
      var p := Prune(s.world, name, spec, s.states);
      SteadyTransitive(w, s.world, p.world, name, spec);
      SteadyUnwanted(w, p.world, name, spec);
      SteadyKnown(s.world, p.world, name, spec, p.world.objects[name].states);
    }
  }

  lemma SteadyUnwanted(w: World, w': World, name: string, spec: Spec)
    requires Steady(w, w', name, spec) && forall n :: !Unwanted(w, name, spec, n)
    ensures forall n :: !Unwanted(w', name, spec, n)
  {
    forall n
      ensures !Unwanted(w', name, spec, n)
    {
      assert !Unwanted(w, name, spec, n);
    }
  }

  /**
   A pass for a placed object keeps it placed whatever fails in it; and where it has the wanted
   configuration the pass changes nothing on any instance.
   */
  lemma FaultyPassKeepsPlaced(home: map<string, string>, w: World, name: string, order: seq<string>)
    requires Good(home, w) && name != "" && PossibleOrder(w, name, order) && Placed(w, name)
    ensures var w' := Reconcile(w, name, order).world;
            && Placed(w', name)
            && (Configured(w, name) ==> w'.rmd == w.rmd && Configured(w', name))
  {
    var w1, spec := Spent(w), w.objects[name].spec;
    PlacedIgnoresTape(w, w1, name);
    if NextFault(w).NoFault? {
      FaultySync(home, w1, name);
    }
    var w' := Reconcile(w, name, order).world;
    assert w'.env == w.env;
    if Configured(w, name) {
      assert w'.rmd == w.rmd;
    }
  }

  /* ---- runs ---- */

  /** A step of the cluster aside, or a pass for any object, this one or another, with any faults. */
  ghost predicate QuietStep(home: map<string, string>, w: World, w': World, name: string) {
    Aside(home, w, w', name) || exists passed :: PassOf(w, w', passed)
  }

  /** What a workload needs to converge, and what every such step keeps. */
  ghost predicate Underway(home: map<string, string>, w: World, name: string) {
    Good(home, w) && name in w.objects && ListsOnce(w, name) && Single(w.rmd, name)
  }

  /** A step that keeps the workload where it is, and as it is once it is configured. */
  ghost predicate Harmless(w: World, w': World, name: string) {
    && (Placed(w, name) ==> Placed(w', name))
    && (Configured(w, name) ==> Configured(w', name) && SameFinds(w.rmd, w'.rmd, name))
  }

  lemma OwnPass(home: map<string, string>, w: World, w': World, name: string)
    requires Underway(home, w, name) && PassOf(w, w', name)
    ensures Underway(home, w', name) && Harmless(w, w', name)
  {
    var order :| PassStep(w, w', name, order);
    ListsOncePostsOnce(w, name);
    PassKeeps(home, w, name, order);
    if Placed(w, name) {
      FaultyPassKeepsPlaced(home, w, name, order);
    }
  }

  lemma AnothersPass(home: map<string, string>, w: World, w': World, name: string, passed: string)
    requires Underway(home, w, name) && PassOf(w, w', passed) && passed != name
    ensures Underway(home, w', name) && Harmless(w, w', name)
  {
    var order :| PassStep(w, w', passed, order);
    PassKeeps(home, w, passed, order);
    FrameOthers(w, w', passed, name);
    PassForAnother(home, w, w', name, passed);
    SameForKeeps(w, w', name);
  }

  lemma ChangeAside(home: map<string, string>, w: World, w': World, name: string)
    requires Underway(home, w, name) && Aside(home, w, w', name)
    ensures Underway(home, w', name) && Harmless(w, w', name)
  {
    EnvStepGood(home, w, w');
    SameForKeeps(w, w', name);
    SingleAside(w, w', name);
  }

  lemma SingleAside(w: World, w': World, name: string)
    requires Single(w.rmd, name) && forall a :: a in w.rmd ==> a in w'.rmd && w'.rmd[a] == w.rmd[a]
    requires forall a :: a in w'.rmd && a !in w.rmd ==> w'.rmd[a].entries == []
    ensures Single(w'.rmd, name)
  {
  }

  lemma QuietStepKeeps(home: map<string, string>, w: World, w': World, name: string)
    requires Underway(home, w, name) && QuietStep(home, w, w', name)
    ensures Underway(home, w', name) && Harmless(w, w', name)
  {
    if Aside(home, w, w', name) {
      ChangeAside(home, w, w', name);
    } else {
      var passed :| PassOf(w, w', passed);
      if passed == name {
        OwnPass(home, w, w', name);
      } else {
        AnothersPass(home, w, w', name, passed);
      }
    }
  }

  lemma HarmlessTransitive(u: World, v: World, w: World, name: string)
    requires Harmless(u, v, name) && Harmless(v, w, name)
    ensures Harmless(u, w, name)
  {
  }

  ghost predicate QuietAt(home: map<string, string>, ws: seq<World>, name: string, k: nat)
    requires 0 < k < |ws|
  {
    QuietStep(home, ws[k - 1], ws[k], name)
  }

  lemma {:induction false} QuietRun(home: map<string, string>, ws: seq<World>, name: string, k: nat, l: nat)
    requires k <= l < |ws| && Underway(home, ws[k], name)
    requires forall m :: k < m <= l ==> QuietAt(home, ws, name, m)
    ensures Underway(home, ws[l], name) && Harmless(ws[k], ws[l], name)
    decreases l
  {
    if k < l {
      QuietRun(home, ws, name, k, l - 1);
      assert QuietAt(home, ws, name, l);
      QuietStepKeeps(home, ws[l - 1], ws[l], name);
      HarmlessTransitive(ws[k], ws[l - 1], ws[l], name);
    }
  }

  /** A pass for this object that has all it needs and meets no fault, whatever faults are still to come. */
  ghost predicate CalmPass(w: World, w': World, name: string) {
    Ready(w, name) && PassOf(w, w', name) && Calm(w, w')
  }

  /** With an empty tape the state is as good as it was. */
  lemma BlankUnderway(home: map<string, string>, w: World, name: string)
    requires Underway(home, w, name) && Ready(w, name)
    ensures Underway(home, Blank(w), name) && Clean(Blank(w)) && Ready(Blank(w), name)
    ensures NoSpares(Blank(w), name)
    ensures Placed(w, name) ==> Placed(Blank(w), name)
  {
    SettledIgnoresTape(w, Blank(w), name);
    var spec := w.objects[name].spec;
    assert forall n :: Aimed(Blank(w), spec, n) <==> Aimed(w, spec, n);
  }

  lemma CalmPassPlaces(home: map<string, string>, w: World, w': World, name: string)
    requires Underway(home, w, name) && CalmPass(w, w', name)
    ensures Placed(w', name)
  {
    var order :| PassStep(w, w', name, order);
    PassCalm(w, name, order);
    BlankUnderway(home, w, name);
    OnePassPlaces(home, Blank(w), name, order);
    SettledIgnoresTape(Blank(w'), w', name);
  }

  lemma CalmPassConfigures(home: map<string, string>, w: World, w': World, name: string)
    requires Underway(home, w, name) && CalmPass(w, w', name) && Placed(w, name)
    ensures Configured(w', name)
  {
    var order :| PassStep(w, w', name, order);
    PassCalm(w, name, order);
    BlankUnderway(home, w, name);
    NextPassSettles(home, Blank(w), name, order);
    SettledIgnoresTape(Blank(w'), w', name);
  }

  /** How many of the first `l` steps of a run are such passes. */
  ghost function CalmCount(ws: seq<World>, name: string, l: nat): nat
    requires l < |ws|
  {
    if l == 0 then 0 else CalmCount(ws, name, l - 1) + if CalmPass(ws[l - 1], ws[l], name) then 1 else 0
  }

  /** What is true after that many. */
  ghost predicate Reached(home: map<string, string>, w: World, name: string, count: nat) {
    Underway(home, w, name) && (count >= 1 ==> Placed(w, name)) && (count >= 2 ==> Configured(w, name))
  }

  lemma NextStep(home: map<string, string>, w: World, w': World, name: string, count: nat)
    requires Reached(home, w, name, count) && QuietStep(home, w, w', name)
    ensures Reached(home, w', name, count + if CalmPass(w, w', name) then 1 else 0)
  {
    QuietStepKeeps(home, w, w', name);
    if CalmPass(w, w', name) {
      CalmPassPlaces(home, w, w', name);
      if count >= 1 {
        CalmPassConfigures(home, w, w', name);
      }
    }
  }

  /** The steps of a run, and how far it got before step `l`. */
  ghost predicate ReachedAt(home: map<string, string>, ws: seq<World>, name: string, l: nat)
    requires l < |ws|
  {
    Reached(home, ws[l], name, CalmCount(ws, name, l))
  }

  lemma ReachedNext(home: map<string, string>, ws: seq<World>, name: string, l: nat)
    requires 0 < l < |ws| && ReachedAt(home, ws, name, l - 1) && QuietAt(home, ws, name, l)
    ensures ReachedAt(home, ws, name, l)
  {
    NextStep(home, ws[l - 1], ws[l], name, CalmCount(ws, name, l - 1));
  }

  /**
   Convergence amid everything else: two passes for the object that have all they need and meet no fault
   are enough, wherever they come in a run of passes for any objects with any faults and of changes
   aside. From the first on the workload is placed, and from the second on it has the wanted
   configuration.
   */
  lemma {:induction false} ConvergesAmidOthers(home: map<string, string>, ws: seq<World>, name: string, l: nat)
    requires l < |ws| && Underway(home, ws[0], name)
    requires forall m :: 0 < m < |ws| ==> QuietAt(home, ws, name, m)
    ensures ReachedAt(home, ws, name, l)
    decreases l
  {
    if l > 0 {
      ConvergesAmidOthers(home, ws, name, l - 1);
      ReachedNext(home, ws, name, l);
    }
  }

  /** And what is found under its name, on any instance, never changes again. */
  lemma NeverChangesAgain(home: map<string, string>, ws: seq<World>, name: string, j: nat, l: nat)
    requires j <= l < |ws| && Underway(home, ws[0], name)
    requires forall m :: 0 < m < |ws| ==> QuietAt(home, ws, name, m)
    requires CalmCount(ws, name, j) >= 2
    ensures SameFinds(ws[j].rmd, ws[l].rmd, name)
  {
    ConvergesAmidOthers(home, ws, name, j);
    QuietRun(home, ws, name, j, l);
  }
}

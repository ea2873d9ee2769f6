/**
 What passes without faults achieve: the first puts the workload on every wanted node and removes one
 copy from every other registered one, the second gives each wanted node the wanted configuration, and
 once no unwanted node holds a copy nothing changes any more.
 */
module Convergence {
  import opened Basics
  import opened RmdClient
  import opened RmdServer
  import opened Passes
  import opened Safety
  import opened CleanPass
  import opened Runs

  /* ---- targeted and removable nodes ---- */

  lemma FindNodeUnique(nodes: seq<Node>, node: Node)
    requires DistinctNodes(nodes) && node in nodes
    ensures FindNode(nodes, node.name) == Some(node.labels)
  {
  }

  /** Merging keeps every entry of the workload's selector, so a node that matches the merged selector stays. */
  lemma TargetedNeverRemovable(env: Env, spec: Spec, node: string)
    requires DistinctNodes(env.nodes) && node in TargetedNames(env, spec)
    ensures !Removable(env, spec, node)
  {
  }

  /** With a selector, a node is removable exactly when it has labels and they fail the workload's selector. */
  lemma SelectorTrichotomy(env: Env, spec: Spec, node: Node)
    requires DistinctNodes(env.nodes) && node in env.nodes && env.config.Some? && spec.nodeSelector != map[]
    ensures node.name in TargetedNames(env, spec) <==> Matches(env.config.value + spec.nodeSelector, node.labels)
    ensures Removable(env, spec, node.name) <==> node.labels != map[] && !Matches(spec.nodeSelector, node.labels)
    ensures !(node.name in TargetedNames(env, spec) && Removable(env, spec, node.name))
  {
    FindNodeUnique(env.nodes, node);
    if node.name in TargetedNames(env, spec) {
      var found :| found in env.nodes && found.name == node.name
                   && Matches(Merge(env.config.value, spec.nodeSelector), found.labels);
      FindNodeUnique(env.nodes, found);
      TargetedNeverRemovable(env, spec, node.name);
    }
  }

  lemma TargetIsAimed(w: World, name: string, spec: Spec, t: Target)
    requires name != ""
    requires var targets := FindTargetedNodes(w, name, spec).result; targets.Some? && t in targets.value
    ensures t.node in TargetedNames(w.env, spec) && t.node in w.env.addresses && w.env.addresses[t.node] == t.address
  {
    FindTargetedFound(w, name, spec);
  }

  lemma RemovalIsRemovable(w: World, name: string, spec: Spec, r: Removal)
    requires name != ""
    requires var removals := FindRemovedNodes(w, name, spec, w.env.registry).result;
             removals.Some? && r in removals.value
    ensures Removable(w.env, spec, r.node) && r.node in w.env.addresses && w.env.addresses[r.node] == r.address
  {
    RemovalsFound(w, name, spec, w.env.registry);
    assert RemovalFound(w, name, spec, r);
  }

  /** In a pass with any faults, no node or address that was posted or patched is deleted at afterwards. */
  lemma NeverDeletesWhatItSent(w: World, w': World, name: string, spec: Spec, t: Target, r: Removal)
    requires DistinctNodes(w.env.nodes) && Injective(w.env.addresses)
    requires name != "" && w'.env == w.env
    requires var targets := FindTargetedNodes(w, name, spec).result; targets.Some? && t in targets.value
    requires var removals := FindRemovedNodes(w', name, spec, w'.env.registry).result;
             removals.Some? && r in removals.value
    ensures t.node != r.node && t.address != r.address
  {
    TargetIsAimed(w, name, spec, t);
    RemovalIsRemovable(w', name, spec, r);
    TargetedNeverRemovable(w.env, spec, t.node);
  }

  /* ---- the outcome of one clean pass ---- */

  /** No request of the pass concerns this address. */
  ghost predicate Spared(w: World, name: string, spec: Spec, address: string) {
    forall n :: n in w.env.addresses && (Aimed(w, spec, n) || Unwanted(w, name, spec, n)) ==>
        w.env.addresses[n] != address
  }

  ghost predicate InstancesAfter(w: World, w': World, name: string, spec: Spec, states: States) {
    && w'.env == w.env && w'.rmd.Keys == w.rmd.Keys
    && (forall n :: n in w.env.addresses && Aimed(w, spec, n) ==>
          var a := w.env.addresses[n];
          a in w.rmd && FormatAt(spec, w.rmd[a]).Formatted?
            && w'.rmd[a] == Served(w.rmd[a], name, spec, StateOf(states, n).id))
    && (forall n :: n in w.env.addresses && Unwanted(w, name, spec, n) ==>
          var a := w.env.addresses[n];
          w'.rmd[a] == Delete(w.rmd[a], Find(w.rmd[a], name).id))
    && (forall a :: a in w.rmd && Spared(w, name, spec, a) ==> w'.rmd[a] == w.rmd[a])
  }

  ghost predicate StatesAfter(w: World, states': States, name: string, spec: Spec, states: States) {
    && (forall n :: n in states' <==> (n in states || Aimed(w, spec, n)) && !Unwanted(w, name, spec, n))
    && (forall n :: n in w.env.addresses && Aimed(w, spec, n) ==>
          var a := w.env.addresses[n];
          a in w.rmd && FormatAt(spec, w.rmd[a]).Formatted? && n in states'
          && states'[n] == NewState(StateOf(states, n), w.rmd[a], name, spec))
    && (forall n :: n in states' && !Aimed(w, spec, n) ==> states'[n] == states[n])
  }

  ghost predicate CleanOutcome(w: World, p: Pass, name: string)
    requires name in w.objects
  {
    var spec, states := w.objects[name].spec, w.objects[name].states;
    && p.done && Clean(p.world)
    && InstancesAfter(w, p.world, name, spec, states)
    && name in p.world.objects && p.world.objects == w.objects[name := Workload(spec, p.world.objects[name].states)]
    && StatesAfter(w, p.world.objects[name].states, name, spec, states)
  }

  /** The unwanted nodes are the same before and after the targets are served. */
  lemma UnwantedStable(w: World, s: Synced, name: string, spec: Spec, states: States, targets: seq<Target>, n: string)
    requires Orderly(w, name) && spec == w.objects[name].spec
    requires TargetsAt(w, targets) && (forall m :: NodeAmong(targets, m) <==> Aimed(w, spec, m))
    requires RestUntouched(w, s, name, states, targets)
    ensures Unwanted(s.world, name, spec, n) <==> Unwanted(w, name, spec, n)
    ensures Unwanted(w, name, spec, n) ==> s.world.rmd[w.env.addresses[n]] == w.rmd[w.env.addresses[n]]
  {
    if n in w.env.addresses && Removable(w.env, spec, n) && AddressAmong(targets, w.env.addresses[n]) {
      var t :| t in targets && t.address == w.env.addresses[n];
      assert t.node == n && NodeAmong(targets, n);
      TargetedNeverRemovable(w.env, spec, n);
    }
  }

  ghost predicate Stages(w: World, s: Synced, p: Pass, name: string, targets: seq<Target>) {
    && Orderly(w, name) && Ready(w, name)
    && var spec, states := w.objects[name].spec, w.objects[name].states;
       && TargetsAt(w, targets) && (forall m :: NodeAmong(targets, m) <==> Aimed(w, spec, m))
       && TargetsReady(w, name, spec, targets) && SyncedCleanly(w, s, name, spec, states, targets)
       && Pruned(s.world, p, name, spec, s.states)
  }

  lemma StagesUnwanted(w: World, s: Synced, p: Pass, name: string, targets: seq<Target>)
    requires Stages(w, s, p, name, targets)
    ensures var spec := w.objects[name].spec;
            forall n ::
              && (Unwanted(s.world, name, spec, n) <==> Unwanted(w, name, spec, n))
              && (Unwanted(w, name, spec, n) ==> s.world.rmd[w.env.addresses[n]] == w.rmd[w.env.addresses[n]])
              && (Aimed(w, spec, n) ==> !Unwanted(w, name, spec, n))
  {
    var spec := w.objects[name].spec;
    forall n
      ensures Unwanted(s.world, name, spec, n) <==> Unwanted(w, name, spec, n)
      ensures Unwanted(w, name, spec, n) ==> s.world.rmd[w.env.addresses[n]] == w.rmd[w.env.addresses[n]]
      ensures Aimed(w, spec, n) ==> !Unwanted(w, name, spec, n)
    {
      UnwantedStable(w, s, name, spec, w.objects[name].states, targets, n);
      if Aimed(w, spec, n) {
        TargetedNeverRemovable(w.env, spec, n);
      }
    }
  }

  lemma StagesAimed(w: World, s: Synced, p: Pass, name: string, targets: seq<Target>, n: string)
    requires Stages(w, s, p, name, targets) && n in w.env.addresses && Aimed(w, w.objects[name].spec, n)
    ensures var spec, state := w.objects[name].spec, StateOf(w.objects[name].states, n);
            var a := w.env.addresses[n];
            && a in w.rmd && FormatAt(spec, w.rmd[a]).Formatted?
            && p.world.rmd[a] == Served(w.rmd[a], name, spec, state.id)
            && n in s.states && s.states[n] == NewState(state, w.rmd[a], name, spec)
  {
    var spec, states := w.objects[name].spec, w.objects[name].states;
    StagesUnwanted(w, s, p, name, targets);
    assert NodeAmong(targets, n);
    var t :| t in targets && t.node == n;
    assert TargetSynced(w.rmd, s, name, spec, states, t);
  }

  lemma StagesInstances(w: World, s: Synced, p: Pass, name: string, targets: seq<Target>)
    requires Stages(w, s, p, name, targets)
    ensures InstancesAfter(w, p.world, name, w.objects[name].spec, w.objects[name].states)
  {
    var spec := w.objects[name].spec;
    StagesUnwanted(w, s, p, name, targets);
    forall n | n in w.env.addresses && Aimed(w, spec, n)
      ensures var a := w.env.addresses[n];
              && a in w.rmd && FormatAt(spec, w.rmd[a]).Formatted?
              && p.world.rmd[a] == Served(w.rmd[a], name, spec, StateOf(w.objects[name].states, n).id)
    {
      StagesAimed(w, s, p, name, targets, n);
    }
    forall a | a in w.rmd && Spared(w, name, spec, a)
      ensures p.world.rmd[a] == w.rmd[a]
    {
      forall t | t in targets
        ensures t.address != a
      {
        assert NodeAmong(targets, t.node);
      }
    }
  }

  lemma StagesStates(w: World, s: Synced, p: Pass, name: string, targets: seq<Target>)
    requires Stages(w, s, p, name, targets)
    ensures StatesAfter(w, p.world.objects[name].states, name, w.objects[name].spec, w.objects[name].states)
  {
    StagesUnwanted(w, s, p, name, targets);
    forall n | n in w.env.addresses && Aimed(w, w.objects[name].spec, n)
      ensures var spec, a := w.objects[name].spec, w.env.addresses[n];
              && a in w.rmd && FormatAt(spec, w.rmd[a]).Formatted? && n in s.states
              && s.states[n] == NewState(StateOf(w.objects[name].states, n), w.rmd[a], name, spec)
    {
      StagesAimed(w, s, p, name, targets, n);
    }
  }

  lemma OutcomeFromStages(w: World, s: Synced, p: Pass, name: string, targets: seq<Target>)
    requires Stages(w, s, p, name, targets)
    ensures CleanOutcome(w, p, name)
  {
    StagesInstances(w, s, p, name, targets);
    StagesStates(w, s, p, name, targets);
    StagesObjects(w, s, p, name, targets);
  }

  lemma StagesObjects(w: World, s: Synced, p: Pass, name: string, targets: seq<Target>)
    requires Stages(w, s, p, name, targets)
    ensures name in p.world.objects
    ensures p.world.objects == w.objects[name := Workload(w.objects[name].spec, p.world.objects[name].states)]
  {
  }

  lemma SyncedIgnoresTape(w: World, w1: World, s: Synced, name: string, spec: Spec, states: States,
                          targets: seq<Target>)
    requires w1 == w.(faults := w1.faults) && TargetsReady(w1, name, spec, targets)
    requires SyncedCleanly(w1, s, name, spec, states, targets)
    ensures TargetsReady(w, name, spec, targets) && SyncedCleanly(w, s, name, spec, states, targets)
  {
  }

  lemma CleanStages(w: World, name: string)
    requires Orderly(w, name) && Clean(w) && Ready(w, name)
    ensures var spec := w.objects[name].spec;
            var t := FindTargetedNodes(w, name, spec);
            && t.result.Some?
            && var s := SyncTargets(t.world, name, spec, w.objects[name].states, t.result.value);
               s.ok && Stages(w, s, Prune(s.world, name, spec, s.states), name, t.result.value)
  {
    var spec, states := w.objects[name].spec, w.objects[name].states;
    CleanFindTargeted(w, name);
    var t := FindTargetedNodes(w, name, spec);
    var targets := t.result.value;
    assert TargetsReady(t.world, name, spec, targets);
    CleanSyncTargets(t.world, name, spec, states, targets);
    var s := SyncTargets(t.world, name, spec, states, targets);
    SyncedIgnoresTape(w, t.world, s, name, spec, states, targets);
    CleanPrune(s.world, name, spec, s.states);
  }

  lemma CleanSync(w: World, name: string)
    requires Orderly(w, name) && Clean(w) && Ready(w, name)
    ensures CleanOutcome(w, Sync(w, name), name)
  {
    CleanStages(w, name);
    var spec := w.objects[name].spec;
    var t := FindTargetedNodes(w, name, spec);
    var s := SyncTargets(t.world, name, spec, w.objects[name].states, t.result.value);
    OutcomeFromStages(w, s, Prune(s.world, name, spec, s.states), name, t.result.value);
  }

  lemma CleanPassOutcome(w: World, name: string, order: seq<string>)
    requires Orderly(w, name) && Clean(w) && Ready(w, name) && PossibleOrder(w, name, order)
    ensures CleanOutcome(w, Reconcile(w, name, order), name)
  {
    var w1 := Spent(w);
    assert Orderly(w1, name) && Ready(w1, name);
    CleanSync(w1, name);
    assert CleanOutcome(w1, Sync(w1, name), name);
    OutcomeIgnoresTape(w, w1, Sync(w1, name), name);
  }

  lemma OutcomeIgnoresTape(w: World, w1: World, p: Pass, name: string)
    requires name in w.objects && w1 == w.(faults := w1.faults) && CleanOutcome(w1, p, name)
    ensures CleanOutcome(w, p, name)
  {
    var spec := w.objects[name].spec;
    assert forall n :: Aimed(w1, spec, n) <==> Aimed(w, spec, n);
    assert forall n :: Unwanted(w1, name, spec, n) <==> Unwanted(w, name, spec, n);
    assert forall a :: Spared(w1, name, spec, a) <==> Spared(w, name, spec, a);
  }

  /**
   The PATCH of a clean pass goes to whatever has the ID that the status remembers. Here nothing is
   asked of that ID: that it can only be the object's own is what Runs.StoredIdsAreOwn adds.
   */
  lemma PatchHitsRemembered(w: World, name: string, order: seq<string>, node: string, e: Entry)
    requires Orderly(w, name) && Clean(w) && Ready(w, name) && PossibleOrder(w, name, order)
    requires node in w.env.addresses && Aimed(w, w.objects[name].spec, node)
    requires var i := w.rmd[w.env.addresses[node]];
             Holds(i, name) && e in i.entries && e.id == StateOf(w.objects[name].states, node).id
    ensures var spec, a, rmd' := w.objects[name].spec, w.env.addresses[node], Reconcile(w, name, order).world.rmd;
            a in rmd' && e.(config := FormatAt(spec, w.rmd[a]).payload) in rmd'[a].entries
  {
    AimedServed(w, name, order, node);
    PatchHits(w.rmd[w.env.addresses[node]], FormatAt(w.objects[name].spec, w.rmd[w.env.addresses[node]]).payload, e);
  }

  lemma AimedServed(w: World, name: string, order: seq<string>, node: string)
    requires Orderly(w, name) && Clean(w) && Ready(w, name) && PossibleOrder(w, name, order)
    requires node in w.env.addresses && Aimed(w, w.objects[name].spec, node)
    ensures var spec, a, rmd' := w.objects[name].spec, w.env.addresses[node], Reconcile(w, name, order).world.rmd;
            && a in rmd' && FormatAt(spec, w.rmd[a]).Formatted?
            && rmd'[a] == Served(w.rmd[a], name, spec, StateOf(w.objects[name].states, node).id)
  {
    CleanPassOutcome(w, name, order);
  }

  lemma PatchHits(i: Instance, payload: Payload, e: Entry)
    requires e in i.entries
    ensures e.(config := payload) in Patch(i, e.id, payload).entries
  {
    var k :| 0 <= k < |i.entries| && i.entries[k] == e;
    assert Patch(i, e.id, payload).entries[k] == e.(config := payload);
  }

  /* ---- placed, settled ---- */

  /** The workload runs on every node it is aimed at, under the ID that these states remember. */
  ghost predicate Known(w: World, name: string, spec: Spec, states: States) {
    forall n :: n in w.env.addresses && Aimed(w, spec, n) ==>
      var a := w.env.addresses[n];
      && a in w.rmd && Holds(w.rmd[a], name)
      && n in states && states[n].id.Id? && states[n].id == Find(w.rmd[a], name).id
  }

  /** It runs on every node it is aimed at, under the ID its status remembers, and on no unwanted one. */
  ghost predicate Placed(w: World, name: string) {
    && name in w.objects
    && Known(w, name, w.objects[name].spec, w.objects[name].states)
    && forall n :: !Unwanted(w, name, w.objects[name].spec, n)
  }

  /** Wherever it is aimed at, it has the configuration this spec asks for. */
  ghost predicate ConfiguredFor(w: World, name: string, spec: Spec) {
    forall n :: n in w.env.addresses && Aimed(w, spec, n) ==>
      var a := w.env.addresses[n];
      a in w.rmd && FormatAt(spec, w.rmd[a]) == Formatted(Find(w.rmd[a], name).config)
  }

  /** Placed, and with the wanted configuration. */
  ghost predicate Configured(w: World, name: string) {
    Placed(w, name) && ConfiguredFor(w, name, w.objects[name].spec)
  }

  /** Moreover its status says what a repeated pass would say. */
  ghost predicate Settled(w: World, name: string) {
    && Configured(w, name)
    && var spec, states := w.objects[name].spec, w.objects[name].states;
       forall n :: n in w.env.addresses && Aimed(w, spec, n) ==>
         n in states
         && states[n] == Refreshed(states[n].(response := Success(200)), Find(w.rmd[w.env.addresses[n]], name))
  }

  /** What an aimed node holds after its request. */
  lemma ServedFound(i: Instance, name: string, spec: Spec, id: WorkloadId)
    requires WellFormed(i) && FormatAt(spec, i).Formatted?
    ensures Holds(Served(i, name, spec, id), name) && Find(Served(i, name, spec, id), name).id.Id?
    ensures Find(Served(i, name, spec, id), name).config == FormatAt(spec, i).payload <==>
              !Holds(i, name) || Find(i, name).id == id || Find(i, name).config == FormatAt(spec, i).payload
    ensures Holds(i, name) ==> Find(Served(i, name, spec, id), name).id == Find(i, name).id
  {
    AnsweredHolds(i, Holds(i, name), name, id, FormatAt(spec, i).payload);
    if Holds(i, name) {
      FindPatched(i.entries, id, FormatAt(spec, i).payload, name);
    } else {
      FindPosted(i.entries, Entry(Id(|i.issued|), name, FormatAt(spec, i).payload));
    }
  }

  /** The assumptions of a pass still hold after it: it changes no spec and no host. */
  lemma StillReady(w: World, w': World, name: string, passed: string)
    requires Ready(w, name) && Frame(w, w', passed)
    ensures Ready(w', name)
  {
    var spec := w.objects[name].spec;
    forall n | n in w.env.addresses && Aimed(w', spec, n)
      ensures FormatAt(spec, w'.rmd[w.env.addresses[n]]).Formatted?
    {
      assert Aimed(w, spec, n) && OnlyFor(w.rmd[w.env.addresses[n]], w'.rmd[w.env.addresses[n]], passed);
    }
  }

  lemma GoodIsOrderly(home: map<string, string>, w: World, name: string)
    requires Good(home, w) && name in w.objects && ListsOnce(w, name)
    ensures Orderly(w, name)
  {
  }

  /** No unwanted node holds a second copy of the workload. */
  ghost predicate NoSpares(w: World, name: string) {
    && name in w.objects
    && forall n :: Unwanted(w, name, w.objects[name].spec, n) ==> Copies(w.rmd[w.env.addresses[n]].entries, name) <= 1
  }

  lemma OutcomePresent(w: World, p: Pass, name: string, n: string)
    requires Orderly(w, name) && Ready(w, name) && CleanOutcome(w, p, name)
    requires n in w.env.addresses && Aimed(w, w.objects[name].spec, n)
    ensures var a := w.env.addresses[n];
            && a in p.world.rmd && Holds(p.world.rmd[a], name)
            && p.world.objects[name].states[n].id.Id?
            && p.world.objects[name].states[n].id == Find(p.world.rmd[a], name).id
  {
    var spec, states := w.objects[name].spec, w.objects[name].states;
    ServedFound(w.rmd[w.env.addresses[n]], name, spec, StateOf(states, n).id);
  }

  lemma OutcomeKnown(w: World, p: Pass, name: string)
    requires Orderly(w, name) && Ready(w, name) && CleanOutcome(w, p, name)
    ensures Known(p.world, name, w.objects[name].spec, p.world.objects[name].states)
  {
    var spec := w.objects[name].spec;
    forall n | n in w.env.addresses && Aimed(w, spec, n)
      ensures var a := w.env.addresses[n];
              && a in p.world.rmd && Holds(p.world.rmd[a], name)
              && p.world.objects[name].states[n].id.Id?
              && p.world.objects[name].states[n].id == Find(p.world.rmd[a], name).id
    {
      OutcomePresent(w, p, name, n);
    }
  }

  lemma OutcomePlaced(w: World, p: Pass, name: string)
    requires Orderly(w, name) && Ready(w, name) && CleanOutcome(w, p, name)
    ensures Placed(p.world, name) <==> NoSpares(w, name)
  {
    OutcomeKnown(w, p, name);
    forall n
      ensures Unwanted(p.world, name, w.objects[name].spec, n) <==>
                && Unwanted(w, name, w.objects[name].spec, n)
                && Copies(w.rmd[w.env.addresses[n]].entries, name) > 1
    {
      OutcomeUnwanted(w, p, name, n);
    }
  }

  /** The pass deletes one copy at each unwanted node, so the node stays unwanted when there was a second. */
  lemma OutcomeUnwanted(w: World, p: Pass, name: string, n: string)
    requires Orderly(w, name) && Ready(w, name) && CleanOutcome(w, p, name)
    ensures var spec := w.objects[name].spec;
            && (Unwanted(w, name, spec, n) ==>
                  var a := w.env.addresses[n];
                  a in p.world.rmd && Copies(p.world.rmd[a].entries, name) == Copies(w.rmd[a].entries, name) - 1)
            && (Unwanted(p.world, name, spec, n) <==>
                  Unwanted(w, name, spec, n) && Copies(w.rmd[w.env.addresses[n]].entries, name) > 1)
  {
    var spec := w.objects[name].spec;
    if Unwanted(w, name, spec, n) {
      DeleteFound(w.rmd[w.env.addresses[n]], name);
    } else if n in w.env.registry && n in w.env.addresses && Removable(w.env, spec, n) {
      if Aimed(w, spec, n) {
        TargetedNeverRemovable(w.env, spec, n);
      }
      LeftAlone(w, name, spec, n);
    }
  }

  /** An address that only a node left alone has is left alone. */
  lemma LeftAlone(w: World, name: string, spec: Spec, node: string)
    requires Injective(w.env.addresses) && node in w.env.addresses
    requires !Aimed(w, spec, node) && !Unwanted(w, name, spec, node)
    ensures Spared(w, name, spec, w.env.addresses[node])
  {
  }

  lemma OutcomeSettled(w: World, p: Pass, name: string)
    requires Orderly(w, name) && Ready(w, name) && CleanOutcome(w, p, name) && Placed(w, name)
    requires forall a :: a in w.rmd ==> a in p.world.rmd && p.world.rmd[a].shareCpuLists == w.rmd[a].shareCpuLists
    ensures Settled(p.world, name)
  {
    OutcomePlaced(w, p, name);
    assert NoSpares(w, name);
    var spec, states := w.objects[name].spec, w.objects[name].states;
    forall n | n in w.env.addresses && Aimed(w, spec, n)
      ensures var live := Find(p.world.rmd[w.env.addresses[n]], name);
              && FormatAt(spec, p.world.rmd[w.env.addresses[n]]) == Formatted(live.config)
              && p.world.objects[name].states[n] ==
                   Refreshed(p.world.objects[name].states[n].(response := Success(200)), live)
    {
      var i := w.rmd[w.env.addresses[n]];
      ServedFound(i, name, spec, states[n].id);
      assert Find(i, name) in i.entries && Live(i, states[n].id);
    }
  }

  lemma OutcomeFixed(w: World, p: Pass, name: string)
    requires Orderly(w, name) && Ready(w, name) && CleanOutcome(w, p, name) && Settled(w, name)
    ensures p.world.rmd == w.rmd && p.world.objects == w.objects
  {
    var spec, states := w.objects[name].spec, w.objects[name].states;
    forall n | n in w.env.addresses && Aimed(w, spec, n)
      ensures p.world.rmd[w.env.addresses[n]] == w.rmd[w.env.addresses[n]]
              && p.world.objects[name].states[n] == states[n]
    {
      var i := w.rmd[w.env.addresses[n]];
      assert Find(i, name) in i.entries && Live(i, states[n].id);
      PatchIdentity(i, Find(i, name));
      assert Served(i, name, spec, states[n].id) == i;
    }
    forall a | a in w.rmd
      ensures p.world.rmd[a] == w.rmd[a]
    {
      if !Spared(w, name, spec, a) {
        var n :| n in w.env.addresses && (Aimed(w, spec, n) || Unwanted(w, name, spec, n)) && w.env.addresses[n] == a;
        assert Aimed(w, spec, n);
      }
    }
    assert p.world.objects[name].states == states;
    assert w.objects == w.objects[name := Workload(spec, states)];
  }

  /* ---- the theorems ---- */

  /**
   From any state the system can be in, one clean pass places the workload if and only if no unwanted
   node held a second copy of it.
   */
  lemma OnePassPlaces(home: map<string, string>, w: World, name: string, order: seq<string>)
    requires Good(home, w) && Clean(w) && Ready(w, name) && ListsOnce(w, name) && PossibleOrder(w, name, order)
    ensures var p := Reconcile(w, name, order);
            && p.done && Clean(p.world) && Good(home, p.world) && Ready(p.world, name) && ListsOnce(p.world, name)
            && Frame(w, p.world, name) && CleanOutcome(w, p, name)
            && (Placed(p.world, name) <==> NoSpares(w, name))
  {
    GoodIsOrderly(home, w, name);
    CleanPassOutcome(w, name, order);
    PassGood(home, w, name, order);
    StillReady(w, Reconcile(w, name, order).world, name, name);
    OutcomePlaced(w, Reconcile(w, name, order), name);
  }

  /**
   Where the workload runs after one clean pass: on the nodes it is aimed at, and wherever it ran
   before, unless that node is registered and no longer wanted and held a single copy. A node that left
   the registry keeps it.
   */
  lemma OnePassExactly(home: map<string, string>, w: World, name: string, order: seq<string>, node: string)
    requires Good(home, w) && Clean(w) && Ready(w, name) && ListsOnce(w, name) && PossibleOrder(w, name, order)
    requires node in w.env.addresses
    ensures var a, spec, rmd' := w.env.addresses[node], w.objects[name].spec, Reconcile(w, name, order).world.rmd;
            var removed := node in w.env.registry && Removable(w.env, spec, node);
            a in rmd' && (Holds(rmd'[a], name) <==>
                            Aimed(w, spec, node) || Copies(w.rmd[a].entries, name) > if removed then 1 else 0)
  {
    OnePassPlaces(home, w, name, order);
    GoodIsOrderly(home, w, name);
    var spec, a, p := w.objects[name].spec, w.env.addresses[node], Reconcile(w, name, order);
    NoCopies(w.rmd[a].entries, name);
    if Aimed(w, spec, node) {
      OutcomePresent(w, p, name, node);
    } else if Unwanted(w, name, spec, node) {
      OutcomeUnwanted(w, p, name, node);
    } else {
      LeftAlone(w, name, spec, node);
    }
  }

  /**
   Why one pass may not be enough: it gives a node the wanted configuration exactly when the workload
   was not there, or the status remembered its ID, or it was configured so already.
   */
  lemma OnePassConfiguresExactly(home: map<string, string>, w: World, name: string, order: seq<string>, node: string)
    requires Good(home, w) && Clean(w) && Ready(w, name) && ListsOnce(w, name) && PossibleOrder(w, name, order)
    requires node in w.env.addresses && Aimed(w, w.objects[name].spec, node)
    ensures var a, spec, rmd' := w.env.addresses[node], w.objects[name].spec, Reconcile(w, name, order).world.rmd;
            a in rmd' && var i, i' := w.rmd[a], rmd'[a];
            Formatted(Find(i', name).config) == FormatAt(spec, i') <==>
              || !Holds(i, name)
              || Find(i, name).id == StateOf(w.objects[name].states, node).id
              || Formatted(Find(i, name).config) == FormatAt(spec, i)
  {
    OnePassPlaces(home, w, name, order);
    var a, spec := w.env.addresses[node], w.objects[name].spec;
    ServedFound(w.rmd[a], name, spec, StateOf(w.objects[name].states, node).id);
    assert OnlyFor(w.rmd[a], Reconcile(w, name, order).world.rmd[a], name);
  }

  /** A clean pass over a placed workload settles it. */
  lemma NextPassSettles(home: map<string, string>, w: World, name: string, order: seq<string>)
    requires Good(home, w) && Clean(w) && Ready(w, name) && ListsOnce(w, name) && PossibleOrder(w, name, order)
             && Placed(w, name)
    ensures Settled(Reconcile(w, name, order).world, name)
  {
    GoodIsOrderly(home, w, name);
    OnePassPlaces(home, w, name, order);
    var p := Reconcile(w, name, order);
    forall a | a in w.rmd
      ensures p.world.rmd[a].shareCpuLists == w.rmd[a].shareCpuLists
    {
      assert OnlyFor(w.rmd[a], p.world.rmd[a], name);
    }
    OutcomeSettled(w, p, name);
  }

  /** `w'` differs from `w` in what is left of the tape at most. */
  ghost predicate SameState(w: World, w': World) {
    w'.env == w.env && w'.rmd == w.rmd && w'.objects == w.objects
  }

  lemma SettledIgnoresTape(w: World, w': World, name: string)
    requires SameState(w, w')
    ensures Placed(w', name) <==> Placed(w, name)
    ensures Configured(w', name) <==> Configured(w, name)
    ensures Settled(w', name) <==> Settled(w, name)
  {
    if name in w.objects {
      var spec := w.objects[name].spec;
      assert forall n :: Aimed(w', spec, n) <==> Aimed(w, spec, n);
      assert forall n :: Unwanted(w', name, spec, n) <==> Unwanted(w, name, spec, n);
    }
  }

  lemma SettledIsFixed(home: map<string, string>, w: World, name: string, order: seq<string>)
    requires Good(home, w) && Clean(w) && Ready(w, name) && ListsOnce(w, name) && PossibleOrder(w, name, order)
             && Settled(w, name)
    ensures SameState(w, Reconcile(w, name, order).world)
  {
    GoodIsOrderly(home, w, name);
    OnePassPlaces(home, w, name, order);
    OutcomeFixed(w, Reconcile(w, name, order), name);
  }

  lemma FixedIsSettled(home: map<string, string>, w: World, name: string, order: seq<string>)
    requires Good(home, w) && Clean(w) && Ready(w, name) && ListsOnce(w, name) && PossibleOrder(w, name, order)
    requires SameState(w, Reconcile(w, name, order).world)
    ensures Settled(w, name)
  {
    OnePassPlaces(home, w, name, order);
    GoodIsOrderly(home, w, name);
    var p := Reconcile(w, name, order);
    if n :| Unwanted(w, name, w.objects[name].spec, n) {
      OutcomeUnwanted(w, p, name, n);
      assert false;
    }
    SettledIgnoresTape(w, p.world, name);
    NextPassSettles(home, w, name, order);
  }

  /** A clean pass changes nothing, on any instance and in any status, exactly when the workload is settled. */
  lemma FixpointIffSettled(home: map<string, string>, w: World, name: string, order: seq<string>)
    requires Good(home, w) && Clean(w) && Ready(w, name) && ListsOnce(w, name) && PossibleOrder(w, name, order)
    ensures SameState(w, Reconcile(w, name, order).world) <==> Settled(w, name)
  {
    if Settled(w, name) {
      SettledIsFixed(home, w, name, order);
    }
    if SameState(w, Reconcile(w, name, order).world) {
      FixedIsSettled(home, w, name, order);
    }
  }

  /** For a list of nodes, a placed workload runs on a registered node exactly when that node is listed. */
  lemma PlacedOnListed(w: World, name: string, node: string)
    requires Ready(w, name) && Placed(w, name) && w.objects[name].spec.nodeSelector == map[]
    requires node in w.env.registry
    ensures Holds(w.rmd[w.env.addresses[node]], name) <==> node in w.objects[name].spec.nodes
  {
    assert Aimed(w, w.objects[name].spec, node) <==> node in w.objects[name].spec.nodes;
    assert !Unwanted(w, name, w.objects[name].spec, node);
  }

  /** For a selector, it runs on every node that matches and on no registered node with other labels. */
  lemma PlacedOnSelected(w: World, name: string, node: Node)
    requires Ready(w, name) && Placed(w, name) && w.objects[name].spec.nodeSelector != map[]
    requires DistinctNodes(w.env.nodes) && node in w.env.nodes
    ensures Matches(w.env.config.value + w.objects[name].spec.nodeSelector, node.labels) ==>
              node.name in w.env.addresses && Holds(w.rmd[w.env.addresses[node.name]], name)
    ensures node.name in w.env.registry && node.labels != map[]
            && !Matches(w.objects[name].spec.nodeSelector, node.labels) ==>
              !Holds(w.rmd[w.env.addresses[node.name]], name)
  {
    SelectorTrichotomy(w.env, w.objects[name].spec, node);
    assert Aimed(w, w.objects[name].spec, node.name) <==> node.name in TargetedNames(w.env, w.objects[name].spec);
    assert !Unwanted(w, name, w.objects[name].spec, node.name);
  }

  /** Every clean pass leaves the status with the IDs of the nodes it is aimed at. */
  lemma OnePassKnows(home: map<string, string>, w: World, name: string, order: seq<string>)
    requires Good(home, w) && Clean(w) && Ready(w, name) && ListsOnce(w, name) && PossibleOrder(w, name, order)
    ensures var w' := Reconcile(w, name, order).world;
            name in w'.objects && Known(w', name, w.objects[name].spec, w'.objects[name].states)
  {
    OnePassPlaces(home, w, name, order);
    GoodIsOrderly(home, w, name);
    OutcomeKnown(w, Reconcile(w, name, order), name);
  }

  /**
   The response a clean pass leaves for a node it is aimed at: 201 where the workload was not, 200 where
   the remembered ID was live, and a failure where it was not.
   */
  lemma OnePassResponds(home: map<string, string>, w: World, name: string, order: seq<string>, node: string)
    requires Good(home, w) && Clean(w) && Ready(w, name) && ListsOnce(w, name) && PossibleOrder(w, name, order)
    requires node in w.env.addresses && Aimed(w, w.objects[name].spec, node)
    ensures var i, states := w.rmd[w.env.addresses[node]], w.objects[name].states;
            var objects' := Reconcile(w, name, order).world.objects;
            && name in objects' && node in objects'[name].states
            && objects'[name].states[node].response == ExpectedResponse(i, name, states, node)
  {
    OnePassPlaces(home, w, name, order);
    AnswerExpected(w.rmd[w.env.addresses[node]], name, w.objects[name].states, node);
  }

  ghost function ExpectedResponse(i: Instance, name: string, states: States, node: string): Response {
    if forall e :: e in i.entries ==> e.uuid != name then Success(201)
    else if node in states && exists e :: e in i.entries && e.id == states[node].id then Success(200)
    else Failure
  }

  lemma AnswerExpected(i: Instance, name: string, states: States, node: string)
    requires WellFormed(i)
    ensures Answer(i, Holds(i, name), StateOf(states, node).id) == ExpectedResponse(i, name, states, node)
  {
    assert forall e :: e in i.entries ==> EntryOk(i, e);
  }

  /** And with these the next clean pass configures all of them, however many copies there are elsewhere. */
  lemma KnownIsConfigured(home: map<string, string>, w: World, name: string, order: seq<string>)
    requires Good(home, w) && Clean(w) && Ready(w, name) && ListsOnce(w, name) && PossibleOrder(w, name, order)
    requires Known(w, name, w.objects[name].spec, w.objects[name].states)
    ensures ConfiguredFor(Reconcile(w, name, order).world, name, w.objects[name].spec)
  {
    OnePassPlaces(home, w, name, order);
    var spec, w' := w.objects[name].spec, Reconcile(w, name, order).world;
    forall n | n in w'.env.addresses && Aimed(w', spec, n)
      ensures var a := w.env.addresses[n];
              a in w'.rmd && FormatAt(spec, w'.rmd[a]) == Formatted(Find(w'.rmd[a], name).config)
    {
      assert Aimed(w, spec, n);
      OnePassConfiguresExactly(home, w, name, order, n);
    }
  }

  /**
   From any state of any run, whatever failed before: after two passes without faults the workload has
   the wanted configuration on every node it is aimed at. The first of them places it if no unwanted
   node held a second copy, and only then; in that case the second settles it, and from then on no pass
   changes anything.
   */
  lemma TwoPassesConverge(home: map<string, string>, ws: seq<World>, k: nat, name: string,
                          first: seq<string>, second: seq<string>, third: seq<string>)
    requires Run(home, ws) && k < |ws| && Clean(ws[k]) && Ready(ws[k], name) && ListsOnce(ws[k], name)
    requires PossibleOrder(ws[k], name, first)
    ensures var p1 := Reconcile(ws[k], name, first);
            && p1.done && (Placed(p1.world, name) <==> NoSpares(ws[k], name))
            && PossibleOrder(p1.world, name, second)
            && var p2 := Reconcile(p1.world, name, second);
               && p2.done && name in p2.world.objects && ConfiguredFor(p2.world, name, ws[k].objects[name].spec)
               && Known(p2.world, name, ws[k].objects[name].spec, p2.world.objects[name].states)
               && (NoSpares(ws[k], name) ==>
                     && Settled(p2.world, name) && PossibleOrder(p2.world, name, third)
                     && var p3 := Reconcile(p2.world, name, third);
                        p3.done && SameState(p2.world, p3.world))
  {
    RunGood(home, ws, k);
    OnePassPlaces(home, ws[k], name, first);
    OnePassKnows(home, ws[k], name, first);
    var w1 := Reconcile(ws[k], name, first).world;
    OnePassPlaces(home, w1, name, second);
    OnePassKnows(home, w1, name, second);
    KnownIsConfigured(home, w1, name, second);
    if NoSpares(ws[k], name) {
      SettledFromPlaced(home, w1, name, second, third);
    }
  }

  lemma SettledFromPlaced(home: map<string, string>, w: World, name: string, order: seq<string>, next: seq<string>)
    requires Good(home, w) && Clean(w) && Ready(w, name) && ListsOnce(w, name) && PossibleOrder(w, name, order)
    requires Placed(w, name)
    ensures var w' := Reconcile(w, name, order).world;
            && Settled(w', name) && PossibleOrder(w', name, next)
            && Reconcile(w', name, next).done && SameState(w', Reconcile(w', name, next).world)
  {
    OnePassPlaces(home, w, name, order);
    NextPassSettles(home, w, name, order);
    var w' := Reconcile(w, name, order).world;
    OnePassPlaces(home, w', name, next);
    SettledIsFixed(home, w', name, next);
  }

  /** An object that never listed a node more than once that lacked the workload has no second copies. */
  lemma SingleHasNoSpares(home: map<string, string>, ws: seq<World>, k: nat, name: string)
    requires Run(home, ws) && k < |ws| && name in ws[k].objects
    requires Single(ws[0].rmd, name) && forall j: nat :: j < k ==> PostsOnce(ws[j], name)
    ensures NoSpares(ws[k], name)
  {
    RunSingle(home, ws, k, name);
  }

  ghost predicate EchoedModulo(v: int64, shown: int) {
    && 0 <= shown < 0x1_0000_0000 && (v - shown) % 0x1_0000_0000 == 0
    && (shown == v <==> 0 <= v < 0x1_0000_0000)
  }

  lemma NarrowEchoes(v: int64)
    ensures EchoedModulo(v, Narrow(v))
  {
  }

  lemma PayloadEchoesSpec(spec: Spec, shareCpuLists: seq<string>)
    requires FormatWorkload(spec, shareCpuLists).Formatted?
    ensures var p := FormatWorkload(spec, shareCpuLists).payload;
            && OrZero(p.cacheMax) == Narrow(spec.cacheMax) && OrZero(p.cacheMin) == Narrow(spec.cacheMin)
            && OrZero(p.mbaPercentage) == Narrow(spec.mbaPercentage) && OrZero(p.mbaMbps) == Narrow(spec.mbaMbps)
            && p.policy == spec.policy && p.plugins == spec.plugins.data
            && (!spec.allCores ==> p.coreIds == spec.coreIds)
  {
  }

  /**
   What the status of a settled workload says about its numbers: each is the spec's value modulo 2^32,
   also when the value was zero and never sent, so it is the spec's value exactly when that fits.
   */
  lemma SettledStatusEchoesSpec(w: World, name: string, node: string)
    requires Settled(w, name) && node in w.env.addresses && Aimed(w, w.objects[name].spec, node)
    ensures var spec, state := w.objects[name].spec, w.objects[name].states[node];
            && state.response == Success(200)
            && state.id == Find(w.rmd[w.env.addresses[node]], name).id
            && EchoedModulo(spec.cacheMax, state.cacheMax) && EchoedModulo(spec.cacheMin, state.cacheMin)
            && EchoedModulo(spec.mbaPercentage, state.mbaPercentage) && EchoedModulo(spec.mbaMbps, state.mbaMbps)
            && state.policy == spec.policy && (!spec.allCores ==> state.coreIds == spec.coreIds)
  {
    var spec, i := w.objects[name].spec, w.rmd[w.env.addresses[node]];
    PayloadEchoesSpec(spec, if spec.allCores then i.shareCpuLists else []);
    NarrowEchoes(spec.cacheMax);
    NarrowEchoes(spec.cacheMin);
    NarrowEchoes(spec.mbaPercentage);
    NarrowEchoes(spec.mbaMbps);
  }
}

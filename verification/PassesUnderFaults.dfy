/**
 Whole passes under every tape of faults: which of their stages are reached, what each leaves, and when the
 pass reports success.
 */
module PassesUnderFaults {
  import opened Basics
  import opened RmdServer
  import opened RmdClient
  import opened Passes
  import opened Safety
  import opened Runs
  import opened UnderFaults
  import opened DeletesUnderFaults
  import opened LookupsUnderFaults

  /** The pass fails having changed nothing but its place on the tape. */
  ghost predicate EndsHere(w: World, p: Pass) {
    !p.done && p.world == w.(faults := p.world.faults)
  }

  /* ---- the final check ---- */

  /** Every removal is at the address of its node, so no two delete at one address. */
  lemma RemovalsDistinct(home: map<string, string>, w: World, name: string, spec: Spec)
    requires Inv(home, w) && NoDuplicates(w.env.registry) && name != ""
    ensures var r := FindRemovedNodes(w, name, spec, w.env.registry).result;
            r.Some? ==> DistinctDoomed(ToDelete(r.value))
  {
    RemovalsFound(w, name, spec, w.env.registry);
    var r := FindRemovedNodes(w, name, spec, w.env.registry).result;
    if r.Some? {
      var doomed := ToDelete(r.value);
      forall i, j | 0 <= i < j < |doomed|
        ensures doomed[i].address != doomed[j].address
      {
        assert RemovalFound(w, name, spec, r.value[i]) && RemovalFound(w, name, spec, r.value[j]);
      }
    }
  }

  /** The deletes of the final check begin in `u`, which calls that only read lead to. */
  ghost predicate RemovedAfter(v: World, p: Pass, name: string, states: States, removals: seq<Removal>, u: World,
                               w1: World, st: States, m: nat)
  {
    u == v.(faults := u.faults) && RemovedUntil(u, w1, Synced(p.world, st, p.done), name, states, removals, m)
  }

  ghost predicate PrunedAs(v: World, p: Pass, name: string, spec: Spec, states: States, begins: seq<nat>,
                           decided: seq<Option<Removal>>)
  {
    var ends := |decided| < |v.env.registry|;
    && CheckedInTurn(v, name, spec, v.env.registry, begins, decided, ends)
    && if ends then EndsHere(v, p)
       else exists u, w1, st, m :: RemovedAfter(v, p, name, states, Collected(decided), u, w1, st, m)
  }

  /** Every registered node is checked in turn, and if all of them could be the removals are deleted. */
  ghost predicate PruneUnder(v: World, p: Pass, name: string, spec: Spec, states: States) {
    exists begins, decided :: PrunedAs(v, p, name, spec, states, begins, decided)
  }

  lemma PruneExactly(home: map<string, string>, v: World, name: string, spec: Spec, states: States)
    requires Inv(home, v) && NoDuplicates(v.env.registry) && name != ""
    ensures PruneUnder(v, Prune(v, name, spec, states), name, spec, states)
  {
    var p, r := Prune(v, name, spec, states), FindRemovedNodes(v, name, spec, v.env.registry);
    var begins, decided := RemovedExactly(v, name, spec, v.env.registry);
    if r.result.Some? {
      RemovalsDistinct(home, v, name, spec);
      var m, w1 := RemovalsExactly(r.world, name, states, r.result.value);
      var s := RemoveWorkload(r.world, name, states, r.result.value);
      assert RemovedAfter(v, p, name, states, Collected(decided), r.world, w1, s.states, m);
    }
    assert PrunedAs(v, p, name, spec, states, begins, decided);
  }

  /* ---- the sync ---- */

  lemma TargetsDistinct(home: map<string, string>, w: World, name: string, spec: Spec)
    requires Inv(home, w) && name != "" && TargetedDistinct(w.env, spec)
    ensures var r := FindTargetedNodes(w, name, spec).result;
            r.Some? ==> TargetsAt(w, r.value) && DistinctTargets(r.value)
  {
    FindTargetedFound(w, name, spec);
    NamesDistinct(w.env, spec);
    var r := FindTargetedNodes(w, name, spec).result;
    if r.Some? {
      forall i, j | 0 <= i < j < |r.value|
        ensures r.value[i].node != r.value[j].node && r.value[i].address != r.value[j].address
      {
        assert r.value[i] in r.value && r.value[j] in r.value;
      }
    }
  }

  /** Beside the targets nothing changes, and what the loop leaves is stored when it ends well. */
  ghost predicate SyncStored(w: World, s: Synced, name: string, targets: seq<Target>) {
    && s.world.env == w.env && s.world.rmd.Keys == w.rmd.Keys
    && (forall a :: a in w.rmd && (forall t :: t in targets ==> t.address != a) ==> s.world.rmd[a] == w.rmd[a])
    && s.world.objects.Keys == w.objects.Keys
    && (forall m :: m in w.objects && m != name ==> s.world.objects[m] == w.objects[m])
    && (name in w.objects ==> s.world.objects[name].spec == w.objects[name].spec)
    && (s.ok && name in w.objects ==> s.world.objects[name].states == s.states)
  }

  lemma TargetStored(w: World, name: string, spec: Spec, states: States, t: Target)
    requires name in w.objects && w.objects[name].states == states
    ensures SyncStored(w, SyncTarget(w, name, spec, states, t), name, [t])
  {
    TargetExactly(w, name, spec, states, t);
    TargetStoredAs(w, SyncTarget(w, name, spec, states, t), name, spec, states, t);
  }

  lemma TargetStoredAs(w: World, s: Synced, name: string, spec: Spec, states: States, t: Target)
    requires name in w.objects && w.objects[name].states == states && TargetUnder(w, s, name, spec, states, t)
    ensures SyncStored(w, s, name, [t])
  {
    assert t in [t];
  }

  lemma {:induction false} TargetsStored(w: World, name: string, spec: Spec, states: States, targets: seq<Target>)
    requires name in w.objects && w.objects[name].states == states
    ensures SyncStored(w, SyncTargets(w, name, spec, states, targets), name, targets)
    decreases |targets|
  {
    if targets != [] {
      var s := SyncTarget(w, name, spec, states, targets[0]);
      TargetStored(w, name, spec, states, targets[0]);
      if s.ok {
        TargetsStored(s.world, name, spec, s.states, targets[1..]);
        StoredTwice(w, s, SyncTargets(s.world, name, spec, s.states, targets[1..]), name, targets);
      } else {
        assert targets[0] in targets;
      }
    }
  }

  lemma StoredTwice(w: World, s: Synced, s': Synced, name: string, targets: seq<Target>)
    requires targets != [] && SyncStored(w, s, name, [targets[0]]) && SyncStored(s.world, s', name, targets[1..])
    ensures SyncStored(w, s', name, targets)
  {
    forall a | a in w.rmd && forall t :: t in targets ==> t.address != a
      ensures s'.world.rmd[a] == w.rmd[a]
    {
      assert targets[0] in targets && forall t :: t in targets[1..] ==> t in targets;
    }
  }

  /** The sync of the targets from `v` on ends at target `m`, or the final check follows. */
  ghost predicate SyncedAs(v: World, p: Pass, name: string, spec: Spec, states: States, targets: seq<Target>, s: Synced,
                           m: nat)
  {
    && ServedUntil(v, s, name, spec, states, targets, m) && SyncStored(v, s, name, targets)
    && if m < |targets| then p == Pass(s.world, false) else PruneUnder(s.world, p, name, spec, s.states)
  }

  /**
   A pass for an object, for every tape. Once the object is read, the targets are looked for, and when
   that fails nothing has changed. Otherwise they are served in turn, and a status that cannot be stored
   ends the pass before anything is deleted; after the last of them every registered node is checked, and
   only if all of them could be are the unwanted workloads deleted. The pass reports success when it
   comes to the end of the deletes and stores the status once more.
   */
  lemma ObjectPassExactly(home: map<string, string>, w: World, name: string, order: seq<string>)
    returns (targets: seq<Target>, v: World, s: Synced, m: nat)
    requires Good(home, w) && name in w.objects && ListsOnce(w, name)
    requires PossibleOrder(w, name, order) && FaultAt(w, 0) == NoFault
    ensures var p, spec, w1 := Reconcile(w, name, order), w.objects[name].spec, w.(faults := FaultsFrom(w, 1));
            if TargetsUnder(w1, name, spec, None) then EndsHere(w, p)
            else
              && TargetsUnder(w1, name, spec, Some(targets)) && v == w.(faults := v.faults)
              && SyncedAs(v, p, name, spec, w.objects[name].states, targets, s, m)
  {
    var spec, states := w.objects[name].spec, w.objects[name].states;
    targets, v, s, m := [], w, Synced(w, states, false), 0;
    OneSpent(w);
    var w1 := Spent(w);
    TargetedExactly(w1, name, spec);
    TargetsDistinct(home, w1, name, spec);
    var t := FindTargetedNodes(w1, name, spec);
    if t.result.Some? {
      targets, v := t.result.value, t.world;
      s := SyncTargets(v, name, spec, states, targets);
      m := TargetsExactly(v, name, spec, states, targets);
      TargetsStored(v, name, spec, states, targets);
      SyncTargetsKeeps(home, v, name, spec, states, targets);
      if s.ok {
        PruneExactly(home, s.world, name, spec, s.states);
      }
    }
  }

  /* ---- a deleted object ---- */

  /**
   A pass for an object that is gone, for every tape: when some registered node cannot be found nothing
   changes; otherwise the deletes follow, the first that fails ends the pass, and success means that none did.
   */
  lemma DeletedPassExactly(home: map<string, string>, w: World, name: string, order: seq<string>)
    returns (obsolete: map<string, WorkloadId>, v: World, m: nat)
    requires Good(home, w) && name != "" && name !in w.objects
    requires PossibleOrder(w, name, order) && FaultAt(w, 0) == NoFault
    ensures var p := Reconcile(w, name, order);
            if !AllFound(w.(faults := FaultsFrom(w, 1)), w.env.registry) then EndsHere(w, p)
            else
              && ObsoleteFound(w, name, w.env.registry, obsolete) && IsOrderOfKeys(order, obsolete)
              && v == w.(faults := v.faults) && DeletedUntil(v, p.world, ObsoleteToDelete(obsolete, order), m)
              && (p.done <==> m == |order|)
  {
    obsolete, v, m := map[], w, 0;
    OneSpent(w);
    var w1 := Spent(w);
    ObsoleteNeedsAll(w1, name, w.env.registry);
    ObsoleteSearch(w1, name, w.env.registry);
    var found := FindObsoleteWorkloads(w1, name, w.env.registry);
    if found.result.Some? {
      obsolete, v := found.result.value, found.world;
      m := ObsoleteExactly(v, obsolete, order);
    }
  }
}

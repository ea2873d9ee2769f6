/**
 What becomes of a node that is listed more than once: whether the workload exists is looked up for
 every target before the first request, so if it does not, each mention of the node posts it again.
 */
module Duplicates {
  import opened Basics
  import opened RmdClient
  import opened RmdServer
  import opened Passes
  import opened Safety
  import opened CleanPass

  /** How many of the targets post at this address. */
  function PostsAt(targets: seq<Target>, address: string): nat {
    if targets == [] then 0
    else (if !targets[0].present && targets[0].address == address then 1 else 0) + PostsAt(targets[1..], address)
  }

  /** The request of this target can be made without faults. */
  ghost predicate ServiceableAt(w: World, name: string, spec: Spec, t: Target) {
    && t.address in w.rmd && FormatAt(spec, w.rmd[t.address]).Formatted?
    && (t.present ==> Holds(w.rmd[t.address], name))
  }

  ghost predicate Serviceable(w: World, name: string, spec: Spec, targets: seq<Target>) {
    && Clean(w) && name in w.objects && Injective(w.env.addresses) && TargetsAt(w, targets)
    && (forall a :: a in w.rmd ==> WellFormed(w.rmd[a]))
    && forall t :: t in targets ==> ServiceableAt(w, name, spec, t)
  }

  /** What one target leaves: its instance answered, no host changed, nothing removed. */
  ghost predicate ServedOne(w: World, s: Synced, name: string, t: Target, j: Instance) {
    && s.ok && Clean(s.world) && s.world.env == w.env && name in s.world.objects
    && t.address in w.rmd && s.world.rmd == w.rmd[t.address := j]
    && WellFormed(j) && Holds(j, name) && j.shareCpuLists == w.rmd[t.address].shareCpuLists
  }

  lemma ServeOne(w: World, name: string, spec: Spec, states: States, t: Target)
    requires Clean(w) && name in w.objects && ServiceableAt(w, name, spec, t) && WellFormed(w.rmd[t.address])
    ensures ServedOne(w, SyncTarget(w, name, spec, states, t), name, t,
                      Answered(w.rmd[t.address], t.present, name, StateOf(states, t.node).id,
                               FormatAt(spec, w.rmd[t.address]).payload))
  {
    var i, payload := w.rmd[t.address], FormatAt(spec, w.rmd[t.address]).payload;
    CleanSyncAny(w, name, spec, states, t, payload);
    AnsweredHolds(i, t.present, name, StateOf(states, t.node).id, payload);
  }

  /** The further targets can still be served. */
  lemma StillServiceable(w: World, s: Synced, name: string, spec: Spec, targets: seq<Target>, j: Instance)
    requires targets != [] && Serviceable(w, name, spec, targets) && ServedOne(w, s, name, targets[0], j)
    ensures Serviceable(s.world, name, spec, targets[1..])
  {
    forall u | u in targets[1..]
      ensures u in targets && ServiceableAt(s.world, name, spec, u)
    {
      assert u in targets && ServiceableAt(w, name, spec, u);
    }
  }

  lemma AnsweredCopies(i: Instance, present: bool, name: string, id: WorkloadId, payload: Payload)
    ensures Copies(Answered(i, present, name, id, payload).entries, name) ==
            Copies(i.entries, name) + if present then 0 else 1
  {
    if present {
      PatchedCopies(i.entries, id, payload, name);
    } else {
      CopiesConcat(i.entries, [Entry(Id(|i.issued|), name, payload)], name);
    }
  }

  lemma CopiesHead(w: World, name: string, spec: Spec, states: States, targets: seq<Target>, a: string)
    requires targets != [] && Serviceable(w, name, spec, targets) && a in w.rmd
    ensures var s := SyncTarget(w, name, spec, states, targets[0]);
            && s.ok && s.world.env == w.env && s.world.rmd.Keys == w.rmd.Keys
            && Serviceable(s.world, name, spec, targets[1..])
            && Copies(s.world.rmd[a].entries, name) ==
               Copies(w.rmd[a].entries, name) + if !targets[0].present && targets[0].address == a then 1 else 0
  {
    var t := targets[0];
    assert t in targets && ServiceableAt(w, name, spec, t);
    var payload, id := FormatAt(spec, w.rmd[t.address]).payload, StateOf(states, t.node).id;
    ServeOne(w, name, spec, states, t);
    StillServiceable(w, SyncTarget(w, name, spec, states, t), name, spec, targets,
      Answered(w.rmd[t.address], t.present, name, id, payload));
    AnsweredCopies(w.rmd[t.address], t.present, name, id, payload);
  }

  /** Each target that was looked up as absent posts one more copy, and no other request makes or removes one. */
  lemma {:induction false} CopiesSynced(w: World, name: string, spec: Spec, states: States, targets: seq<Target>,
                                        a: string)
    requires Serviceable(w, name, spec, targets) && a in w.rmd
    ensures var s := SyncTargets(w, name, spec, states, targets);
            && s.ok && s.world.env == w.env && s.world.rmd.Keys == w.rmd.Keys
            && Serviceable(s.world, name, spec, [])
            && Copies(s.world.rmd[a].entries, name) == Copies(w.rmd[a].entries, name) + PostsAt(targets, a)
    decreases |targets|
  {
    if targets != [] {
      CopiesHead(w, name, spec, states, targets, a);
      var s := SyncTarget(w, name, spec, states, targets[0]);
      CopiesSynced(s.world, name, spec, s.states, targets[1..], a);
    }
  }

  /** How many of the listed nodes have this address. */
  function Mentions(env: Env, nodes: seq<string>, a: string): nat {
    if nodes == [] then 0
    else (if nodes[0] in env.addresses && env.addresses[nodes[0]] == a then 1 else 0) + Mentions(env, nodes[1..], a)
  }

  lemma {:induction false} PostsCounted(w: World, nodes: seq<string>, name: string, a: string)
    requires Clean(w) && name != "" && a in w.rmd && forall n :: n in w.env.addresses ==> w.env.addresses[n] in w.rmd
    ensures TargetListed(w, nodes, name).result.Some?
    ensures PostsAt(TargetListed(w, nodes, name).result.value, a) ==
            if Holds(w.rmd[a], name) then 0 else Mentions(w.env, nodes, a)
    decreases |nodes|
  {
    if nodes != [] {
      var t := GetTargetedNode(w, nodes[0], name);
      TargetFound(w, nodes[0], name);
      PostsCounted(t.world, nodes[1..], name, a);
      if t.result.Some? {
        var all := TargetListed(w, nodes, name).result.value;
        assert all[0] == t.result.value && all[1..] == TargetListed(t.world, nodes[1..], name).result.value;
      }
    }
  }

  /** What a pass for a node list without faults starts from. */
  ghost predicate Listing(w: World, name: string) {
    && Clean(w) && Ready(w, name) && w.objects[name].spec.nodeSelector == map[]
    && Injective(w.env.addresses) && NoDuplicates(w.env.registry)
    && forall a :: a in w.rmd ==> WellFormed(w.rmd[a])
  }

  lemma FoundServiceable(w: World, w1: World, name: string, targets: seq<Target>)
    requires Listing(w, name) && OnlyRead(w, w1) && FoundAmong(w, w.objects[name].spec.nodes, name, targets)
    ensures Serviceable(w1, name, w.objects[name].spec, targets)
  {
    var spec := w.objects[name].spec;
    forall t | t in targets
      ensures ServiceableAt(w1, name, spec, t)
    {
      assert Aimed(w, spec, t.node);
    }
  }

  /** The posting half of such a pass. */
  lemma MentionsPosted(w: World, name: string, a: string)
    requires Listing(w, name) && a in w.rmd
    ensures var spec, c := w.objects[name].spec, Copies(w.rmd[a].entries, name);
            var t := FindTargetedNodes(w, name, spec);
            && t.result.Some?
            && var s := SyncTargets(t.world, name, spec, w.objects[name].states, t.result.value);
               && s.ok && s.world.env == w.env && s.world.rmd.Keys == w.rmd.Keys && Serviceable(s.world, name, spec, [])
               && Copies(s.world.rmd[a].entries, name) == if c > 0 then c else Mentions(w.env, spec.nodes, a)
  {
    var spec := w.objects[name].spec;
    TargetListedFound(w, spec.nodes, name);
    PostsCounted(w, spec.nodes, name, a);
    var t := TargetListed(w, spec.nodes, name);
    assert OnlyRead(w, t.world);
    FoundServiceable(w, t.world, name, t.result.value);
    CopiesSynced(t.world, name, spec, w.objects[name].states, t.result.value, a);
    NoCopies(w.rmd[a].entries, name);
  }

  /** A registered node with this address is not on the list. */
  ghost predicate Dropped(env: Env, spec: Spec, a: string) {
    exists n :: n in env.registry && n in env.addresses && env.addresses[n] == a && n !in spec.nodes
  }

  lemma {:induction false} MentionsOf(env: Env, nodes: seq<string>, node: string)
    requires Injective(env.addresses) && node in env.addresses
    ensures Mentions(env, nodes, env.addresses[node]) > 0 <==> node in nodes
    ensures Mentions(env, nodes, env.addresses[node]) > 1 <==> Twice(nodes, node)
  {
    if nodes != [] {
      MentionsOf(env, nodes[1..], node);
      TwiceInTail(nodes, node);
    }
  }

  lemma {:induction false} MentionsNowhere(env: Env, nodes: seq<string>, a: string)
    requires forall n :: n in env.addresses ==> env.addresses[n] != a
    ensures Mentions(env, nodes, a) == 0
  {
    if nodes != [] {
      MentionsNowhere(env, nodes[1..], a);
    }
  }

  lemma DroppedUnmentioned(env: Env, spec: Spec, a: string)
    requires Injective(env.addresses)
    ensures Dropped(env, spec, a) ==> Mentions(env, spec.nodes, a) == 0
  {
    if n :| n in env.registry && n in env.addresses && env.addresses[n] == a && n !in spec.nodes {
      MentionsOf(env, spec.nodes, n);
    }
  }

  /** The pruning half: one copy goes where a registered node is not on the list. */
  lemma DroppedPruned(w: World, name: string, spec: Spec, states: States, a: string)
    requires Serviceable(w, name, spec, []) && name != "" && spec.nodeSelector == map[] && a in w.rmd
    requires NoDuplicates(w.env.registry)
    requires forall n :: n in w.env.registry ==> n in w.env.addresses && w.env.addresses[n] in w.rmd
    ensures var p, c := Prune(w, name, spec, states), Copies(w.rmd[a].entries, name);
            && p.done && p.world.rmd.Keys == w.rmd.Keys
            && Copies(p.world.rmd[a].entries, name) == if Dropped(w.env, spec, a) && c > 0 then c - 1 else c
  {
    CleanPrune(w, name, spec, states);
    NoCopies(w.rmd[a].entries, name);
    if n :| Unwanted(w, name, spec, n) && w.env.addresses[n] == a {
      DeleteFound(w.rmd[a], name);
    } else {
      assert forall n :: Unwanted(w, name, spec, n) ==> w.env.addresses[n] != a;
      assert forall n :: n in w.env.registry && w.env.addresses[n] == a && n !in spec.nodes ==>
               (Holds(w.rmd[a], name) <==> Unwanted(w, name, spec, n));
    }
  }

  /**
   The copies after a pass without faults over a node list, on any instance: as many as its node is
   listed if there was none; otherwise as many as before, less one if its node is registered and not
   listed.
   */
  lemma CopiesExactly(w: World, name: string, order: seq<string>, a: string)
    requires Listing(w, name) && PossibleOrder(w, name, order) && a in w.rmd
    ensures var p, spec, c := Reconcile(w, name, order), w.objects[name].spec, Copies(w.rmd[a].entries, name);
            && p.done && p.world.rmd.Keys == w.rmd.Keys
            && Copies(p.world.rmd[a].entries, name) ==
               if c == 0 then Mentions(w.env, spec.nodes, a)
               else if Dropped(w.env, spec, a) then c - 1
               else c
  {
    var w1, spec := Spent(w), w.objects[name].spec;
    assert Ready(w1, name) && Listing(w1, name);
    MentionsPosted(w1, name, a);
    var t := FindTargetedNodes(w1, name, spec);
    var s := SyncTargets(t.world, name, spec, w.objects[name].states, t.result.value);
    DroppedPruned(s.world, name, spec, s.states, a);
    DroppedUnmentioned(w.env, spec, a);
  }

  lemma KeysKept(w: World, name: string, order: seq<string>)
    requires Listing(w, name) && PossibleOrder(w, name, order)
    ensures Reconcile(w, name, order).world.rmd.Keys == w.rmd.Keys
  {
    if a :| a in w.rmd {
      CopiesExactly(w, name, order, a);
    } else {
      var w1, spec := Spent(w), w.objects[name].spec;
      assert forall n :: n !in w.env.addresses;
      assert forall n :: n !in w.env.registry;
      assert w.env.registry == [];
      NothingListed(w1, spec.nodes, name);
    }
  }

  /** Where no node resolves, none is targeted. */
  lemma {:induction false} NothingListed(w: World, nodes: seq<string>, name: string)
    requires forall n :: n !in w.env.addresses
    ensures TargetListed(w, nodes, name).result == Some([])
    decreases |nodes|
  {
    if nodes != [] {
      NothingListed(GetTargetedNode(w, nodes[0], name).world, nodes[1..], name);
    }
  }

  /**
   So where no instance held two copies, such a pass makes a second one if and only if some node is
   listed more than once that resolves to an instance without the workload.
   */
  lemma SingleExactly(w: World, name: string, order: seq<string>)
    requires Listing(w, name) && PossibleOrder(w, name, order) && Single(w.rmd, name)
    ensures Single(Reconcile(w, name, order).world.rmd, name) <==> PostsOnce(w, name)
  {
    var p, spec := Reconcile(w, name, order), w.objects[name].spec;
    forall a | a in w.rmd
      ensures a in p.world.rmd
      ensures Copies(p.world.rmd[a].entries, name) > 1 <==> !Holds(w.rmd[a], name) && Mentions(w.env, spec.nodes, a) > 1
    {
      CopiesExactly(w, name, order, a);
      NoCopies(w.rmd[a].entries, name);
    }
    if !PostsOnce(w, name) {
      var n :| n in w.env.addresses && w.env.addresses[n] in w.rmd && Twice(spec.nodes, n)
               && !Holds(w.rmd[w.env.addresses[n]], name);
      MentionsOf(w.env, spec.nodes, n);
    }
    if a :| a in w.rmd && Copies(p.world.rmd[a].entries, name) > 1 {
      if n :| n in w.env.addresses && w.env.addresses[n] == a {
        MentionsOf(w.env, spec.nodes, n);
      } else {
        MentionsNowhere(w.env, spec.nodes, a);
      }
    }
    KeysKept(w, name, order);
  }
}

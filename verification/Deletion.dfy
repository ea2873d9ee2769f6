/**
 The passes for an object that was deleted: one that reports success has removed one copy of its
 workload from every instance of a registered node and nothing anywhere else, and while those nodes
 resolve only a fault can make one report failure.
 */
module Deletion {
  import opened Basics
  import opened RmdServer
  import opened Passes
  import opened Safety
  import opened Runs

  /** Every node of the registry resolves to an instance. */
  ghost predicate RegistryUp(w: World) {
    forall n :: n in w.env.registry ==> n in w.env.addresses && w.env.addresses[n] in w.rmd
  }

  /** No instance holds a workload of that name. */
  ghost predicate Gone(w: World, name: string) {
    forall a :: a in w.rmd ==> !Holds(w.rmd[a], name)
  }

  /** The instance at this address is that of a registered node. */
  predicate Registered(w: World, address: string) {
    ServesSome(w.env, w.env.registry, address)
  }

  /** Exactly the listed IDs are deleted, each at its address. */
  ghost predicate DeletedAt(w: World, w': World, obsolete: map<string, WorkloadId>, order: seq<string>) {
    && w'.rmd.Keys == w.rmd.Keys
    && (forall a :: a in order ==> a in obsolete && a in w.rmd && w'.rmd[a] == Delete(w.rmd[a], obsolete[a]))
    && (forall a :: a in w.rmd && a !in order ==> w'.rmd[a] == w.rmd[a])
  }

  lemma {:induction false} DeletedAll(w: World, obsolete: map<string, WorkloadId>, order: seq<string>)
    requires NoDuplicates(order) && forall a :: a in order ==> a in obsolete
    ensures var (w', ok) := DeleteObsolete(w, obsolete, order);
            && w'.env == w.env
            && (ok ==> DeletedAt(w, w', obsolete, order))
    decreases |order|
  {
    if order != [] {
      var (w1, ok) := DeleteWorkload(w, order[0], obsolete[order[0]]);
      if ok {
        assert forall a :: a in order[1..] ==> a in order && a != order[0];
        DeletedAll(w1, obsolete, order[1..]);
      }
    }
  }

  /** Only faults can stop the deletes: every ID that was found is live, and each is used once. */
  lemma {:induction false} DeletesFail(w: World, name: string, obsolete: map<string, WorkloadId>, order: seq<string>)
    requires NoDuplicates(order)
    requires forall a :: a in order ==> a in obsolete && a in w.rmd && Live(w.rmd[a], obsolete[a])
    ensures var (w', ok) := DeleteObsolete(w, obsolete, order);
            FaultsLeft(w'.faults) + (if ok then 0 else 1) <= FaultsLeft(w.faults)
    decreases |order|
  {
    if order != [] {
      assert order[0] in order;
      var (w1, ok) := DeleteWorkload(w, order[0], obsolete[order[0]]);
      if ok {
        forall a | a in order[1..]
          ensures a in order && a != order[0] && w1.rmd[a] == w.rmd[a]
        {
          var k :| 0 <= k < |order[1..]| && order[1..][k] == a;
          assert order[k + 1] == a;
        }
        DeletesFail(w1, name, obsolete, order[1..]);
      }
    }
  }

  lemma {:induction false} SearchFails(w: World, name: string, registry: seq<string>)
    requires forall n :: n in registry ==> n in w.env.addresses && w.env.addresses[n] in w.rmd
    ensures var r := FindObsoleteWorkloads(w, name, registry);
            FaultsLeft(r.world.faults) + (if r.result.Some? then 0 else 1) <= FaultsLeft(w.faults)
    decreases |registry|
  {
    if registry != [] {
      assert registry[0] in registry;
      var a := GetPodAddress(w, registry[0]);
      if a.result.Some? {
        var g := GetWorkloads(a.world, a.result.value);
        if g.result.Some? {
          SearchFails(g.world, name, registry[1..]);
        }
      }
    }
  }

  /** What a successful pass leaves on an instance. */
  ghost predicate FoundDeleted(w: World, w': World, name: string, a: string)
    requires a in w.rmd
  {
    var i := w.rmd[a];
    a in w'.rmd && w'.rmd[a] == if Registered(w, a) && Holds(i, name) then Delete(i, Find(i, name).id) else i
  }

  lemma SuccessDeletesFound(w: World, name: string, order: seq<string>)
    requires name != "" && name !in w.objects && PossibleOrder(w, name, order) && Reconcile(w, name, order).done
    ensures var w' := Reconcile(w, name, order).world;
            && w'.env == w.env && w'.rmd.Keys == w.rmd.Keys && RegistryUp(w)
            && forall a :: a in w.rmd ==> FoundDeleted(w, w', name, a)
  {
    var w1 := Spent(w);
    ObsoleteSearch(w1, name, w.env.registry);
    var found := FindObsoleteWorkloads(w1, name, w.env.registry);
    DeletedAll(found.world, found.result.value, order);
  }

  lemma FoundDeletedCopies(w: World, w': World, name: string, a: string)
    requires a in w.rmd && FoundDeleted(w, w', name, a) && WellFormed(w.rmd[a])
    ensures var c := Copies(w.rmd[a].entries, name);
            && Copies(w'.rmd[a].entries, name) == (if Registered(w, a) && c > 0 then c - 1 else c)
            && (Holds(w'.rmd[a], name) <==> c > if Registered(w, a) then 1 else 0)
  {
    var i := w.rmd[a];
    NoCopies(i.entries, name);
    if Registered(w, a) && Holds(i, name) {
      DeleteFound(i, name);
    }
  }

  /**
   Whatever calls fail on the way: a pass that reports success removed one copy from the instance of
   every registered node, and left every other instance as it was.
   */
  lemma SuccessExactly(home: map<string, string>, w: World, name: string, order: seq<string>, a: string)
    requires Good(home, w) && name != "" && name !in w.objects && PossibleOrder(w, name, order)
    requires Reconcile(w, name, order).done && a in w.rmd
    ensures var w', c := Reconcile(w, name, order).world, Copies(w.rmd[a].entries, name);
            && a in w'.rmd && (!Registered(w, a) ==> w'.rmd[a] == w.rmd[a])
            && Copies(w'.rmd[a].entries, name) == (if Registered(w, a) && c > 0 then c - 1 else c)
            && (Holds(w'.rmd[a], name) <==> c > if Registered(w, a) then 1 else 0)
  {
    SuccessDeletesFound(w, name, order);
    FoundDeletedCopies(w, Reconcile(w, name, order).world, name, a);
  }

  /** Every instance that holds the workload is that of a registered node, and holds one copy. */
  ghost predicate WithinReach(w: World, name: string) {
    forall a :: a in w.rmd && Holds(w.rmd[a], name) ==> Registered(w, a) && Copies(w.rmd[a].entries, name) == 1
  }

  lemma GoneWhenDeleted(w: World, w': World, name: string)
    requires w'.rmd.Keys == w.rmd.Keys && forall a :: a in w.rmd ==> WellFormed(w.rmd[a])
    requires forall a :: a in w.rmd ==> FoundDeleted(w, w', name, a)
    ensures Gone(w', name) <==> WithinReach(w, name)
  {
    forall a | a in w.rmd
      ensures !Holds(w'.rmd[a], name) <==>
                (Holds(w.rmd[a], name) ==> Registered(w, a) && Copies(w.rmd[a].entries, name) == 1)
    {
      FoundDeletedCopies(w, w', name, a);
      NoCopies(w.rmd[a].entries, name);
    }
  }

  /** So the workload is gone after it if and only if every holder is registered and holds a single copy. */
  lemma SuccessMeansGone(home: map<string, string>, w: World, name: string, order: seq<string>)
    requires Good(home, w) && name != "" && name !in w.objects && PossibleOrder(w, name, order)
    requires Reconcile(w, name, order).done
    ensures RegistryUp(w) && (Gone(Reconcile(w, name, order).world, name) <==> WithinReach(w, name))
  {
    SuccessDeletesFound(w, name, order);
    GoneWhenDeleted(w, Reconcile(w, name, order).world, name);
  }

  /** For an object that made no second copies, it is gone if and only if every holder is registered. */
  lemma DeletedInRun(home: map<string, string>, ws: seq<World>, k: nat, name: string, order: seq<string>)
    requires Run(home, ws) && k < |ws| && name != "" && name !in ws[k].objects && PossibleOrder(ws[k], name, order)
    requires Single(ws[0].rmd, name) && forall j: nat :: j < k ==> PostsOnce(ws[j], name)
    requires Reconcile(ws[k], name, order).done
    ensures Gone(Reconcile(ws[k], name, order).world, name) <==>
            forall a :: a in ws[k].rmd && Holds(ws[k].rmd[a], name) ==> Registered(ws[k], a)
  {
    RunGood(home, ws, k);
    RunSingle(home, ws, k, name);
    SuccessMeansGone(home, ws[k], name, order);
    SingleReach(ws[k], name);
  }

  lemma SingleReach(w: World, name: string)
    requires Single(w.rmd, name)
    ensures WithinReach(w, name) <==> forall a :: a in w.rmd && Holds(w.rmd[a], name) ==> Registered(w, a)
  {
    forall a | a in w.rmd && Holds(w.rmd[a], name)
      ensures Copies(w.rmd[a].entries, name) == 1
    {
      NoCopies(w.rmd[a].entries, name);
    }
  }

  /** While the registry is up, a pass that reports failure has met at least one fault. */
  lemma FailureNeedsFault(home: map<string, string>, w: World, name: string, order: seq<string>)
    requires Good(home, w) && RegistryUp(w) && name != "" && name !in w.objects && PossibleOrder(w, name, order)
    ensures var p := Reconcile(w, name, order);
            FaultsLeft(p.world.faults) + (if p.done then 0 else 1) <= FaultsLeft(w.faults)
  {
    var w1 := Spent(w);
    if NextFault(w).NoFault? {
      ObsoleteSearch(w1, name, w.env.registry);
      SearchFails(w1, name, w.env.registry);
      var found := FindObsoleteWorkloads(w1, name, w.env.registry);
      if found.result.Some? {
        forall a | a in order
          ensures a in found.result.value && a in found.world.rmd && Live(found.world.rmd[a], found.result.value[a])
        {
          assert Find(w.rmd[a], name) in w.rmd[a].entries;
        }
        DeletesFail(found.world, name, found.result.value, order);
      }
    }
  }

  /** Passes for a deleted object, each retried because the one before reported failure. */
  ghost predicate Retried(ws: seq<World>, name: string, orders: seq<seq<string>>, k: nat)
    requires k + 1 < |ws| && |ws| == |orders| + 1
  {
    PossibleOrder(ws[k], name, orders[k]) && !Reconcile(ws[k], name, orders[k]).done
    && ws[k + 1] == Reconcile(ws[k], name, orders[k]).world
  }

  ghost predicate FewerCopies(w: World, w': World, name: string) {
    forall a :: a in w.rmd ==> a in w'.rmd && Copies(w'.rmd[a].entries, name) <= Copies(w.rmd[a].entries, name)
  }

  /** What one retry keeps: the object stays deleted, the registry up, and fewer faults are left. */
  lemma RetryStep(home: map<string, string>, w: World, name: string, order: seq<string>)
    requires Good(home, w) && RegistryUp(w) && name != "" && name !in w.objects && PossibleOrder(w, name, order)
    ensures var p := Reconcile(w, name, order);
            && Good(home, p.world) && RegistryUp(p.world) && name !in p.world.objects
            && FaultsLeft(p.world.faults) + (if p.done then 0 else 1) <= FaultsLeft(w.faults)
            && Frame(w, p.world, name) && FewerCopies(w, p.world, name)
  {
    PassGood(home, w, name, order);
    FailureNeedsFault(home, w, name, order);
    if NextFault(w).NoFault? {
      DeletionKeeps(home, w, name, order);
    }
  }

  /** There are no more failed passes in a row than faults on the tape, and they make no copies. */
  lemma {:induction false} RetriesStop(home: map<string, string>, ws: seq<World>, name: string,
                                       orders: seq<seq<string>>)
    requires |ws| == |orders| + 1 && name != "" && name !in ws[0].objects
    requires Good(home, ws[0]) && RegistryUp(ws[0])
    requires forall k: nat :: k + 1 < |ws| ==> Retried(ws, name, orders, k)
    ensures var w := ws[|orders|];
            && Good(home, w) && RegistryUp(w) && name !in w.objects
            && FaultsLeft(w.faults) + |orders| <= FaultsLeft(ws[0].faults)
            && Frame(ws[0], w, name) && FewerCopies(ws[0], w, name)
  {
    var k := 0;
    while k < |orders|
      invariant 0 <= k <= |orders|
      invariant Good(home, ws[k]) && RegistryUp(ws[k]) && name !in ws[k].objects
      invariant FaultsLeft(ws[k].faults) + k <= FaultsLeft(ws[0].faults)
      invariant Frame(ws[0], ws[k], name) && FewerCopies(ws[0], ws[k], name)
    {
      assert Retried(ws, name, orders, k);
      RetryStep(home, ws[k], name, orders[k]);
      FrameTransitive(ws[0], ws[k], ws[k + 1], name);
      k := k + 1;
    }
  }

  lemma ReachKept(w: World, w': World, name: string)
    requires WithinReach(w, name) && FewerCopies(w, w', name) && w'.env == w.env && w'.rmd.Keys == w.rmd.Keys
    ensures WithinReach(w', name)
  {
    forall a | a in w'.rmd && Holds(w'.rmd[a], name)
      ensures Registered(w', a) && Copies(w'.rmd[a].entries, name) == 1
    {
      NoCopies(w'.rmd[a].entries, name);
      NoCopies(w.rmd[a].entries, name);
      assert Copies(w.rmd[a].entries, name) >= 1;
    }
  }

  /**
   Deletion completes: the retries end, since a pass reports success at the latest when the faults are
   used up; and that pass has touched no other workload. The workload is then gone exactly when every
   instance that still held it is registered and held one copy; so it is, in particular, when that was
   so at the start.
   */
  lemma RetriesEnd(home: map<string, string>, ws: seq<World>, name: string, orders: seq<seq<string>>, last: seq<string>)
    requires |ws| == |orders| + 1 && name != "" && name !in ws[0].objects
    requires Good(home, ws[0]) && RegistryUp(ws[0])
    requires forall k: nat :: k + 1 < |ws| ==> Retried(ws, name, orders, k)
    requires PossibleOrder(ws[|orders|], name, last)
    ensures |orders| <= FaultsLeft(ws[0].faults)
    ensures var p := Reconcile(ws[|orders|], name, last);
            && (|orders| == FaultsLeft(ws[0].faults) ==> p.done)
            && Frame(ws[0], p.world, name)
            && (p.done ==>
                  && (Gone(p.world, name) <==> WithinReach(ws[|orders|], name))
                  && (WithinReach(ws[0], name) ==> Gone(p.world, name)))
  {
    RetriesStop(home, ws, name, orders);
    var w := ws[|orders|];
    RetryStep(home, w, name, last);
    FrameTransitive(ws[0], w, Reconcile(w, name, last).world, name);
    if Reconcile(w, name, last).done {
      SuccessMeansGone(home, w, name, last);
      if WithinReach(ws[0], name) {
        ReachKept(ws[0], w, name);
      }
    }
  }
}

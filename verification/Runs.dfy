/**
 Whole runs: passes for any objects, cut short by any faults, mixed with everything the cluster may
 do in between. The environment keeps each node's RMD at one address; it may otherwise edit, create and
 delete objects, relabel nodes, change the RmdConfig object and the registry, and make pods appear and
 disappear. A spec may list what it likes.
 */
module Runs {
  import opened Basics
  import opened RmdServer
  import opened Passes
  import opened Safety

  ghost predicate EnvOk(home: map<string, string>, w: World) {
    && Injective(home)
    && Within(w.env.addresses, home)
    && DistinctNodes(w.env.nodes)
    && NoDuplicates(w.env.registry)
    && "" !in w.objects
  }

  /** A cluster before the operator ran: no object has a status yet. */
  ghost predicate Start(home: map<string, string>, w: World) {
    && EnvOk(home, w)
    && (forall a :: a in w.rmd ==> WellFormed(w.rmd[a]))
    && forall m :: m in w.objects ==> w.objects[m].states == map[]
  }

  ghost predicate EnvStep(home: map<string, string>, w: World, w': World) {
    && EnvOk(home, w')
    && (forall a :: a in w.rmd ==> a in w'.rmd && w'.rmd[a] == w.rmd[a])
    && (forall a :: a in w'.rmd && a !in w.rmd ==> w'.rmd[a].entries == [] && w'.rmd[a].issued == [])
    && forall m :: m in w'.objects ==>
         w'.objects[m].states == map[] || (m in w.objects && w'.objects[m].states == w.objects[m].states)
  }

  ghost predicate PassStep(w: World, w': World, name: string, order: seq<string>) {
    name != "" && PossibleOrder(w, name, order) && w' == Reconcile(w, name, order).world
  }

  ghost predicate PassOf(w: World, w': World, name: string) {
    exists order :: PassStep(w, w', name, order)
  }

  ghost predicate Step(home: map<string, string>, w: World, w': World) {
    EnvStep(home, w, w') || exists name :: PassOf(w, w', name)
  }

  ghost predicate StepAt(home: map<string, string>, ws: seq<World>, k: nat)
    requires 0 < k < |ws|
  {
    Step(home, ws[k - 1], ws[k])
  }

  ghost predicate Run(home: map<string, string>, ws: seq<World>) {
    && ws != [] && Start(home, ws[0])
    && forall k :: 0 < k < |ws| ==> StepAt(home, ws, k)
  }

  ghost predicate Good(home: map<string, string>, w: World) {
    EnvOk(home, w) && Inv(home, w)
  }

  /** Go can always range over the obsolete workloads in some order. */
  lemma OrderIsPossible(w: World, name: string) returns (order: seq<string>)
    ensures PossibleOrder(w, name, order)
  {
    var found := FindObsoleteWorkloads(Spent(w), name, w.env.registry).result;
    order := [];
    if found.Some? {
      order := OrderExists(found.value.Keys);
    }
  }

  lemma StartGood(home: map<string, string>, w: World)
    requires Start(home, w)
    ensures Good(home, w)
  {
  }

  lemma EnvStepGood(home: map<string, string>, w: World, w': World)
    requires Good(home, w) && EnvStep(home, w, w')
    ensures Good(home, w')
  {
    forall m | m in w'.objects
      ensures Owned(home, w'.rmd, m, w'.objects[m].states)
    {
      if w'.objects[m].states != map[] {
        assert Owned(home, w.rmd, m, w.objects[m].states);
      }
    }
  }

  lemma PassGood(home: map<string, string>, w: World, name: string, order: seq<string>)
    requires Good(home, w) && name != "" && PossibleOrder(w, name, order)
    ensures Good(home, Reconcile(w, name, order).world)
    ensures Frame(w, Reconcile(w, name, order).world, name)
  {
    PassKeeps(home, w, name, order);
  }

  /**
   At every moment of every run each stored ID was issued to the object that stores it, by the
   instance of the node it is stored under.
   */
  lemma {:induction false} RunGood(home: map<string, string>, ws: seq<World>, k: nat)
    requires Run(home, ws) && k < |ws|
    ensures Good(home, ws[k])
    decreases k
  {
    if k == 0 {
      StartGood(home, ws[0]);
    } else {
      RunGood(home, ws, k - 1);
      assert StepAt(home, ws, k);
      if EnvStep(home, ws[k - 1], ws[k]) {
        EnvStepGood(home, ws[k - 1], ws[k]);
      } else {
        var name :| PassOf(ws[k - 1], ws[k], name);
        var order :| PassStep(ws[k - 1], ws[k], name, order);
        PassGood(home, ws[k - 1], name, order);
      }
    }
  }

  lemma PassSingle(home: map<string, string>, w: World, w': World, passed: string, name: string)
    requires Good(home, w) && PassOf(w, w', passed) && Single(w.rmd, name) && PostsOnce(w, name)
    ensures Single(w'.rmd, name)
  {
    var order :| PassStep(w, w', passed, order);
    PassKeeps(home, w, passed, order);
    if passed != name {
      FrameOthers(w, w', passed, name);
    }
  }

  lemma StepSingle(home: map<string, string>, w: World, w': World, name: string)
    requires Good(home, w) && Step(home, w, w') && Single(w.rmd, name) && PostsOnce(w, name)
    ensures Single(w'.rmd, name)
  {
    if !EnvStep(home, w, w') {
      var passed :| PassOf(w, w', passed);
      PassSingle(home, w, w', passed, name);
    }
  }

  ghost predicate SingleAt(ws: seq<World>, k: nat, name: string)
    requires k < |ws|
  {
    Single(ws[k].rmd, name)
  }

  lemma SingleNext(home: map<string, string>, ws: seq<World>, k: nat, name: string)
    requires Run(home, ws) && 0 < k < |ws| && SingleAt(ws, k - 1, name) && PostsOnce(ws[k - 1], name)
    ensures SingleAt(ws, k, name)
  {
    RunGood(home, ws, k - 1);
    assert StepAt(home, ws, k);
    StepSingle(home, ws[k - 1], ws[k], name);
  }

  /**
   A name of which every instance held at most one copy keeps it so, while its spec lists no node more
   than once that resolves and lacks the workload.
   */
  lemma {:induction false} RunSingle(home: map<string, string>, ws: seq<World>, k: nat, name: string)
    requires Run(home, ws) && k < |ws| && Single(ws[0].rmd, name)
    requires forall j: nat :: j < k ==> PostsOnce(ws[j], name)
    ensures SingleAt(ws, k, name)
    decreases k
  {
    if k > 0 {
      RunSingle(home, ws, k - 1, name);
      SingleNext(home, ws, k, name);
    }
  }

  /** The ownership of IDs, spelled out for one stored ID. */
  lemma StoredIdsAreOwn(home: map<string, string>, ws: seq<World>, k: nat, name: string, node: string)
    requires Run(home, ws) && k < |ws|
    requires name in ws[k].objects && node in ws[k].objects[name].states
    ensures var id := ws[k].objects[name].states[node].id;
            id.Id? ==>
              && node in home && home[node] in ws[k].rmd
              && id.serial < |ws[k].rmd[home[node]].issued| && ws[k].rmd[home[node]].issued[id.serial] == name
              && forall e :: e in ws[k].rmd[home[node]].entries && e.id == id ==> e.uuid == name
  {
    RunGood(home, ws, k);
    var w := ws[k];
    var id := w.objects[name].states[node].id;
    if id.Id? {
      assert Owned(home, w.rmd, name, w.objects[name].states);
      IssuedToEntry(w.rmd[home[node]], id, name);
    }
  }

  /** `w'` differs from `w` in nothing that belongs to `other`. */
  ghost predicate Untouched(w: World, w': World, other: string) {
    && w'.rmd.Keys == w.rmd.Keys
    && (forall a, e: Entry :: a in w.rmd && e.uuid == other ==> (e in w'.rmd[a].entries <==> e in w.rmd[a].entries))
    && (forall a, j: nat :: a in w.rmd && |w.rmd[a].issued| <= j < |w'.rmd[a].issued| ==> w'.rmd[a].issued[j] != other)
    && (other in w.objects ==> other in w'.objects && w'.objects[other] == w.objects[other])
  }

  lemma FrameUntouched(w: World, w': World, name: string, other: string)
    requires Frame(w, w', name) && other != name
    ensures Untouched(w, w', other)
  {
    forall a, e: Entry | a in w.rmd && e.uuid == other
      ensures e in w'.rmd[a].entries <==> e in w.rmd[a].entries
    {
      assert OnlyFor(w.rmd[a], w'.rmd[a], name);
      assert e in Others(w'.rmd[a].entries, name) <==> e in Others(w.rmd[a].entries, name);
    }
    forall a, j: nat | a in w.rmd && |w.rmd[a].issued| <= j < |w'.rmd[a].issued|
      ensures w'.rmd[a].issued[j] != other
    {
      assert OnlyFor(w.rmd[a], w'.rmd[a], name);
    }
  }

  /**
   Whatever fails, a pass made for one object posts under no other name and leaves every workload of
   another name where it was, with its ID and configuration, on every instance.
   */
  lemma PassesAreIsolated(home: map<string, string>, ws: seq<World>, k: nat, name: string, order: seq<string>,
                          other: string)
    requires Run(home, ws) && 0 < k < |ws| && PassStep(ws[k - 1], ws[k], name, order) && other != name
    ensures Untouched(ws[k - 1], ws[k], other)
  {
    RunGood(home, ws, k - 1);
    PassGood(home, ws[k - 1], name, order);
    FrameUntouched(ws[k - 1], ws[k], name, other);
  }
}

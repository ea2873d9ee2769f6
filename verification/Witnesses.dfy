/**
 Runs of a cluster with one node in which a clean pass does not do what one would hope: the states in
 which the exact conditions of Convergence, Duplicates and Deletion fail can be reached.
 */
module Witnesses {
  import opened Basics
  import opened RmdClient
  import opened RmdServer
  import opened Passes
  import opened Safety
  import opened CleanPass
  import opened Runs
  import opened Convergence
  import opened Deletion
  import opened Duplicates

  const HOME: map<string, string> := map["n" := "a"]

  const IDLE := Instance([], [], [])

  function SpecOf(nodes: seq<string>, policy: string): Spec {
    Spec(false, [], [], policy, 0, 0, 0, 0, Plugins("", true), map[], nodes)
  }

  function RequestOf(policy: string): Payload {
    Payload(policy, [], Some(0), Some(0), None, None, "")
  }

  /** The instance that one POST of "w" leaves. */
  const ONCE_POSTED := Instance([Entry(Id(0), "w", RequestOf("old"))], ["w"], [])

  /** A cluster whose only object is new, and whose only RMD instance is idle. */
  function Fresh(spec: Spec, faults: seq<Fault>): World {
    World(Env([Node("n", map[])], None, HOME, ["n"]), map["w" := Workload(spec, map[])], map["a" := IDLE], faults)
  }

  lemma FreshStarts(nodes: seq<string>, policy: string, faults: seq<Fault>)
    ensures var w := Fresh(SpecOf(nodes, policy), faults);
            Start(HOME, w) && Ready(w, "w") && Single(w.rmd, "w") && !Holds(w.rmd["a"], "w")
  {
  }

  /* ---- a node listed twice ---- */

  lemma TwicePosted(w: World)
    requires w == Fresh(SpecOf(["n", "n"], "gold"), [])
    ensures var p := Reconcile(w, "w", []);
            && p.done && Good(HOME, p.world) && Clean(p.world) && p.world.env == w.env
            && "a" in p.world.rmd && Copies(p.world.rmd["a"].entries, "w") == 2
  {
    FreshStarts(["n", "n"], "gold", []);
    StartGood(HOME, w);
    PassGood(HOME, w, "w", []);
    var nodes := ["n", "n"];
    assert nodes[1..] == ["n"] && nodes[1..][1..] == [] && Mentions(w.env, nodes, "a") == 2;
    CopiesExactly(w, "w", [], "a");
  }

  /** One pass for an object that lists its node twice leaves two copies there. */
  lemma ListedTwice() returns (w: World, w': World)
    ensures Start(HOME, w) && Clean(w) && PassStep(w, w', "w", []) && Reconcile(w, "w", []).done
    ensures "w" in w.objects && w.objects["w"].spec.nodes == ["n", "n"]
    ensures "a" in w'.rmd && Copies(w'.rmd["a"].entries, "w") == 2
    ensures Good(HOME, w') && Clean(w') && w'.env == w.env == Fresh(SpecOf([], ""), []).env
  {
    w := Fresh(SpecOf(["n", "n"], "gold"), []);
    FreshStarts(["n", "n"], "gold", []);
    TwicePosted(w);
    w' := Reconcile(w, "w", []).world;
  }

  lemma NodeIsRegistered(w: World)
    requires w.env == Fresh(SpecOf([], ""), []).env
    ensures RegistryUp(w) <==> "a" in w.rmd
    ensures Registered(w, "a")
  {
    assert "n" in w.env.registry && w.env.addresses["n"] == "a";
  }

  lemma SecondCopyStays(w: World, order: seq<string>)
    requires Good(HOME, w) && Clean(w) && "w" !in w.objects && PossibleOrder(w, "w", order)
    requires w.env == Fresh(SpecOf([], ""), []).env && "a" in w.rmd && Copies(w.rmd["a"].entries, "w") == 2
    ensures var p := Reconcile(w, "w", order);
            && p.done && "n" in p.world.env.registry && "a" in p.world.rmd && Holds(p.world.rmd["a"], "w")
            && !Gone(p.world, "w")
  {
    NodeIsRegistered(w);
    FailureNeedsFault(HOME, w, "w", order);
    SuccessExactly(HOME, w, "w", order, "a");
    PassGood(HOME, w, "w", order);
  }

  /** When that object is deleted, a pass without faults reports success and leaves a copy behind. */
  lemma DeletionLeavesACopy() returns (w0: World, w1: World, w2: World, order: seq<string>)
    ensures Start(HOME, w0) && PassStep(w0, w1, "w", []) && EnvStep(HOME, w1, w2)
    ensures Clean(w2) && "w" !in w2.objects && PossibleOrder(w2, "w", order)
    ensures var p := Reconcile(w2, "w", order);
            && p.done && "n" in p.world.env.registry && "a" in p.world.rmd && Holds(p.world.rmd["a"], "w")
            && !Gone(p.world, "w")
  {
    w0, w1 := ListedTwice();
    w2 := w1.(objects := map[]);
    EnvStepGood(HOME, w1, w2);
    order := OrderIsPossible(w2, "w");
    SecondCopyStays(w2, order);
  }

  /* ---- a node that leaves the registry ---- */

  lemma PlacedOnce() returns (w: World, w': World)
    ensures Start(HOME, w) && Clean(w) && PassStep(w, w', "w", []) && PostsOnce(w, "w") && Single(w.rmd, "w")
    ensures Good(HOME, w') && Clean(w') && w'.env == w.env == Fresh(SpecOf([], ""), []).env && w'.rmd.Keys == {"a"}
    ensures Holds(w'.rmd["a"], "w") && "w" in w'.objects && w'.objects["w"].spec == SpecOf(["n"], "gold")
  {
    w := Fresh(SpecOf(["n"], "gold"), []);
    FreshStarts(["n"], "gold", []);
    StartGood(HOME, w);
    OnePassPlaces(HOME, w, "w", []);
    OnePassExactly(HOME, w, "w", [], "n");
    w' := Reconcile(w, "w", []).world;
  }

  lemma UnregisteredKeeps(w: World)
    requires Good(HOME, w) && Clean(w) && Ready(w, "w") && ListsOnce(w, "w")
    requires w.objects["w"].spec.nodes == [] && w.objects["w"].spec.nodeSelector == map[] && w.env.registry == []
    requires w.env.addresses == HOME && "a" in w.rmd && Holds(w.rmd["a"], "w")
    ensures var p := Reconcile(w, "w", []); p.done && "a" in p.world.rmd && Holds(p.world.rmd["a"], "w")
  {
    OnePassPlaces(HOME, w, "w", []);
    OnePassExactly(HOME, w, "w", [], "n");
    NoCopies(w.rmd["a"].entries, "w");
  }

  /** The node leaves the registry, and the spec. */
  function Unregistered(w: World): World
    requires "w" in w.objects
  {
    var edited := w.objects["w"].(spec := SpecOf([], "gold"));
    w.(objects := w.objects["w" := edited], env := w.env.(registry := []))
  }

  lemma UnregisteredIsStep(w: World)
    requires Good(HOME, w) && w.env == Fresh(SpecOf([], ""), []).env && w.rmd.Keys == {"a"} && "w" in w.objects
    ensures EnvStep(HOME, w, Unregistered(w)) && Good(HOME, Unregistered(w)) && Ready(Unregistered(w), "w")
  {
    EnvStepGood(HOME, w, Unregistered(w));
  }

  /** A node that leaves the registry and the spec together keeps the workload through a clean pass. */
  lemma LeftRegistryKeepsWorkload() returns (w0: World, w1: World, w2: World)
    ensures Start(HOME, w0) && PassStep(w0, w1, "w", []) && EnvStep(HOME, w1, w2)
    ensures Clean(w2) && Ready(w2, "w")
    ensures w2.objects["w"].spec.nodes == [] && w2.objects["w"].spec.nodeSelector == map[]
    ensures var p := Reconcile(w2, "w", []); p.done && "a" in p.world.rmd && Holds(p.world.rmd["a"], "w")
  {
    w0, w1 := PlacedOnce();
    w2 := Unregistered(w1);
    UnregisteredIsStep(w1);
    UnregisteredKeeps(w2);
  }

  lemma OutOfReach(w: World, order: seq<string>)
    requires Good(HOME, w) && Clean(w) && "w" !in w.objects && PossibleOrder(w, "w", order)
    requires w.env.registry == [] && "a" in w.rmd && Holds(w.rmd["a"], "w")
    ensures var p := Reconcile(w, "w", order); p.done && "a" in p.world.rmd && Holds(p.world.rmd["a"], "w")
  {
    FailureNeedsFault(HOME, w, "w", order);
    SuccessExactly(HOME, w, "w", order, "a");
    NoCopies(w.rmd["a"].entries, "w");
  }

  /** When an object is deleted whose node has left the registry, a clean pass reports success and deletes nothing. */
  lemma DeletionMissesUnregistered() returns (w0: World, w1: World, w2: World, order: seq<string>)
    ensures Start(HOME, w0) && PassStep(w0, w1, "w", []) && EnvStep(HOME, w1, w2)
    ensures PostsOnce(w0, "w") && Single(w0.rmd, "w")
    ensures Clean(w2) && "w" !in w2.objects && PossibleOrder(w2, "w", order)
    ensures var p := Reconcile(w2, "w", order); p.done && "a" in p.world.rmd && Holds(p.world.rmd["a"], "w")
  {
    w0, w1 := PlacedOnce();
    w2 := w1.(objects := map[], env := w1.env.(registry := []));
    EnvStepGood(HOME, w1, w2);
    order := OrderIsPossible(w2, "w");
    OutOfReach(w2, order);
  }

  /* ---- a response that is lost ---- */

  /** The POST of a first pass takes effect, and the status that would remember its ID is not stored. */
  lemma StatusLost() returns (w: World, w': World)
    ensures Start(HOME, w) && PassStep(w, w', "w", [])
    ensures Good(HOME, w') && Clean(w') && w'.env == w.env == Fresh(SpecOf([], ""), []).env
    ensures w'.objects == map["w" := Workload(SpecOf(["n"], "old"), map[])]
    ensures w'.rmd == map["a" := ONCE_POSTED]
  {
    var faults := [NoFault, NoFault, NoFault, NoFault, NoFault, Before];
    var spec := SpecOf(["n"], "old");
    w := Fresh(spec, faults);
    FreshStarts(["n"], "old", faults);
    StartGood(HOME, w);
    PassGood(HOME, w, "w", []);
    w' := Reconcile(w, "w", []).world;
    LostInPass(spec);
  }

  lemma LostTarget(w: World)
    requires w == Fresh(SpecOf(["n"], "old"), [NoFault, NoFault, NoFault, NoFault, Before])
    ensures FindTargetedNodes(w, "w", SpecOf(["n"], "old")) ==
            Called(w.(faults := [NoFault, NoFault, Before]), Some([Target("n", "a", false)]))
  {
    var t := GetTargetedNode(w, "n", "w");
    var nodes, found := ["n"], [Target("n", "a", false)];
    assert t == Called(Spent(Spent(w)), Some(found[0])) && t.world.faults == [NoFault, NoFault, Before];
    assert nodes[1..] == [] && [found[0]] + [] == found;
    assert TargetListed(t.world, [], "w") == Called(t.world, Some([]));
    assert TargetListed(w, nodes, "w") == Called(t.world, Some(found));
  }

  lemma LostSent(w: World)
    requires w == Fresh(SpecOf(["n"], "old"), [NoFault, NoFault, Before])
    ensures PostWorkload(w, "w", SpecOf(["n"], "old"), "a") ==
            Called(w.(rmd := map["a" := ONCE_POSTED], faults := [NoFault, Before]), Some(Success(201)))
  {
    assert FormatWorkload(SpecOf(["n"], "old"), []) == Formatted(RequestOf("old"));
    assert Post(IDLE, "w", RequestOf("old")) == ONCE_POSTED;
  }

  lemma LostUpdate(w: World)
    requires w == Fresh(SpecOf(["n"], "old"), [NoFault, Before]).(rmd := map["a" := ONCE_POSTED])
    ensures UpdateRmdWorkloadStatus(w, "w", map[], "n", "a", Success(201)) ==
            Synced(w.(faults := []),
                   map["n" := Refreshed(EMPTY_STATE.(response := Success(201)), ONCE_POSTED.entries[0])], false)
  {
    assert FindWorkloadByName(ONCE_POSTED.entries, "w") == ONCE_POSTED.entries[0];
  }

  lemma LostStatus(w: World)
    requires w == Fresh(SpecOf(["n"], "old"), [NoFault, NoFault, Before])
    ensures SyncTargets(w, "w", SpecOf(["n"], "old"), map[], [Target("n", "a", false)]) ==
            Synced(w.(rmd := map["a" := ONCE_POSTED], faults := []),
                   map["n" := Refreshed(EMPTY_STATE.(response := Success(201)), ONCE_POSTED.entries[0])], false)
  {
    LostSent(w);
    LostUpdate(w.(rmd := map["a" := ONCE_POSTED], faults := [NoFault, Before]));
  }

  lemma LostInPass(spec: Spec)
    requires spec == SpecOf(["n"], "old")
    ensures var w := Fresh(spec, [NoFault, NoFault, NoFault, NoFault, NoFault, Before]);
            Reconcile(w, "w", []) == Pass(w.(rmd := map["a" := ONCE_POSTED], faults := []), false)
  {
    var w := Fresh(spec, [NoFault, NoFault, NoFault, NoFault, NoFault, Before]);
    assert Spent(w) == Fresh(spec, [NoFault, NoFault, NoFault, NoFault, Before]);
    LostTarget(Spent(w));
    LostStatus(Fresh(spec, [NoFault, NoFault, Before]));
  }

  lemma StaleIdKeepsOld(w: World, i: Instance)
    requires Good(HOME, w) && Clean(w) && Ready(w, "w") && ListsOnce(w, "w")
    requires "n" in w.env.addresses && w.env.addresses["n"] == "a" && Aimed(w, w.objects["w"].spec, "n")
    requires "a" in w.rmd && w.rmd["a"] == i && Holds(i, "w")
    requires Find(i, "w").id != StateOf(w.objects["w"].states, "n").id
    requires Formatted(Find(i, "w").config) != FormatAt(w.objects["w"].spec, i)
    ensures var p := Reconcile(w, "w", []);
            && p.done && "a" in p.world.rmd
            && Formatted(Find(p.world.rmd["a"], "w").config) != FormatAt(w.objects["w"].spec, p.world.rmd["a"])
  {
    OnePassPlaces(HOME, w, "w", []);
    OnePassConfiguresExactly(HOME, w, "w", [], "n");
  }

  lemma OldStays(w: World)
    requires Good(HOME, w) && Clean(w) && Ready(w, "w")
    requires w.env == Fresh(SpecOf([], ""), []).env && w.objects == map["w" := Workload(SpecOf(["n"], "new"), map[])]
    requires w.rmd == map["a" := ONCE_POSTED]
    ensures Aimed(w, w.objects["w"].spec, "n")
    ensures var p := Reconcile(w, "w", []);
            && p.done && "a" in p.world.rmd
            && Formatted(Find(p.world.rmd["a"], "w").config) != FormatAt(w.objects["w"].spec, p.world.rmd["a"])
  {
    var i := w.rmd["a"];
    assert i.entries[0] in i.entries && Find(i, "w") == i.entries[0];
    assert "old"[0] != "new"[0];
    StaleIdKeepsOld(w, i);
  }

  lemma EditedIsStep(w: World, w': World)
    requires Good(HOME, w) && w.env == Fresh(SpecOf([], ""), []).env && w.rmd.Keys == {"a"}
    requires w' == w.(objects := map["w" := Workload(SpecOf(["n"], "new"), map[])])
    ensures EnvStep(HOME, w, w') && Good(HOME, w') && Ready(w', "w")
  {
    EnvStepGood(HOME, w, w');
  }

  /** When the spec is edited before the next pass, that pass meets no fault and leaves the old configuration. */
  lemma OldConfigurationStays() returns (w0: World, w1: World, w2: World)
    ensures Start(HOME, w0) && PassStep(w0, w1, "w", []) && EnvStep(HOME, w1, w2)
    ensures Clean(w2) && Ready(w2, "w") && Aimed(w2, w2.objects["w"].spec, "n")
    ensures var p := Reconcile(w2, "w", []);
            && p.done && "a" in p.world.rmd
            && Formatted(Find(p.world.rmd["a"], "w").config) != FormatAt(w2.objects["w"].spec, p.world.rmd["a"])
  {
    w0, w1 := StatusLost();
    w2 := w1.(objects := map["w" := Workload(SpecOf(["n"], "new"), map[])]);
    EditedIsStep(w1, w2);
    OldStays(w2);
  }

  /* ---- an RMD that moves ---- */

  const TWO_HOMES: map<string, string> := map["n" := "a", "m" := "b"]

  /** An instance of the second node on which v and w run. */
  const NEIGHBOUR := Instance(
    [Entry(Id(0), "v", RequestOf("old")), Entry(Id(1), "w", RequestOf("gold"))], ["v", "w"], [])

  /** The first node is served by one instance, on which w has an ID that the status of w remembers. */
  function Apart(): World {
    World(Env([Node("n", map[])], None, map["n" := "a"], ["n"]),
          map["w" := Workload(SpecOf(["n"], "gold"), map["n" := EMPTY_STATE.(id := Id(0))])],
          map["a" := Instance([Entry(Id(0), "w", RequestOf("gold"))], ["w"], []), "b" := NEIGHBOUR],
          [])
  }

  /** Now the first node is served by the other one. */
  function Moved(): World {
    Apart().(env := Apart().env.(addresses := map["n" := "b"]))
  }

  lemma InstancesAreGood()
    ensures WellFormed(Apart().rmd["a"]) && WellFormed(NEIGHBOUR) && Holds(NEIGHBOUR, "w")
    ensures IssuedTo(Apart().rmd["a"], Id(0), "w") && NEIGHBOUR.entries[0] in NEIGHBOUR.entries
  {
    assert NEIGHBOUR.entries[1] in NEIGHBOUR.entries;
  }

  lemma ApartIsGood()
    ensures Good(TWO_HOMES, Apart())
  {
    InstancesAreGood();
  }

  lemma MovedIsOrderly()
    ensures Orderly(Moved(), "w") && Clean(Moved()) && Ready(Moved(), "w") && Aimed(Moved(), SpecOf(["n"], "gold"), "n")
    ensures FormatAt(SpecOf(["n"], "gold"), NEIGHBOUR) == Formatted(RequestOf("gold"))
  {
    InstancesAreGood();
  }

  /**
   What a fixed address is needed for: when a node's RMD moves to an instance that issued the remembered
   ID to another name, a clean pass for w gives the workload v the configuration of w.
   */
  lemma MovedAddressMixesIds()
    ensures Good(TWO_HOMES, Apart()) && PossibleOrder(Moved(), "w", [])
    ensures Entry(Id(0), "v", RequestOf("old")) in Moved().rmd["b"].entries
    ensures var after := Reconcile(Moved(), "w", []).world.rmd;
            "b" in after && Entry(Id(0), "v", RequestOf("gold")) in after["b"].entries
  {
    ApartIsGood();
    MovedIsOrderly();
    InstancesAreGood();
    PatchHitsRemembered(Moved(), "w", [], "n", NEIGHBOUR.entries[0]);
  }
}

/**
 The shared node list over time: the RmdConfig controller feeds it with the labelled nodes
 (pkg/controller/rmdconfig/rmdconfig_controller.go) and the RmdNodeState controller takes a node out
 when its node state is gone (pkg/controller/rmdnodestate/rmdnodestate_controller.go).
 */
module Registry {
  import opened Basics
  import opened Text
  import opened Names
  import opened NodeData
  import opened RmdServer
  import opened Passes

  /* ---- the list as an ordered set ---- */

  function Insert(list: seq<string>, node: string): seq<string> {
    if node in list then list else list + [node]
  }

  function Fed(list: seq<string>, nodes: seq<string>): seq<string>
    decreases |nodes|
  {
    if nodes == [] then list else Fed(Insert(list, nodes[0]), nodes[1..])
  }

  /** A step of either controller: nodes fed by a pass that got this far, or a node state found gone. */
  datatype Step = Feed(nodes: seq<string>) | Forget(nodeState: string)

  function AfterStep(list: seq<string>, step: Step): seq<string> {
    match step
    case Feed(nodes) => Fed(list, nodes)
    case Forget(nodeState) => Remove(list, NodeOfNodeState(nodeState))
  }

  function AfterAll(steps: seq<Step>): seq<string> {
    if steps == [] then [] else AfterStep(AfterAll(steps[..|steps| - 1]), steps[|steps| - 1])
  }

  lemma {:induction false} FedMeaning(list: seq<string>, nodes: seq<string>)
    ensures forall n :: n in Fed(list, nodes) <==> n in list || n in nodes
    ensures NoDuplicates(list) ==> NoDuplicates(Fed(list, nodes))
    ensures list <= Fed(list, nodes)
    decreases |nodes|
  {
    if nodes != [] {
      FedMeaning(Insert(list, nodes[0]), nodes[1..]);
    }
  }

  ghost predicate Gives(step: Step, node: string) {
    step.Feed? && node in step.nodes
  }

  ghost predicate Takes(step: Step, node: string) {
    step.Forget? && NodeOfNodeState(step.nodeState) == node
  }

  /** The history says that the node was fed after it was last forgotten. */
  ghost predicate FedLast(steps: seq<Step>, node: string) {
    exists k :: 0 <= k < |steps| && Gives(steps[k], node) && forall j :: k < j < |steps| ==> !Takes(steps[j], node)
  }

  lemma FedLastStep(steps: seq<Step>, node: string)
    requires steps != []
    ensures FedLast(steps, node) <==>
              || Gives(steps[|steps| - 1], node)
              || (FedLast(steps[..|steps| - 1], node) && !Takes(steps[|steps| - 1], node))
  {
  }

  /**
   Over every interleaving of the two controllers the list has no duplicates and holds exactly the
   nodes that were fed after they were last forgotten.
   */
  lemma {:induction false} RegistryIsExact(steps: seq<Step>, node: string)
    ensures NoDuplicates(AfterAll(steps))
    ensures node in AfterAll(steps) <==> FedLast(steps, node)
    decreases |steps|
  {
    if steps != [] {
      var n := |steps| - 1;
      RegistryIsExact(steps[..n], node);
      FedLastStep(steps, node);
      var list := AfterAll(steps[..n]);
      match steps[n] {
        case Feed(nodes) => FedMeaning(list, nodes);
        case Forget(nodeState) =>
          RemoveContains(list, NodeOfNodeState(nodeState));
          RemoveKeepsDistinct(list, NodeOfNodeState(nodeState));
      }
    }
  }

  /** When the state of a node is deleted, that node leaves the list, if its name decodes. */
  lemma DeletedStateForgetsItsNode(steps: seq<Step>, node: string)
    requires !Contains(node, NODE_STATE_PREFIX)
    ensures var list := AfterAll(steps + [Forget(NodeStateName(node))]);
            node !in list && forall n :: n != node ==> (n in list <==> n in AfterAll(steps))
  {
    var all := steps + [Forget(NodeStateName(node))];
    assert all[..|all| - 1] == steps;
    NodeStateRoundTrip(node);
    RemoveContains(AfterAll(steps), node);
  }

  /** A listed node whose name contains the prefix stays listed when its state is deleted. */
  lemma UndecodableNodeStays(steps: seq<Step>, node: string)
    requires Contains(node, NODE_STATE_PREFIX) && node in AfterAll(steps)
    ensures node in AfterAll(steps + [Forget(NodeStateName(node))])
  {
    var all := steps + [Forget(NodeStateName(node))];
    assert all[..|all| - 1] == steps;
    NodeStateRoundTrip(node);
    RemoveContains(AfterAll(steps), NodeOfNodeState(NodeStateName(node)));
  }

  /** Some other listed node is taken out instead exactly when what the name decodes to is listed. */
  lemma DeletedStateTakesAnother(steps: seq<Step>, node: string)
    ensures (exists n ::
               n != node && n in AfterAll(steps) && n !in AfterAll(steps + [Forget(NodeStateName(node))])) <==>
            Contains(node, NODE_STATE_PREFIX) && RemoveAll(node, NODE_STATE_PREFIX) in AfterAll(steps)
  {
    var all, decoded := steps + [Forget(NodeStateName(node))], RemoveAll(node, NODE_STATE_PREFIX);
    assert all[..|all| - 1] == steps;
    NodeStateDecodes(node);
    RemoveAllIdentity(node, NODE_STATE_PREFIX);
    RemoveContains(AfterAll(steps), decoded);
    assert decoded !in AfterAll(all);
  }

  /** Deleting the state of node rmd-node-state-a takes node a out of the list, and not that node. */
  lemma WrongNodeForgotten()
    ensures var steps := [Feed(["a", "rmd-node-state-a"])];
            var list := AfterAll(steps + [Forget(NodeStateName("rmd-node-state-a"))]);
            && "a" in AfterAll(steps) && "rmd-node-state-a" in AfterAll(steps)
            && "a" !in list && "rmd-node-state-a" in list
  {
    var node := "rmd-node-state-a";
    var steps := [Feed(["a", node])];
    assert steps[..0] == [];
    FedMeaning([], ["a", node]);
    assert "a" in ["a", node] && node in ["a", node];
    var all := steps + [Forget(NodeStateName(node))];
    assert all[..1] == steps;
    assert NODE_STATE_PREFIX <= node && node[|NODE_STATE_PREFIX|..] == "a";
    NodeStateDecodes(node);
    RemoveContains(AfterAll(steps), "a");
  }

  /* ---- the RmdConfig controller ---- */

  /** The node states, by name with their node, the faults to come, and the list. */
  datatype Feeding = Feeding(nodeStates: map<string, string>, faults: seq<Fault>, list: seq<string>)

  function FaultOf(f: Feeding): Fault {
    if f.faults == [] then NoFault else f.faults[0]
  }

  function Past(f: Feeding): Feeding {
    if f.faults == [] then f else f.(faults := f.faults[1..])
  }

  /** A failed lookup other than "not found" is passed over: nothing is created and nothing reported. */
  function CreateIfNotPresent(f: Feeding, node: string): (Feeding, bool) {
    var g := Past(f);
    if !FaultOf(f).NoFault? || NodeStateName(node) in f.nodeStates then (g, true)
    else
      var h := Past(g);
      if FaultOf(g).Before? then (h, false)
      else (h.(nodeStates := h.nodeStates[NodeStateName(node) := node]), FaultOf(g).NoFault?)
  }

  /** What becomes of one node under the faults of its two calls: a Get, and a Create when the Get finds nothing. */
  lemma CreateExactly(f: Feeding, node: string)
    ensures var name := "rmd-node-state-" + node;
            var first := if |f.faults| > 0 then f.faults[0] else NoFault;
            var second := if |f.faults| > 1 then f.faults[1] else NoFault;
            var creates := first == NoFault && name !in f.nodeStates;
            var (g, ok) := CreateIfNotPresent(f, node);
            && (ok <==> !creates || second == NoFault)
            && g.nodeStates == (if creates && second != Before then f.nodeStates[name := node] else f.nodeStates)
            && g.faults == f.faults[if creates && |f.faults| > 1 then 2 else if |f.faults| > 0 then 1 else 0..]
            && g.list == f.list
  {
  }

  /** A pass fails only when it meets a fault, and one that succeeds has fed every node. */
  lemma {:induction false} FeedNeedsFault(f: Feeding, nodes: seq<string>)
    ensures var (g, ok) := FeedAll(f, nodes);
            && FaultsLeft(g.faults) + (if ok then 0 else 1) <= FaultsLeft(f.faults)
            && (ok ==> forall n :: n in f.list || n in nodes <==> n in g.list)
    decreases |nodes|
  {
    if nodes != [] {
      var (h, created) := CreateIfNotPresent(f, nodes[0]);
      CreateExactly(f, nodes[0]);
      CreateSpends(f, nodes[0]);
      if created {
        FeedNeedsFault(h.(list := Insert(h.list, nodes[0])), nodes[1..]);
      }
    }
  }

  lemma CreateSpends(f: Feeding, node: string)
    ensures var (g, ok) := CreateIfNotPresent(f, node);
            FaultsLeft(g.faults) + (if ok then 0 else 1) <= FaultsLeft(f.faults)
  {
    var g := Past(f);
    assert FaultsLeft(f.faults) == FaultsLeft(g.faults) + if FaultOf(f).NoFault? then 0 else 1;
    assert FaultsLeft(g.faults) == FaultsLeft(Past(g).faults) + if FaultOf(g).NoFault? then 0 else 1;
  }

  function FeedAll(f: Feeding, nodes: seq<string>): (Feeding, bool)
    decreases |nodes|
  {
    if nodes == [] then (f, true)
    else
      var (g, ok) := CreateIfNotPresent(f, nodes[0]);
      if !ok then (g, false) else FeedAll(g.(list := Insert(g.list, nodes[0])), nodes[1..])
  }

  /** A pass feeds some first part of the labelled nodes, all of them unless it fails, and forgets no node state. */
  lemma {:induction false} FeedAllIsAFeed(f: Feeding, nodes: seq<string>)
    ensures var (g, ok) := FeedAll(f, nodes);
            && (exists k :: 0 <= k <= |nodes| && (ok <==> k == |nodes|) && g.list == Fed(f.list, nodes[..k]))
            && Within(f.nodeStates, g.nodeStates)
    decreases |nodes|
  {
    var (g, ok) := FeedAll(f, nodes);
    if nodes == [] {
      assert g.list == Fed(f.list, nodes[..0]);
    } else {
      var (h, created) := CreateIfNotPresent(f, nodes[0]);
      if created {
        var fed := h.(list := Insert(h.list, nodes[0]));
        FeedAllIsAFeed(fed, nodes[1..]);
        var k :| 0 <= k <= |nodes[1..]| && (ok <==> k == |nodes[1..]|) && g.list == Fed(fed.list, nodes[1..][..k]);
        assert nodes[..k + 1][1..] == nodes[1..][..k];
        assert g.list == Fed(f.list, nodes[..k + 1]);
      } else {
        assert g.list == Fed(f.list, nodes[..0]);
      }
    }
  }

  /** Every node state of `g` was there in `f` or is that of one of the nodes. */
  ghost predicate CreatedFor(f: Feeding, g: Feeding, nodes: seq<string>) {
    forall s :: s in g.nodeStates && s !in f.nodeStates ==>
        g.nodeStates[s] in nodes && NodeStateName(g.nodeStates[s]) == s
  }

  lemma CreateOne(f: Feeding, node: string)
    ensures var (g, ok) := CreateIfNotPresent(f, node);
            && CreatedFor(f, g, [node]) && Within(f.nodeStates, g.nodeStates)
            && (FaultsLeft(f.faults) == 0 ==> ok && NodeStateName(node) in g.nodeStates && FaultsLeft(g.faults) == 0)
  {
    var g := Past(f);
    assert FaultsLeft(f.faults) == FaultsLeft(g.faults) + if FaultOf(f).NoFault? then 0 else 1;
    assert FaultsLeft(g.faults) == FaultsLeft(Past(g).faults) + if FaultOf(g).NoFault? then 0 else 1;
  }

  /** A pass adds no node states but those of the nodes, and all of them when nothing fails. */
  lemma {:induction false} FeedCreatesStates(f: Feeding, nodes: seq<string>)
    ensures var (g, ok) := FeedAll(f, nodes);
            && CreatedFor(f, g, nodes)
            && (FaultsLeft(f.faults) == 0 ==> ok && forall n :: n in nodes ==> NodeStateName(n) in g.nodeStates)
    decreases |nodes|
  {
    if nodes != [] {
      var (h, created) := CreateIfNotPresent(f, nodes[0]);
      CreateOne(f, nodes[0]);
      if created {
        var fed := h.(list := Insert(h.list, nodes[0]));
        FeedCreatesStates(fed, nodes[1..]);
        FeedAllIsAFeed(fed, nodes[1..]);
        CreatedTwice(f, h, fed, FeedAll(fed, nodes[1..]).0, nodes);
      }
    }
  }

  lemma CreatedTwice(f: Feeding, h: Feeding, fed: Feeding, g: Feeding, nodes: seq<string>)
    requires nodes != [] && CreatedFor(f, h, [nodes[0]]) && fed.nodeStates == h.nodeStates
    requires CreatedFor(fed, g, nodes[1..]) && Within(fed.nodeStates, g.nodeStates)
    ensures CreatedFor(f, g, nodes)
  {
  }

  class ReconcileRmdConfig {
    var nodeStates: map<string, string>
    var faults: seq<Fault>
    var statusNodes: seq<string>
    const rmdNodeData: RmdNodeData

    constructor (rmdNodeData: RmdNodeData)
      ensures this.rmdNodeData == rmdNodeData && nodeStates == map[] && faults == [] && statusNodes == []
    {
      this.rmdNodeData := rmdNodeData;
      nodeStates, faults, statusNodes := map[], [], [];
    }

    function View(): Feeding
      requires rmdNodeData.Valid()
      reads this, rmdNodeData, rmdNodeData.backing
    {
      Feeding(nodeStates, faults, rmdNodeData.List())
    }

    method CreateNodeStateIfNotPresent(nodeName: string) returns (ok: bool)
      requires rmdNodeData.Valid()
      modifies this
      ensures rmdNodeData.Valid() && (View(), ok) == CreateIfNotPresent(old(View()), nodeName)
      ensures statusNodes == old(statusNodes)
    {
      var getFault := if faults == [] then NoFault else faults[0];
      faults := if faults == [] then faults else faults[1..];
      if !getFault.NoFault? || NodeStateName(nodeName) in nodeStates {
        return true;
      }
      var createFault := if faults == [] then NoFault else faults[0];
      faults := if faults == [] then faults else faults[1..];
      if createFault.Before? {
        return false;
      }
      nodeStates := nodeStates[NodeStateName(nodeName) := nodeName];
      ok := createFault.NoFault?;
    }

    /** The part of a pass after the labelled nodes are listed. */
    method Feed(labelledNodes: seq<string>) returns (ok: bool)
      requires rmdNodeData.Valid()
      modifies this, rmdNodeData, rmdNodeData.backing
      ensures rmdNodeData.Valid() && (View(), ok) == FeedAll(old(View()), labelledNodes)
      ensures statusNodes == if ok && labelledNodes != [] then rmdNodeData.List() else old(statusNodes)
    {
      if labelledNodes == [] {
        return true;
      }
      for i := 0 to |labelledNodes|
        invariant rmdNodeData.Valid() && (rmdNodeData.backing == old(rmdNodeData.backing) || fresh(rmdNodeData.backing))
        invariant statusNodes == old(statusNodes)
        invariant FeedAll(old(View()), labelledNodes) == FeedAll(View(), labelledNodes[i..])
      {
        assert labelledNodes[i..][0] == labelledNodes[i] && labelledNodes[i..][1..] == labelledNodes[i + 1..];
        var created := CreateNodeStateIfNotPresent(labelledNodes[i]);
        if !created {
          return false;
        }
        rmdNodeData.UpdateRmdNodeData(labelledNodes[i]);
      }
      statusNodes := rmdNodeData.List();
      ok := true;
    }
  }

  /* ---- the RmdNodeState controller ---- */

  class ReconcileRmdNodeState {
    const rmdNodeData: RmdNodeData
    var workloads: map<string, Entry>

    constructor (rmdNodeData: RmdNodeData)
      ensures this.rmdNodeData == rmdNodeData && workloads == map[]
    {
      this.rmdNodeData := rmdNodeData;
      workloads := map[];
    }

    /** The branch for a node state that is not found. */
    method ForgetDeleted(requestName: string) returns (panicked: bool)
      requires rmdNodeData.Valid()
      modifies rmdNodeData, rmdNodeData.backing
      ensures rmdNodeData.Valid()
      ensures panicked <==> LastIsRepeated(old(rmdNodeData.List()), NodeOfNodeState(requestName))
      ensures !panicked ==> rmdNodeData.List() == RemoveSkipping(old(rmdNodeData.List()), NodeOfNodeState(requestName))
      ensures NoDuplicates(old(rmdNodeData.List())) ==>
                !panicked && rmdNodeData.List() == AfterStep(old(rmdNodeData.List()), Forget(requestName))
    {
      var nodeName := NodeOfNodeState(requestName);
      panicked := rmdNodeData.DeleteRmdNodeData(nodeName);
    }

    /** Rebuilds the status of a node state from the workloads its instance reports. */
    method RebuildWorkloads(existingWorkloads: seq<Entry>)
      modifies this
      ensures workloads == ByUuid(existingWorkloads)
    {
      var workloadMap: map<string, Entry> := map[];
      for i := 0 to |existingWorkloads|
        invariant workloadMap == ByUuid(existingWorkloads[..i])
      {
        assert existingWorkloads[..i + 1][..i] == existingWorkloads[..i];
        workloadMap := workloadMap[existingWorkloads[i].uuid := existingWorkloads[i]];
      }
      assert existingWorkloads[..|existingWorkloads|] == existingWorkloads;
      workloads := workloadMap;
    }
  }

  function ByUuid(entries: seq<Entry>): map<string, Entry> {
    if entries == [] then map[]
    else
      var last := entries[|entries| - 1];
      ByUuid(entries[..|entries| - 1])[last.uuid := last]
  }

  lemma {:induction false} ByUuidKeys(entries: seq<Entry>)
    ensures forall e :: e in entries ==> e.uuid in ByUuid(entries)
    ensures forall u :: u in ByUuid(entries) ==> ByUuid(entries)[u] in entries && ByUuid(entries)[u].uuid == u
  {
    if entries != [] {
      ByUuidKeys(entries[..|entries| - 1]);
      assert entries == entries[..|entries| - 1] + [entries[|entries| - 1]];
    }
  }

  /** Entry `k` has the name, and none after it does. */
  ghost predicate IsLastOf(entries: seq<Entry>, name: string, k: nat) {
    k < |entries| && entries[k].uuid == name && forall j :: k < j < |entries| ==> entries[j].uuid != name
  }

  /** The rebuilt status holds, under each name, the last entry of that name. */
  lemma {:induction false} ByUuidExactly(entries: seq<Entry>, name: string)
    ensures name in ByUuid(entries) <==> exists k: nat :: IsLastOf(entries, name, k)
    ensures forall k: nat :: IsLastOf(entries, name, k) ==>
              name in ByUuid(entries) && ByUuid(entries)[name] == entries[k]
  {
    if entries != [] {
      var n := |entries| - 1;
      ByUuidExactly(entries[..n], name);
      if entries[n].uuid == name {
        assert IsLastOf(entries, name, n);
      } else {
        assert forall k: nat :: IsLastOf(entries, name, k) <==> IsLastOf(entries[..n], name, k);
      }
    }
  }

  /** Every workload of the instance appears in the rebuilt status exactly when no name is held twice. */
  lemma StatusIsFaithful(i: Instance)
    requires WellFormed(i)
    ensures (forall e :: e in i.entries ==> e.uuid in ByUuid(i.entries) && ByUuid(i.entries)[e.uuid] == e) <==>
              UniqueNames(i)
  {
    ByUuidKeys(i.entries);
    if UniqueNames(i) {
      forall e | e in i.entries
        ensures ByUuid(i.entries)[e.uuid] == e
      {
        OneCopy(i.entries, e.uuid);
        var f := ByUuid(i.entries)[e.uuid];
        var j :| 0 <= j < |i.entries| && i.entries[j] == e;
        var k :| 0 <= k < |i.entries| && i.entries[k] == f;
        assert !(j < k) && !(k < j);
      }
    } else {
      var name :| Copies(i.entries, name) > 1;
      OneCopy(i.entries, name);
      var j, k :| 0 <= j < k < |i.entries| && i.entries[j].uuid == name && i.entries[k].uuid == name;
      assert i.entries[j].id != i.entries[k].id;
      assert i.entries[j] in i.entries && i.entries[k] in i.entries;
    }
  }
}

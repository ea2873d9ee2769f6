/**
 What every pass keeps, whatever calls fail: the IDs stored for an object were issued to it, requests
 made for one object change no workload of another, and an object gets a second copy of its workload
 only on a node that it lists more than once.
 */
module Safety {
  import opened Basics
  import opened RmdClient
  import opened RmdServer
  import opened Passes

  /** Every ID stored for object `name` was issued to that name by the instance of its node. */
  ghost predicate Owned(home: map<string, string>, rmd: map<string, Instance>, name: string, states: States) {
    forall n :: n in states && states[n].id.Id? ==>
      n in home && home[n] in rmd && IssuedTo(rmd[home[n]], states[n].id, name)
  }

  /** `home` is the fixed placement of nodes on addresses; at any time only some of them resolve. */
  ghost predicate Inv(home: map<string, string>, w: World) {
    && Injective(home)
    && Within(w.env.addresses, home)
    && (forall a :: a in w.rmd ==> WellFormed(w.rmd[a]))
    && (forall m :: m in w.objects ==> Owned(home, w.rmd, m, w.objects[m].states))
  }

  /** No instance holds more than one workload of that name. */
  ghost predicate Single(rmd: map<string, Instance>, name: string) {
    forall a :: a in rmd ==> Copies(rmd[a].entries, name) <= 1
  }

  ghost predicate RmdOnlyFor(rmd: map<string, Instance>, rmd': map<string, Instance>, name: string) {
    && rmd'.Keys == rmd.Keys
    && forall a :: a in rmd ==> OnlyFor(rmd[a], rmd'[a], name)
  }

  /** From `w` to `w'` only the status of `name` and workloads called `name` may have changed. */
  ghost predicate Frame(w: World, w': World, name: string) {
    && w'.env == w.env
    && FaultsLeft(w'.faults) <= FaultsLeft(w.faults)
    && RmdOnlyFor(w.rmd, w'.rmd, name)
    && w'.objects.Keys == w.objects.Keys
    && forall m :: m in w.objects ==>
         w'.objects[m].spec == w.objects[m].spec && (m != name ==> w'.objects[m] == w.objects[m])
  }

  lemma FrameTransitive(u: World, v: World, w: World, name: string)
    requires Frame(u, v, name) && Frame(v, w, name)
    ensures Frame(u, w, name)
  {
  }

  /* ---- one changed instance ---- */

  lemma ChangeOwned(home: map<string, string>, rmd: map<string, Instance>, rmd': map<string, Instance>,
                    name: string, m: string, states: States)
    requires RmdOnlyFor(rmd, rmd', name) && Owned(home, rmd, m, states)
    ensures Owned(home, rmd', m, states)
  {
  }

  lemma ChangeKeeps(home: map<string, string>, w: World, w': World, name: string, states: States)
    requires Inv(home, w) && Owned(home, w.rmd, name, states)
    requires w'.env == w.env && w'.objects == w.objects && RmdOnlyFor(w.rmd, w'.rmd, name)
    requires forall a :: a in w'.rmd ==> WellFormed(w'.rmd[a])
    ensures Inv(home, w') && Owned(home, w'.rmd, name, states)
  {
    ChangeOwned(home, w.rmd, w'.rmd, name, name, states);
    forall m | m in w.objects
      ensures Owned(home, w'.rmd, m, w.objects[m].states)
    {
      ChangeOwned(home, w.rmd, w'.rmd, name, m, w.objects[m].states);
    }
  }

  /* ---- requests ---- */

  /** What a request to `address` made for `name` may do, and what it may not. */
  ghost predicate RequestKeeps(home: map<string, string>, w: World, w': World, name: string, states: States,
                               address: string)
  {
    && Inv(home, w') && Owned(home, w'.rmd, name, states) && Frame(w, w', name)
    && w'.objects == w.objects
    && (forall a :: a in w.rmd && a != address ==> w'.rmd[a] == w.rmd[a])
  }

  lemma OneChange(home: map<string, string>, w: World, w': World, address: string, i: Instance, name: string,
                  states: States)
    requires Inv(home, w) && Owned(home, w.rmd, name, states)
    requires address in w.rmd && WellFormed(i) && OnlyFor(w.rmd[address], i, name)
    requires w' == w.(rmd := w.rmd[address := i], faults := w'.faults) && FaultsLeft(w'.faults) <= FaultsLeft(w.faults)
    ensures RequestKeeps(home, w, w', name, states, address)
    ensures Single(w.rmd, name) && Copies(i.entries, name) <= 1 ==> Single(w'.rmd, name)
  {
    assert RmdOnlyFor(w.rmd, w'.rmd, name);
    ChangeKeeps(home, w, w', name, states);
  }

  lemma PostSafe(home: map<string, string>, w: World, address: string, payload: Payload, name: string, states: States)
    requires Inv(home, w) && Owned(home, w.rmd, name, states)
    ensures RequestKeeps(home, w, Send(w, address, payload, true, name, NoId).world, name, states, address)
    ensures Single(w.rmd, name) && (address in w.rmd ==> !Holds(w.rmd[address], name)) ==>
              Single(Send(w, address, payload, true, name, NoId).world.rmd, name)
  {
    var w' := Send(w, address, payload, true, name, NoId).world;
    if w'.rmd != w.rmd {
      PostKeeps(w.rmd[address], name, payload);
      NoCopies(w.rmd[address].entries, name);
      OneChange(home, w, w', address, Post(w.rmd[address], name, payload), name, states);
    }
  }

  lemma PatchSafe(home: map<string, string>, w: World, address: string, payload: Payload, name: string, id: WorkloadId,
                  states: States)
    requires Inv(home, w) && Owned(home, w.rmd, name, states)
    requires address in w.rmd ==> IssuedTo(w.rmd[address], id, name)
    ensures RequestKeeps(home, w, Send(w, address, payload, false, "", id).world, name, states, address)
    ensures Single(w.rmd, name) ==> Single(Send(w, address, payload, false, "", id).world.rmd, name)
  {
    var w' := Send(w, address, payload, false, "", id).world;
    if w'.rmd != w.rmd {
      PatchKeeps(w.rmd[address], id, payload, name);
      OneChange(home, w, w', address, Patch(w.rmd[address], id, payload), name, states);
    }
  }

  lemma FormatRequestReads(w: World, spec: Spec, address: string)
    ensures OnlyRead(w, FormatRequest(w, spec, address).0)
  {
  }

  /** The request of a target, whichever it is. */
  function Request(w: World, name: string, spec: Spec, states: States, t: Target): Called<Response> {
    if !t.present then PostWorkload(w, name, spec, t.address)
    else PatchWorkload(w, spec, t.address, StateOf(states, t.node).id)
  }

  lemma InvIgnoresTape(home: map<string, string>, w: World, w1: World, name: string, states: States)
    requires OnlyRead(w, w1) && Inv(home, w) && Owned(home, w.rmd, name, states)
    ensures Inv(home, w1) && Owned(home, w1.rmd, name, states)
    ensures forall w', address :: RequestKeeps(home, w1, w', name, states, address) ==>
              RequestKeeps(home, w, w', name, states, address)
  {
  }

  lemma PostWorkloadSafe(home: map<string, string>, w: World, name: string, spec: Spec, address: string, states: States)
    requires Inv(home, w) && Owned(home, w.rmd, name, states)
    ensures RequestKeeps(home, w, PostWorkload(w, name, spec, address).world, name, states, address)
    ensures Single(w.rmd, name) && (address in w.rmd ==> !Holds(w.rmd[address], name)) ==>
              Single(PostWorkload(w, name, spec, address).world.rmd, name)
  {
    FormatRequestReads(w, spec, address);
    var (w1, format) := FormatRequest(w, spec, address);
    InvIgnoresTape(home, w, w1, name, states);
    if format.Formatted? {
      PostSafe(home, w1, address, format.payload, name, states);
    }
  }

  lemma PatchWorkloadSafe(home: map<string, string>, w: World, name: string, spec: Spec, address: string,
                          id: WorkloadId, states: States)
    requires Inv(home, w) && Owned(home, w.rmd, name, states)
    requires address in w.rmd ==> IssuedTo(w.rmd[address], id, name)
    ensures RequestKeeps(home, w, PatchWorkload(w, spec, address, id).world, name, states, address)
    ensures Single(w.rmd, name) ==> Single(PatchWorkload(w, spec, address, id).world.rmd, name)
  {
    FormatRequestReads(w, spec, address);
    var (w1, format) := FormatRequest(w, spec, address);
    InvIgnoresTape(home, w, w1, name, states);
    if format.Formatted? {
      PatchSafe(home, w1, address, format.payload, name, id, states);
    }
  }

  lemma RequestSafe(home: map<string, string>, w: World, name: string, spec: Spec, states: States, t: Target)
    requires Inv(home, w) && Owned(home, w.rmd, name, states)
    requires t.node in w.env.addresses && w.env.addresses[t.node] == t.address
    ensures RequestKeeps(home, w, Request(w, name, spec, states, t).world, name, states, t.address)
    ensures Single(w.rmd, name) && (!t.present && t.address in w.rmd ==> !Holds(w.rmd[t.address], name)) ==>
              Single(Request(w, name, spec, states, t).world.rmd, name)
  {
    if t.present {
      PatchWorkloadSafe(home, w, name, spec, t.address, StateOf(states, t.node).id, states);
    } else {
      PostWorkloadSafe(home, w, name, spec, t.address, states);
    }
  }

  lemma DeleteWorkloadKeeps(home: map<string, string>, w: World, address: string, id: WorkloadId, name: string,
                            states: States)
    requires Inv(home, w) && Owned(home, w.rmd, name, states)
    requires address in w.rmd ==> IssuedTo(w.rmd[address], id, name)
    ensures RequestKeeps(home, w, DeleteWorkload(w, address, id).0, name, states, address)
    ensures forall a :: a in w.rmd ==>
              Copies(DeleteWorkload(w, address, id).0.rmd[a].entries, name) <= Copies(w.rmd[a].entries, name)
  {
    var w' := DeleteWorkload(w, address, id).0;
    if w'.rmd != w.rmd {
      DeleteKeeps(w.rmd[address], id, name);
      OneChange(home, w, w', address, Delete(w.rmd[address], id), name, states);
    }
  }

  lemma StoreStatusKeeps(home: map<string, string>, w: World, name: string, states: States)
    requires Inv(home, w) && Owned(home, w.rmd, name, states)
    ensures Inv(home, StoreStatus(w, name, states).0) && Frame(w, StoreStatus(w, name, states).0, name)
    ensures StoreStatus(w, name, states).0.rmd == w.rmd
  {
  }

  /** An ID found under a name on a well-formed instance was issued to that name. */
  lemma FoundIssued(i: Instance, name: string)
    requires WellFormed(i)
    ensures IssuedTo(i, Find(i, name).id, name)
    ensures Find(i, name).id.Id? <==> Holds(i, name)
  {
  }

  /* ---- targets ---- */

  /** The target of a node is looked up where the node lives. */
  ghost predicate TargetsAt(w: World, targets: seq<Target>) {
    forall t :: t in targets ==> t.node in w.env.addresses && w.env.addresses[t.node] == t.address
  }

  /** A target that is still to be posted holds no workload of that name yet, and is not met again. */
  ghost predicate Pending(w: World, name: string, targets: seq<Target>) {
    && (forall t :: t in targets && !t.present && t.address in w.rmd ==> !Holds(w.rmd[t.address], name))
    && (forall j, k :: 0 <= j < k < |targets| && targets[j].node == targets[k].node ==>
          targets[j].present && targets[k].present)
  }

  ghost predicate SyncKeeps(home: map<string, string>, w: World, s: Synced, name: string) {
    Inv(home, s.world) && Owned(home, s.world.rmd, name, s.states) && Frame(w, s.world, name)
  }

  lemma UpdateStatusKeeps(home: map<string, string>, w: World, name: string, states: States, node: string,
                          address: string, response: Response)
    requires Inv(home, w) && Owned(home, w.rmd, name, states)
    requires node in w.env.addresses && w.env.addresses[node] == address
    ensures SyncKeeps(home, w, UpdateRmdWorkloadStatus(w, name, states, node, address, response), name)
    ensures UpdateRmdWorkloadStatus(w, name, states, node, address, response).world.rmd == w.rmd
  {
    var g := GetWorkloads(w, address);
    var s := UpdateRmdWorkloadStatus(w, name, states, node, address, response);
    if g.result.Some? {
      FoundIssued(w.rmd[address], name);
    }
    assert Owned(home, w.rmd, name, s.states);
    StoreStatusKeeps(home, g.world, name, s.states);
  }

  lemma SyncTargetKeeps(home: map<string, string>, w: World, name: string, spec: Spec, states: States, t: Target)
    requires Inv(home, w) && Owned(home, w.rmd, name, states)
    requires TargetsAt(w, [t])
    ensures SyncKeeps(home, w, SyncTarget(w, name, spec, states, t), name)
    ensures forall a :: a in w.rmd && a != t.address ==> SyncTarget(w, name, spec, states, t).world.rmd[a] == w.rmd[a]
    ensures Single(w.rmd, name) && Pending(w, name, [t]) ==>
              Single(SyncTarget(w, name, spec, states, t).world.rmd, name)
  {
    assert t in [t];
    RequestSafe(home, w, name, spec, states, t);
    var sent := Request(w, name, spec, states, t);
    if sent.result.Some? {
      UpdateStatusKeeps(home, sent.world, name, states, t.node, t.address, sent.result.value);
    }
  }

  lemma {:induction false} SyncTargetsKeeps(home: map<string, string>, w: World, name: string, spec: Spec,
                                            states: States, targets: seq<Target>)
    requires Inv(home, w) && Owned(home, w.rmd, name, states)
    requires TargetsAt(w, targets)
    ensures SyncKeeps(home, w, SyncTargets(w, name, spec, states, targets), name)
    decreases |targets|
  {
    if targets != [] {
      assert TargetsAt(w, [targets[0]]);
      SyncTargetKeeps(home, w, name, spec, states, targets[0]);
      var s := SyncTarget(w, name, spec, states, targets[0]);
      if s.ok {
        SyncTargetsKeeps(home, s.world, name, spec, s.states, targets[1..]);
        FrameTransitive(w, s.world, SyncTargets(s.world, name, spec, s.states, targets[1..]).world, name);
      }
    }
  }

  lemma {:induction false} SyncTargetsSingle(home: map<string, string>, w: World, name: string, spec: Spec,
                                             states: States, targets: seq<Target>)
    requires Inv(home, w) && Owned(home, w.rmd, name, states)
    requires TargetsAt(w, targets) && Single(w.rmd, name) && Pending(w, name, targets)
    ensures Single(SyncTargets(w, name, spec, states, targets).world.rmd, name)
    decreases |targets|
  {
    if targets != [] {
      assert TargetsAt(w, [targets[0]]) && Pending(w, name, [targets[0]]);
      SyncTargetKeeps(home, w, name, spec, states, targets[0]);
      var s := SyncTarget(w, name, spec, states, targets[0]);
      if s.ok {
        PendingRest(home, w, s.world, name, targets);
        SyncTargetsSingle(home, s.world, name, spec, s.states, targets[1..]);
      }
    }
  }

  /** Once the first target is dealt with, those still to be posted are as they were: their addresses differ. */
  lemma PendingRest(home: map<string, string>, w: World, w': World, name: string, targets: seq<Target>)
    requires Injective(home) && Within(w.env.addresses, home)
    requires targets != [] && TargetsAt(w, targets) && Pending(w, name, targets)
    requires w'.rmd.Keys == w.rmd.Keys
    requires forall a :: a in w.rmd && a != targets[0].address ==> w'.rmd[a] == w.rmd[a]
    ensures Pending(w', name, targets[1..])
  {
    forall u | u in targets[1..] && !u.present
      ensures u in targets && u.address != targets[0].address
    {
      var k :| 0 <= k < |targets[1..]| && targets[1..][k] == u;
      assert targets[k + 1] == u && targets[0] in targets;
    }
  }

  /* ---- what the lookups find ---- */

  lemma TargetFound(w: World, node: string, name: string)
    requires name != ""
    ensures GetTargetedNode(w, node, name).result.Some? ==>
              var t := GetTargetedNode(w, node, name).result.value;
              && t.node == node && node in w.env.addresses && w.env.addresses[node] == t.address
              && t.address in w.rmd && (t.present <==> Holds(w.rmd[t.address], name))
  {
  }

  /** The node is listed more than once. */
  ghost predicate Twice(nodes: seq<string>, node: string) {
    exists i, j :: 0 <= i < j < |nodes| && nodes[i] == node && nodes[j] == node
  }

  /** The targets found are among the nodes asked for, in that order, each with its present state. */
  ghost predicate FoundAmong(w: World, nodes: seq<string>, name: string, targets: seq<Target>) {
    && TargetsAt(w, targets)
    && (forall t :: t in targets ==>
            t.node in nodes && t.address in w.rmd && (t.present <==> Holds(w.rmd[t.address], name)))
    && (forall j, k :: 0 <= j < k < |targets| && targets[j].node == targets[k].node ==> Twice(nodes, targets[j].node))
  }

  lemma TwiceInTail(nodes: seq<string>, node: string)
    requires nodes != []
    ensures Twice(nodes, node) <==> Twice(nodes[1..], node) || (node == nodes[0] && node in nodes[1..])
  {
    var rest := nodes[1..];
    if i, j :| 0 <= i < j < |nodes| && nodes[i] == node && nodes[j] == node {
      assert rest[j - 1] == node;
      if i > 0 {
        assert rest[i - 1] == node;
      }
    }
    if i, j :| 0 <= i < j < |rest| && rest[i] == node && rest[j] == node {
      assert nodes[i + 1] == node && nodes[j + 1] == node;
    }
    if node == nodes[0] && node in rest {
      var j :| 0 <= j < |rest| && rest[j] == node;
      assert nodes[0] == node && nodes[j + 1] == node;
    }
  }

  lemma FoundTail(w: World, nodes: seq<string>, name: string, rest: seq<Target>)
    requires nodes != [] && FoundAmong(w, nodes[1..], name, rest)
    ensures FoundAmong(w, nodes, name, rest)
  {
    forall j, k | 0 <= j < k < |rest| && rest[j].node == rest[k].node
      ensures Twice(nodes, rest[j].node)
    {
      TwiceInTail(nodes, rest[j].node);
    }
  }

  lemma FoundCons(w: World, nodes: seq<string>, name: string, t: Target, rest: seq<Target>)
    requires nodes != [] && FoundAmong(w, nodes[1..], name, rest)
    requires t.node == nodes[0] && t.node in w.env.addresses && w.env.addresses[t.node] == t.address
    requires t.address in w.rmd && (t.present <==> Holds(w.rmd[t.address], name))
    ensures FoundAmong(w, nodes, name, [t] + rest)
  {
    FoundTail(w, nodes, name, rest);
    var all := [t] + rest;
    assert forall u :: u in all <==> u == t || u in rest;
    forall j, k | 0 <= j < k < |all| && all[j].node == all[k].node
      ensures Twice(nodes, all[j].node)
    {
      assert all[k] == rest[k - 1];
      if j == 0 {
        assert rest[k - 1] in rest;
        TwiceInTail(nodes, nodes[0]);
      } else {
        assert all[j] == rest[j - 1];
      }
    }
  }

  lemma {:induction false} TargetListedFound(w: World, nodes: seq<string>, name: string)
    requires name != ""
    ensures TargetListed(w, nodes, name).result.Some?
    ensures FoundAmong(w, nodes, name, TargetListed(w, nodes, name).result.value)
    decreases |nodes|
  {
    if nodes != [] {
      var t := GetTargetedNode(w, nodes[0], name);
      TargetFound(w, nodes[0], name);
      TargetListedFound(t.world, nodes[1..], name);
      var rest := TargetListed(t.world, nodes[1..], name).result.value;
      if t.result.Some? {
        FoundCons(w, nodes, name, t.result.value, rest);
      } else {
        FoundTail(w, nodes, name, rest);
      }
    }
  }

  lemma {:induction false} TargetSelectedFound(w: World, nodes: seq<string>, name: string)
    requires name != ""
    ensures var r := TargetSelected(w, nodes, name).result; r.Some? ==> FoundAmong(w, nodes, name, r.value)
    decreases |nodes|
  {
    if nodes != [] {
      var t := GetTargetedNode(w, nodes[0], name);
      TargetFound(w, nodes[0], name);
      TargetSelectedFound(t.world, nodes[1..], name);
      var rest := TargetSelected(t.world, nodes[1..], name).result;
      if t.result.Some? && rest.Some? {
        FoundCons(w, nodes, name, t.result.value, rest.value);
      }
    }
  }

  lemma FindTargetedFound(w: World, name: string, spec: Spec)
    requires name != ""
    ensures var r := FindTargetedNodes(w, name, spec).result;
            r.Some? ==>
              && FoundAmong(w, TargetedNames(w.env, spec), name, r.value)
              && (NoneAnew(w, name, TargetedNames(w.env, spec)) ==> Pending(w, name, r.value))
  {
    if spec.nodeSelector == map[] {
      TargetListedFound(w, spec.nodes, name);
    } else if FindTargetedNodes(w, name, spec).result.Some? {
      TargetSelectedFound(Spent(Spent(w)), TargetedNames(w.env, spec), name);
    }
    var r := FindTargetedNodes(w, name, spec).result;
    if r.Some? && NoneAnew(w, name, TargetedNames(w.env, spec)) {
      FoundPending(w, TargetedNames(w.env, spec), name, r.value);
    }
  }

  /** No node that resolves and lacks the workload is listed more than once. */
  ghost predicate NoneAnew(w: World, name: string, nodes: seq<string>) {
    forall n :: n in w.env.addresses && w.env.addresses[n] in w.rmd && Twice(nodes, n) ==>
      Holds(w.rmd[w.env.addresses[n]], name)
  }

  lemma FoundPending(w: World, nodes: seq<string>, name: string, targets: seq<Target>)
    requires FoundAmong(w, nodes, name, targets) && NoneAnew(w, name, nodes)
    ensures Pending(w, name, targets)
  {
    forall j, k | 0 <= j < k < |targets| && targets[j].node == targets[k].node
      ensures targets[j].present && targets[k].present
    {
      assert targets[j] in targets && targets[k] in targets;
      assert Twice(nodes, targets[j].node);
    }
  }

  /** The names of the nodes a spec asks for, whether or not they can be looked up. */
  function TargetedNames(env: Env, spec: Spec): seq<string> {
    if spec.nodeSelector == map[] then spec.nodes
    else if env.config.None? then []
    else MatchingNodes(env.nodes, Merge(env.config.value, spec.nodeSelector))
  }

  ghost predicate DistinctNodes(nodes: seq<Node>) {
    forall j, k :: 0 <= j < k < |nodes| ==> nodes[j].name != nodes[k].name
  }

  /** No node is asked for twice: the user's part for a node list, the cluster's for labels. */
  ghost predicate TargetedDistinct(env: Env, spec: Spec) {
    if spec.nodeSelector == map[] then NoDuplicates(spec.nodes) else DistinctNodes(env.nodes)
  }

  lemma NamesDistinct(env: Env, spec: Spec)
    requires TargetedDistinct(env, spec)
    ensures NoDuplicates(TargetedNames(env, spec))
  {
    if spec.nodeSelector != map[] && env.config.Some? {
      MatchingDistinct(env.nodes, Merge(env.config.value, spec.nodeSelector));
    }
  }

  lemma {:induction false} MatchingDistinct(nodes: seq<Node>, selector: Labels)
    requires DistinctNodes(nodes)
    ensures NoDuplicates(MatchingNodes(nodes, selector))
  {
    if nodes != [] {
      var names := MatchingNodes(nodes[1..], selector);
      MatchingDistinct(nodes[1..], selector);
      forall n | n in names
        ensures n != nodes[0].name
      {
        var node :| node in nodes[1..] && node.name == n && Matches(selector, node.labels);
        var k :| 0 <= k < |nodes[1..]| && nodes[1..][k] == node;
        assert nodes[k + 1] == node;
      }
      DistinctCons(nodes[0].name, names);
    }
  }

  lemma DistinctCons<T>(x: T, s: seq<T>)
    requires NoDuplicates(s) && x !in s
    ensures NoDuplicates([x] + s) && NoDuplicates([] + s)
  {
  }

  /* ---- removals ---- */

  /** A registered node from which a workload with this spec has to go. */
  predicate Removable(env: Env, spec: Spec, node: string) {
    if spec.nodeSelector == map[] then node !in spec.nodes
    else
      var labels := FindNode(env.nodes, node);
      labels.Some? && !AreLabelsInWhiteList(spec.nodeSelector, labels.value)
  }

  ghost predicate RemovalFound(w: World, name: string, spec: Spec, r: Removal) {
    && r.node in w.env.addresses && w.env.addresses[r.node] == r.address && r.address in w.rmd
    && Holds(w.rmd[r.address], name) && r.id == Find(w.rmd[r.address], name).id
    && Removable(w.env, spec, r.node)
  }

  lemma CheckRemovedFound(w: World, name: string, spec: Spec, node: string)
    requires name != ""
    ensures var c := CheckRemoved(w, name, spec, node).result;
            c.Some? && c.value.Some? ==> RemovalFound(w, name, spec, c.value.value) && c.value.value.node == node
    ensures var c := CheckRemoved(w, name, spec, node).result;
            c.Some? && c.value.None? ==>
              && node in w.env.addresses && w.env.addresses[node] in w.rmd
              && (Holds(w.rmd[w.env.addresses[node]], name) ==> !Removable(w.env, spec, node))
  {
  }

  /** What the final check found for the part of the registry searched: exactly the holders that have to go. */
  ghost predicate RemovalsOf(w: World, name: string, spec: Spec, registry: seq<string>, removals: seq<Removal>) {
    && (forall x :: x in removals ==> RemovalFound(w, name, spec, x) && x.node in registry)
    && (NoDuplicates(registry) ==> forall j, k :: 0 <= j < k < |removals| ==> removals[j].node != removals[k].node)
    && (forall n :: n in registry ==>
          && n in w.env.addresses && w.env.addresses[n] in w.rmd
          && (Holds(w.rmd[w.env.addresses[n]], name) && Removable(w.env, spec, n) ==>
                  exists x :: x in removals && x.node == n))
  }

  lemma RemovalsCons(w: World, name: string, spec: Spec, registry: seq<string>, c: Option<Removal>, rest: seq<Removal>)
    requires registry != [] && RemovalsOf(w, name, spec, registry[1..], rest)
    requires c.Some? ==> RemovalFound(w, name, spec, c.value) && c.value.node == registry[0]
    requires c.None? ==>
               && registry[0] in w.env.addresses && w.env.addresses[registry[0]] in w.rmd
               && (Holds(w.rmd[w.env.addresses[registry[0]]], name) ==> !Removable(w.env, spec, registry[0]))
    ensures RemovalsOf(w, name, spec, registry, (if c.Some? then [c.value] else []) + rest)
  {
    var removals := (if c.Some? then [c.value] else []) + rest;
    assert forall n :: n in registry <==> n == registry[0] || n in registry[1..];
    assert NoDuplicates(registry) ==> registry[0] !in registry[1..] && NoDuplicates(registry[1..]);
    assert forall x :: x in removals <==> (c.Some? && x == c.value) || x in rest;
  }

  lemma {:induction false} RemovalsFound(w: World, name: string, spec: Spec, registry: seq<string>)
    requires name != ""
    ensures var r := FindRemovedNodes(w, name, spec, registry).result;
            r.Some? ==> RemovalsOf(w, name, spec, registry, r.value)
    decreases |registry|
  {
    if registry != [] {
      var c := CheckRemoved(w, name, spec, registry[0]);
      CheckRemovedFound(w, name, spec, registry[0]);
      if c.result.Some? {
        RemovalsFound(c.world, name, spec, registry[1..]);
        var rest := FindRemovedNodes(c.world, name, spec, registry[1..]).result;
        if rest.Some? {
          assert RemovalsOf(w, name, spec, registry[1..], rest.value);
          RemovalsCons(w, name, spec, registry, c.result.value, rest.value);
        }
      }
    }
  }

  lemma {:induction false} RemoveWorkloadKeeps(home: map<string, string>, w: World, name: string, states: States,
                                               removals: seq<Removal>)
    requires Inv(home, w) && Owned(home, w.rmd, name, states)
    requires forall r :: r in removals ==> r.address in w.rmd && IssuedTo(w.rmd[r.address], r.id, name)
    ensures SyncKeeps(home, w, RemoveWorkload(w, name, states, removals), name)
    ensures Single(w.rmd, name) ==> Single(RemoveWorkload(w, name, states, removals).world.rmd, name)
    decreases |removals|
  {
    if removals == [] {
      StoreStatusKeeps(home, w, name, states);
    } else {
      var r := removals[0];
      DeleteWorkloadKeeps(home, w, r.address, r.id, name, states);
      var (w', ok) := DeleteWorkload(w, r.address, r.id);
      if ok {
        var states' := states - {r.node};
        assert Owned(home, w'.rmd, name, states');
        assert forall x :: x in removals[1..] ==> x in removals;
        forall x | x in removals[1..]
          ensures x.address in w'.rmd && IssuedTo(w'.rmd[x.address], x.id, name)
        {
          assert OnlyFor(w.rmd[x.address], w'.rmd[x.address], name);
        }
        RemoveWorkloadKeeps(home, w', name, states', removals[1..]);
        FrameTransitive(w, w', RemoveWorkload(w', name, states', removals[1..]).world, name);
      }
    }
  }

  /* ---- deleted objects ---- */

  /** The address is that of one of the nodes. */
  predicate ServesSome(env: Env, nodes: seq<string>, address: string) {
    exists n :: n in nodes && n in env.addresses && env.addresses[n] == address
  }

  /** What the search for a deleted object's workloads found, for the part of the registry searched. */
  ghost predicate ObsoleteFound(w: World, name: string, registry: seq<string>, obsolete: map<string, WorkloadId>) {
    && (forall a :: a in obsolete ==>
          && a in w.rmd && Holds(w.rmd[a], name) && obsolete[a] == Find(w.rmd[a], name).id
          && ServesSome(w.env, registry, a))
    && (forall n :: n in registry ==>
          && n in w.env.addresses && w.env.addresses[n] in w.rmd
          && (Holds(w.rmd[w.env.addresses[n]], name) ==> w.env.addresses[n] in obsolete))
  }

  /** What was found for the rest of the nodes, with one address more if it holds the workload. */
  lemma ObsoleteCons(w: World, name: string, registry: seq<string>, address: string, rest: map<string, WorkloadId>)
    requires name != "" && registry != [] && ObsoleteFound(w, name, registry[1..], rest)
    requires registry[0] in w.env.addresses && w.env.addresses[registry[0]] == address && address in w.rmd
    ensures var live := Find(w.rmd[address], name);
            ObsoleteFound(w, name, registry, if live.uuid == "" then rest else map[address := live.id] + rest)
  {
    var live := Find(w.rmd[address], name);
    var all := if live.uuid == "" then rest else map[address := live.id] + rest;
    assert live.uuid != "" <==> Holds(w.rmd[address], name);
    forall a | a in all
      ensures a in w.rmd && Holds(w.rmd[a], name) && all[a] == Find(w.rmd[a], name).id
      ensures ServesSome(w.env, registry, a)
    {
      ServesTail(w.env, registry, a);
      if a !in rest {
        assert a == address && registry[0] in registry;
      }
    }
    forall n | n in registry
      ensures n in w.env.addresses && w.env.addresses[n] in w.rmd
      ensures Holds(w.rmd[w.env.addresses[n]], name) ==> w.env.addresses[n] in all
    {
      assert n == registry[0] || n in registry[1..];
    }
  }

  lemma ServesTail(env: Env, nodes: seq<string>, a: string)
    requires nodes != []
    ensures ServesSome(env, nodes[1..], a) ==> ServesSome(env, nodes, a)
  {
  }

  lemma {:induction false} ObsoleteSearch(w: World, name: string, registry: seq<string>)
    requires name != ""
    ensures var r := FindObsoleteWorkloads(w, name, registry).result;
            r.Some? ==> ObsoleteFound(w, name, registry, r.value)
    decreases |registry|
  {
    if registry != [] {
      var a := GetPodAddress(w, registry[0]);
      if a.result.Some? {
        var g := GetWorkloads(a.world, a.result.value);
        if g.result.Some? {
          ObsoleteSearch(g.world, name, registry[1..]);
          var rest := FindObsoleteWorkloads(g.world, name, registry[1..]).result;
          if rest.Some? {
            assert ObsoleteFound(w, name, registry[1..], rest.value);
            ObsoleteCons(w, name, registry, a.result.value, rest.value);
          }
        }
      }
    }
  }

  lemma {:induction false} DeleteObsoleteKeeps(home: map<string, string>, w: World, name: string,
                                               obsolete: map<string, WorkloadId>, order: seq<string>)
    requires Inv(home, w)
    requires forall a :: a in order ==> a in obsolete && a in w.rmd && IssuedTo(w.rmd[a], obsolete[a], name)
    ensures Inv(home, DeleteObsolete(w, obsolete, order).0) && Frame(w, DeleteObsolete(w, obsolete, order).0, name)
    ensures forall a :: a in w.rmd ==>
              Copies(DeleteObsolete(w, obsolete, order).0.rmd[a].entries, name) <= Copies(w.rmd[a].entries, name)
    decreases |order|
  {
    if order != [] {
      DeleteWorkloadKeeps(home, w, order[0], obsolete[order[0]], name, map[]);
      var (w', ok) := DeleteWorkload(w, order[0], obsolete[order[0]]);
      if ok {
        forall a | a in order[1..]
          ensures a in obsolete && a in w'.rmd && IssuedTo(w'.rmd[a], obsolete[a], name)
        {
          assert a in order && OnlyFor(w.rmd[a], w'.rmd[a], name);
        }
        DeleteObsoleteKeeps(home, w', name, obsolete, order[1..]);
        FrameTransitive(w, w', DeleteObsolete(w', obsolete, order[1..]).0, name);
      }
    }
  }

  /* ---- the pass ---- */

  lemma PruneKeeps(home: map<string, string>, w: World, name: string, spec: Spec, states: States)
    requires Inv(home, w) && Owned(home, w.rmd, name, states) && name != ""
    ensures Inv(home, Prune(w, name, spec, states).world) && Frame(w, Prune(w, name, spec, states).world, name)
    ensures Single(w.rmd, name) ==> Single(Prune(w, name, spec, states).world.rmd, name)
  {
    var r := FindRemovedNodes(w, name, spec, w.env.registry);
    if r.result.Some? {
      RemovalsFound(w, name, spec, w.env.registry);
      forall x | x in r.result.value
        ensures x.address in r.world.rmd && IssuedTo(r.world.rmd[x.address], x.id, name)
      {
        FoundIssued(r.world.rmd[x.address], name);
      }
      RemoveWorkloadKeeps(home, r.world, name, states, r.result.value);
    }
  }

  lemma SyncKeepsAll(home: map<string, string>, w: World, name: string)
    requires Inv(home, w) && name != "" && name in w.objects
    ensures Inv(home, Sync(w, name).world) && Frame(w, Sync(w, name).world, name)
    ensures PostsOnce(w, name) && Single(w.rmd, name) ==> Single(Sync(w, name).world.rmd, name)
  {
    var spec, states := w.objects[name].spec, w.objects[name].states;
    var t := FindTargetedNodes(w, name, spec);
    FindTargetedFound(w, name, spec);
    if t.result.Some? {
      SyncTargetsKeeps(home, t.world, name, spec, states, t.result.value);
      if PostsOnce(w, name) && Single(w.rmd, name) {
        assert Pending(t.world, name, t.result.value);
        SyncTargetsSingle(home, t.world, name, spec, states, t.result.value);
      }
      var s := SyncTargets(t.world, name, spec, states, t.result.value);
      if s.ok {
        PruneKeeps(home, s.world, name, spec, s.states);
        FrameTransitive(w, s.world, Prune(s.world, name, spec, s.states).world, name);
      }
    }
  }

  /** No node is listed twice by the object of that name, if there is one. */
  ghost predicate ListsOnce(w: World, name: string) {
    name in w.objects ==> TargetedDistinct(w.env, w.objects[name].spec)
  }

  /** No node it lists more than once could be posted to: each resolves to an instance that has the workload. */
  ghost predicate PostsOnce(w: World, name: string) {
    name in w.objects ==> NoneAnew(w, name, TargetedNames(w.env, w.objects[name].spec))
  }

  lemma ListsOncePostsOnce(w: World, name: string)
    requires ListsOnce(w, name)
    ensures PostsOnce(w, name)
  {
    if name in w.objects {
      NamesDistinct(w.env, w.objects[name].spec);
    }
  }

  /**
   A pass for `name`, cut short by any faults anywhere, keeps the invariant and leaves every workload
   of another name as it was on every instance; and it makes no second copy of its own workload
   unless the spec lists a node more than once that lacks it.
   */
  lemma PassKeeps(home: map<string, string>, w: World, name: string, order: seq<string>)
    requires Inv(home, w) && name != "" && PossibleOrder(w, name, order)
    ensures Inv(home, Reconcile(w, name, order).world)
    ensures Frame(w, Reconcile(w, name, order).world, name)
    ensures PostsOnce(w, name) && Single(w.rmd, name) ==> Single(Reconcile(w, name, order).world.rmd, name)
  {
    var w1 := Spent(w);
    if NextFault(w).NoFault? {
      if name in w.objects {
        assert PostsOnce(w, name) ==> PostsOnce(w1, name);
        SyncKeepsAll(home, w1, name);
        FrameTransitive(w, w1, Sync(w1, name).world, name);
      } else {
        DeletionKeeps(home, w, name, order);
      }
    }
  }

  lemma DeletionKeeps(home: map<string, string>, w: World, name: string, order: seq<string>)
    requires Inv(home, w) && name != "" && PossibleOrder(w, name, order)
    requires NextFault(w).NoFault? && name !in w.objects
    ensures Inv(home, Reconcile(w, name, order).world)
    ensures Frame(w, Reconcile(w, name, order).world, name)
    ensures forall a :: a in w.rmd ==>
              Copies(Reconcile(w, name, order).world.rmd[a].entries, name) <= Copies(w.rmd[a].entries, name)
  {
    var w1 := Spent(w);
    var found := FindObsoleteWorkloads(w1, name, w.env.registry);
    ObsoleteSearch(w1, name, w.env.registry);
    if found.result.Some? {
      forall a | a in order
        ensures a in found.result.value && a in found.world.rmd
        ensures IssuedTo(found.world.rmd[a], found.result.value[a], name)
      {
        FoundIssued(found.world.rmd[a], name);
      }
      DeleteObsoleteKeeps(home, found.world, name, found.result.value, order);
      FrameTransitive(w, found.world, DeleteObsolete(found.world, found.result.value, order).0, name);
    }
  }

  /** Workloads of other names keep their number of copies, and the copy that is found first. */
  lemma FrameOthers(w: World, w': World, name: string, other: string)
    requires Frame(w, w', name) && other != name
    ensures forall a :: a in w.rmd ==>
              && Copies(w'.rmd[a].entries, other) == Copies(w.rmd[a].entries, other)
              && Find(w'.rmd[a], other) == Find(w.rmd[a], other)
              && (Holds(w'.rmd[a], other) <==> Holds(w.rmd[a], other))
  {
    forall a | a in w.rmd
      ensures Copies(w'.rmd[a].entries, other) == Copies(w.rmd[a].entries, other)
      ensures Find(w'.rmd[a], other) == Find(w.rmd[a], other)
      ensures Holds(w'.rmd[a], other) <==> Holds(w.rmd[a], other)
    {
      assert OnlyFor(w.rmd[a], w'.rmd[a], name);
      OthersCopies(w.rmd[a].entries, name, other);
      OthersCopies(w'.rmd[a].entries, name, other);
      NoCopies(w.rmd[a].entries, other);
      NoCopies(w'.rmd[a].entries, other);
    }
  }
}

/**
 The lookups of a pass under every tape of faults: which nodes are targeted, which are to be removed, and
 when a lookup ends the pass.
 */
module LookupsUnderFaults {
  import opened Basics
  import opened RmdClient
  import opened RmdServer
  import opened Passes
  import opened UnderFaults

  /** A node is found when its address resolves and its instance can be read, with the two calls after `k` others. */
  predicate FoundAt(w: World, node: string, k: nat) {
    && FaultAt(w, k) == NoFault && node in w.env.addresses
    && FaultAt(w, k + 1) == NoFault && w.env.addresses[node] in w.rmd
  }

  /** The second call is made once the address resolves. */
  function LookupCalls(w: World, node: string, k: nat): nat {
    if FaultAt(w, k) == NoFault && node in w.env.addresses then 2 else 1
  }

  ghost predicate IsTargetOf(w: World, name: string, node: string, t: Target)
    requires node in w.env.addresses && w.env.addresses[node] in w.rmd
  {
    && t.node == node && t.address == w.env.addresses[node]
    && (t.present <==> exists k: nat :: IsFirstOf(w.rmd[t.address].entries, name, k))
  }

  lemma LookupExactly(w: World, node: string, name: string)
    requires name != ""
    ensures var t := GetTargetedNode(w, node, name);
            && t.world == w.(faults := FaultsFrom(w, LookupCalls(w, node, 0)))
            && (t.result.Some? <==> FoundAt(w, node, 0))
            && (t.result.Some? ==> IsTargetOf(w, name, node, t.result.value))
  {
    OneSpent(w);
    OneSpent(Spent(w));
    if FoundAt(w, node, 0) {
      var entries := w.rmd[w.env.addresses[node]].entries;
      if e :| e in entries && e.uuid == name {
        FoundFirst(entries, name);
        FindsFirst(entries, name);
        var k :| 0 <= k < |entries| && entries[k].uuid == name && FindWorkloadByName(entries, name) == entries[k]
                 && forall j :: 0 <= j < k ==> entries[j].uuid != name;
        assert IsFirstOf(entries, name, k);
      } else {
        assert forall k: nat :: k < |entries| ==> entries[k] in entries;
      }
    }
  }

  /** Node `i` is found when the nodes before it took two calls each. */
  predicate FoundNth(w: World, nodes: seq<string>, i: nat)
    requires i < |nodes|
  {
    FoundAt(w, nodes[i], 2 * i)
  }

  ghost predicate AllFound(w: World, nodes: seq<string>) {
    forall i: nat :: i < |nodes| ==> FoundNth(w, nodes, i)
  }

  lemma AllFoundFirst(w: World, w1: World, nodes: seq<string>)
    requires nodes != [] && w1 == w.(faults := FaultsFrom(w, 2))
    ensures AllFound(w, nodes) <==> FoundAt(w, nodes[0], 0) && AllFound(w1, nodes[1..])
  {
    FaultsLater(w, w1, 2);
    forall i: nat | 0 < i < |nodes|
      ensures FoundNth(w, nodes, i) <==> FoundNth(w1, nodes[1..], i - 1)
    {
    }
    assert FoundNth(w, nodes, 0) <==> FoundAt(w, nodes[0], 0);
    forall i: nat | i < |nodes[1..]|
      ensures FoundNth(w1, nodes[1..], i) <==> FoundNth(w, nodes, i + 1)
    {
    }
  }

  ghost predicate NthTarget(w: World, name: string, nodes: seq<string>, targets: seq<Target>, i: nat)
    requires i < |nodes| == |targets|
  {
    nodes[i] in w.env.addresses && w.env.addresses[nodes[i]] in w.rmd && IsTargetOf(w, name, nodes[i], targets[i])
  }

  /** With a selector the first node that is not found ends the search: they are all found, or there is no result. */
  lemma {:induction false} SelectedExactly(w: World, nodes: seq<string>, name: string)
    requires name != ""
    ensures var t := TargetSelected(w, nodes, name).result;
            && (t.Some? <==> AllFound(w, nodes))
            && (t.Some? ==> |t.value| == |nodes|)
            && (t.Some? ==> forall i: nat :: i < |nodes| ==> NthTarget(w, name, nodes, t.value, i))
    decreases |nodes|
  {
    if nodes != [] {
      var t := GetTargetedNode(w, nodes[0], name);
      LookupExactly(w, nodes[0], name);
      if t.result.Some? {
        SelectedExactly(t.world, nodes[1..], name);
        AllFoundFirst(w, t.world, nodes);
        var rest := TargetSelected(t.world, nodes[1..], name).result;
        if rest.Some? {
          var all := [t.result.value] + rest.value;
          forall i: nat | i < |nodes|
            ensures NthTarget(w, name, nodes, all, i)
          {
            assert i > 0 ==> NthTarget(t.world, name, nodes[1..], rest.value, i - 1);
          }
        }
      } else {
        assert !FoundNth(w, nodes, 0);
      }
    }
  }

  function TargetAt(w: World, name: string, node: string): Target
    requires node in w.env.addresses && w.env.addresses[node] in w.rmd
  {
    var a := w.env.addresses[node];
    Target(node, a, exists j :: 0 <= j < |w.rmd[a].entries| && w.rmd[a].entries[j].uuid == name)
  }

  /** The listed nodes that are found, in order; the lookups of the others change nothing but the place on the tape. */
  function Found(w: World, name: string, nodes: seq<string>, k: nat): seq<Target> {
    if nodes == [] then []
    else
      (if FoundAt(w, nodes[0], k) then [TargetAt(w, name, nodes[0])] else [])
      + Found(w, name, nodes[1..], k + LookupCalls(w, nodes[0], k))
  }

  lemma {:induction false} FoundLater(w: World, w1: World, name: string, nodes: seq<string>, k: nat, j: nat)
    requires w1 == w.(faults := FaultsFrom(w, k))
    ensures Found(w1, name, nodes, j) == Found(w, name, nodes, k + j)
  {
    FaultsLater(w, w1, k);
    if nodes != [] {
      FoundLater(w, w1, name, nodes[1..], k, j + LookupCalls(w1, nodes[0], j));
    }
  }

  /** For a list, a node that is not found is passed over. */
  lemma {:induction false} ListedExactly(w: World, nodes: seq<string>, name: string)
    requires name != ""
    ensures TargetListed(w, nodes, name).result == Some(Found(w, name, nodes, 0))
    decreases |nodes|
  {
    if nodes != [] {
      var t := GetTargetedNode(w, nodes[0], name);
      LookupExactly(w, nodes[0], name);
      ListedExactly(t.world, nodes[1..], name);
      FoundLater(w, t.world, name, nodes[1..], LookupCalls(w, nodes[0], 0), 0);
      if t.result.Some? {
        NamedSomewhere(w.rmd[t.result.value.address].entries, name);
        assert t.result.value == TargetAt(w, name, nodes[0]);
      }
      var rest := Found(w, name, nodes[1..], LookupCalls(w, nodes[0], 0));
      assert TargetListed(t.world, nodes[1..], name).result == Some(rest) && [] + rest == rest;
    }
  }

  lemma NamedSomewhere(entries: seq<Entry>, name: string)
    ensures (exists k: nat :: IsFirstOf(entries, name, k)) <==>
            exists j :: 0 <= j < |entries| && entries[j].uuid == name
  {
    if j :| 0 <= j < |entries| && entries[j].uuid == name {
      assert entries[j] in entries;
      FindsFirst(entries, name);
      var k :| 0 <= k < |entries| && entries[k].uuid == name && FindWorkloadByName(entries, name) == entries[k]
               && forall i :: 0 <= i < k ==> entries[i].uuid != name;
      assert IsFirstOf(entries, name, k);
    }
  }

  ghost predicate HasLabels(node: Node, selector: Labels) {
    forall l :: l in selector ==> l in node.labels && node.labels[l] == selector[l]
  }

  /** `at` lists, in ascending order, the places of the nodes that have all the selector's labels. */
  ghost predicate PlacesOf(nodes: seq<Node>, selector: Labels, at: seq<nat>) {
    && (forall i, j :: 0 <= i < j < |at| ==> at[i] < at[j])
    && (forall k: nat :: k in at ==> k < |nodes| && HasLabels(nodes[k], selector))
    && (forall k: nat :: k < |nodes| && HasLabels(nodes[k], selector) ==> k in at)
  }

  /** The places, one further on. */
  function Later(at: seq<nat>): (later: seq<nat>)
    ensures |later| == |at| && forall i :: 0 <= i < |at| ==> later[i] == at[i] + 1
  {
    if at == [] then [] else [at[0] + 1] + Later(at[1..])
  }

  lemma {:induction false} LaterHas(at: seq<nat>, k: nat)
    ensures k in Later(at) <==> k > 0 && k - 1 in at
  {
    if at != [] {
      LaterHas(at[1..], k);
    }
  }

  lemma PlacesFirst(nodes: seq<Node>, selector: Labels, rest: seq<nat>, at: seq<nat>)
    requires nodes != [] && PlacesOf(nodes[1..], selector, rest)
    requires at == (if HasLabels(nodes[0], selector) then [0] else []) + Later(rest)
    ensures PlacesOf(nodes, selector, at)
  {
    forall k: nat
      ensures k in at <==> k < |nodes| && HasLabels(nodes[k], selector)
    {
      LaterHas(rest, k);
      assert k in at <==> (k == 0 && HasLabels(nodes[0], selector)) || k in Later(rest);
      if 0 < k < |nodes| {
        assert nodes[1..][k - 1] == nodes[k];
      }
    }
  }

  ghost predicate NamesAt(nodes: seq<Node>, names: seq<string>, at: seq<nat>) {
    |names| == |at| && forall i :: 0 <= i < |at| ==> at[i] < |nodes| && names[i] == nodes[at[i]].name
  }

  lemma NamesFirst(nodes: seq<Node>, names: seq<string>, rest: seq<nat>)
    requires nodes != [] && NamesAt(nodes[1..], names, rest)
    ensures NamesAt(nodes, [] + names, [] + Later(rest))
    ensures NamesAt(nodes, [nodes[0].name] + names, [0] + Later(rest))
  {
    assert forall i :: 0 <= i < |rest| ==> nodes[1..][rest[i]] == nodes[rest[i] + 1];
  }

  /** A label selector takes the nodes with all of its labels, in the order of the list. */
  lemma {:induction false} MatchingExactly(nodes: seq<Node>, selector: Labels) returns (at: seq<nat>)
    ensures PlacesOf(nodes, selector, at) && NamesAt(nodes, MatchingNodes(nodes, selector), at)
  {
    at := [];
    if nodes != [] {
      var rest := MatchingExactly(nodes[1..], selector);
      NamesFirst(nodes, MatchingNodes(nodes[1..], selector), rest);
      at := (if Matches(selector, nodes[0].labels) then [0] else []) + Later(rest);
      PlacesFirst(nodes, selector, rest, at);
    }
  }

  /** With a selector, the RmdConfig object and the list of nodes are asked for first, and must be there. */
  ghost predicate SelectorFinds(w: World, spec: Spec) {
    && FaultAt(w, 0) == NoFault && w.env.config.Some? && FaultAt(w, 1) == NoFault
    && AllFound(w.(faults := FaultsFrom(w, 2)), MatchingNodes(w.env.nodes, w.env.config.value + spec.nodeSelector))
  }

  /** The targets of a pass, with the calls that look for them the next ones on the tape. */
  ghost predicate TargetsUnder(w: World, name: string, spec: Spec, targets: Option<seq<Target>>) {
    if spec.nodeSelector == map[] then targets == Some(Found(w, name, spec.nodes, 0))
    else
      && (targets.Some? <==> SelectorFinds(w, spec))
      && (targets.Some? ==>
            var nodes := MatchingNodes(w.env.nodes, w.env.config.value + spec.nodeSelector);
            && |targets.value| == |nodes|
            && forall i: nat :: i < |nodes| ==> NthTarget(w, name, nodes, targets.value, i))
  }

  lemma SelectorExactly(w: World, name: string, spec: Spec)
    requires name != "" && spec.nodeSelector != map[]
    ensures TargetsUnder(w, name, spec, FindTargetedNodes(w, name, spec).result)
  {
    OneSpent(w);
    OneSpent(Spent(w));
    if w.env.config.Some? {
      var w2, nodes := Spent(Spent(w)), MatchingNodes(w.env.nodes, w.env.config.value + spec.nodeSelector);
      SelectedExactly(w2, nodes, name);
      var targets := TargetSelected(w2, nodes, name).result;
      if targets.Some? {
        forall i: nat | i < |nodes|
          ensures NthTarget(w, name, nodes, targets.value, i)
        {
          assert NthTarget(w2, name, nodes, targets.value, i);
        }
      }
    }
  }

  /** The nodes a pass serves: for a list those that are found, for a selector all that match, or none at all. */
  lemma TargetedExactly(w: World, name: string, spec: Spec)
    requires name != ""
    ensures TargetsUnder(w, name, spec, FindTargetedNodes(w, name, spec).result)
  {
    if spec.nodeSelector == map[] {
      ListedExactly(w, spec.nodes, name);
    } else {
      SelectorExactly(w, name, spec);
    }
  }

  /** A pass with a selector but without an RmdConfig object fails and changes nothing. */
  lemma NoConfigFails(w: World, name: string, order: seq<string>)
    requires name in w.objects && w.objects[name].spec.nodeSelector != map[] && w.env.config == None
    ensures var p := Reconcile(w, name, order); !p.done && p.world == w.(faults := p.world.faults)
  {
  }

  /** So does one that cannot read its object. */
  lemma UnreadFails(w: World, name: string, order: seq<string>)
    requires FaultAt(w, 0) != NoFault && PossibleOrder(w, name, order)
    ensures Reconcile(w, name, order) == Pass(w.(faults := FaultsFrom(w, 1)), false)
  {
    OneSpent(w);
  }

  /** The node is to be removed once its address was resolved again, by the call after `k` others. */
  function RemovedAs(w: World, node: string, id: WorkloadId, k: nat): Option<Option<Removal>> {
    if FaultAt(w, k) == NoFault && node in w.env.addresses then Some(Some(Removal(node, w.env.addresses[node], id)))
    else None
  }

  lemma NotFoundFails(w: World, name: string, spec: Spec, node: string)
    requires !FoundAt(w, node, 0)
    ensures CheckRemoved(w, name, spec, node).result == None
  {
    OneSpent(w);
  }

  lemma FoundChecked(w: World, name: string, spec: Spec, node: string, live: Entry)
    requires name != "" && FoundAt(w, node, 0) && live == Find(w.rmd[w.env.addresses[node]], name)
    ensures CheckRemoved(w, name, spec, node).result ==
            if live.uuid != name then Some(None)
            else if spec.nodeSelector == map[] then
              if node in spec.nodes then Some(None) else RemovedAs(w, node, live.id, 2)
            else if FaultAt(w, 2) != NoFault || FindNode(w.env.nodes, node) == None then None
            else if AreLabelsInWhiteList(spec.nodeSelector, FindNode(w.env.nodes, node).value) then Some(None)
            else RemovedAs(w, node, live.id, 3)
  {
    OneSpent(w);
    OneSpent(Spent(w));
    OneSpent(Spent(Spent(w)));
    OneSpent(Spent(Spent(Spent(w))));
  }

  /** The labels of a node pass a selector: it has all the selector's, or none at all. */
  ghost predicate LabelsPass(selector: Labels, labels: Labels) {
    labels == map[] || forall l :: l in selector ==> l in labels && labels[l] == selector[l]
  }

  predicate HasEntry(w: World, node: string, name: string)
    requires node in w.env.addresses && w.env.addresses[node] in w.rmd
  {
    var entries := w.rmd[w.env.addresses[node]].entries;
    exists j :: 0 <= j < |entries| && entries[j].uuid == name
  }

  /**
   What the final check decides for one registered node, with its calls after `k` others: nothing is
   removed where the workload does not run or is still wanted; where it is not wanted, its first entry
   is. A node that cannot be found, read or resolved again ends the pass.
   */
  ghost predicate CheckUnder(w: World, name: string, spec: Spec, node: string, c: Option<Option<Removal>>, k: nat) {
    if !FoundAt(w, node, k) then c == None
    else if !HasEntry(w, node, name) then c == Some(None)
    else
      var entries := w.rmd[w.env.addresses[node]].entries;
      forall j: nat :: IsFirstOf(entries, name, j) ==>
        if spec.nodeSelector == map[] then
          c == if node in spec.nodes then Some(None) else RemovedAs(w, node, entries[j].id, k + 2)
        else if FaultAt(w, k + 2) != NoFault || (forall n :: n in w.env.nodes ==> n.name != node) then c == None
        else
          exists n :: n in w.env.nodes && n.name == node
            && c == if LabelsPass(spec.nodeSelector, n.labels) then Some(None)
                    else RemovedAs(w, node, entries[j].id, k + 3)
  }

  lemma CheckExactly(w: World, name: string, spec: Spec, node: string)
    requires name != ""
    ensures CheckUnder(w, name, spec, node, CheckRemoved(w, name, spec, node).result, 0)
  {
    if !FoundAt(w, node, 0) {
      NotFoundFails(w, name, spec, node);
    } else {
      var entries := w.rmd[w.env.addresses[node]].entries;
      FoundChecked(w, name, spec, node, FindWorkloadByName(entries, name));
      FoundFirst(entries, name);
      NamedSomewhere(entries, name);
    }
  }

  /** Where each check begins and what it decides; `ends` says that the last one found no answer. */
  ghost predicate CheckedInTurn(w: World, name: string, spec: Spec, registry: seq<string>, begins: seq<nat>,
                                decided: seq<Option<Removal>>, ends: bool)
  {
    && |decided| <= |registry| && |begins| == |decided| + 1 && begins[0] == 0 && (ends <==> |decided| < |registry|)
    && (forall i: nat :: i < |decided| ==> CheckedNth(w, name, spec, registry[i], begins, decided, i))
    && (ends ==> CheckUnder(w, name, spec, registry[|decided|], None, begins[|decided|]))
  }

  ghost predicate CheckedNth(w: World, name: string, spec: Spec, node: string, begins: seq<nat>,
                             decided: seq<Option<Removal>>, i: nat)
    requires i < |decided| && |begins| == |decided| + 1
  {
    begins[i] < begins[i + 1] && CheckUnder(w, name, spec, node, Some(decided[i]), begins[i])
  }

  /** The nodes to remove, in order. */
  function Collected(decided: seq<Option<Removal>>): seq<Removal> {
    if decided == [] then []
    else (if decided[0].Some? then [decided[0].value] else []) + Collected(decided[1..])
  }

  lemma CheckSpends(w: World, name: string, spec: Spec, node: string) returns (k: nat)
    ensures k > 0 && CheckRemoved(w, name, spec, node).world == w.(faults := FaultsFrom(w, k))
  {
    OneSpent(w);
    var w1 := Spent(w);
    OneSpent(w1);
    var w2 := Spent(w1);
    OneSpent(w2);
    OneSpent(Spent(w2));
    assert CheckRemoved(w, name, spec, node).world in {w1, w2, Spent(w2), Spent(Spent(w2))};
    k := if CheckRemoved(w, name, spec, node).world == w1 then 1
         else if CheckRemoved(w, name, spec, node).world == w2 then 2
         else if CheckRemoved(w, name, spec, node).world == Spent(w2) then 3 else 4;
  }

  function Shifted(begins: seq<nat>, k: nat): (s: seq<nat>)
    ensures |s| == |begins| && forall i :: 0 <= i < |s| ==> s[i] == begins[i] + k
  {
    seq(|begins|, i requires 0 <= i < |begins| => begins[i] + k)
  }

  lemma CheckedFirst(w: World, v: World, name: string, spec: Spec, registry: seq<string>, c: Option<Removal>, k: nat,
                     begins: seq<nat>, decided: seq<Option<Removal>>, ends: bool)
    requires registry != [] && k > 0 && v == w.(faults := FaultsFrom(w, k))
    requires CheckUnder(w, name, spec, registry[0], Some(c), 0)
    requires CheckedInTurn(v, name, spec, registry[1..], begins, decided, ends)
    ensures CheckedInTurn(w, name, spec, registry, [0] + Shifted(begins, k), [c] + decided, ends)
  {
    var bs, ds := [0] + Shifted(begins, k), [c] + decided;
    FaultsLater(w, v, k);
    forall i: nat | i < |ds|
      ensures CheckedNth(w, name, spec, registry[i], bs, ds, i)
    {
      if i > 0 {
        assert CheckedNth(v, name, spec, registry[1..][i - 1], begins, decided, i - 1);
        CheckAfter(w, v, name, spec, registry[i], Some(ds[i]), k, begins[i - 1]);
      }
    }
    if ends {
      CheckAfter(w, v, name, spec, registry[|ds|], None, k, begins[|decided|]);
    }
  }

  lemma CheckAfter(w: World, v: World, name: string, spec: Spec, node: string, c: Option<Option<Removal>>, k: nat,
                   j: nat)
    requires v == w.(faults := FaultsFrom(w, k)) && CheckUnder(v, name, spec, node, c, j)
    ensures CheckUnder(w, name, spec, node, c, j + k)
  {
    FaultsLater(w, v, k);
  }

  /** The search for nodes to remove takes the registered nodes in turn, and the first without an answer ends it. */
  lemma {:induction false} RemovedExactly(w: World, name: string, spec: Spec, registry: seq<string>)
    returns (begins: seq<nat>, decided: seq<Option<Removal>>)
    requires name != ""
    ensures var r := FindRemovedNodes(w, name, spec, registry).result;
            && CheckedInTurn(w, name, spec, registry, begins, decided, r.None?)
            && (r.Some? ==> r.value == Collected(decided))
    decreases |registry|
  {
    begins, decided := [0], [];
    if registry != [] {
      var c := CheckRemoved(w, name, spec, registry[0]);
      var k := CheckSpends(w, name, spec, registry[0]);
      CheckExactly(w, name, spec, registry[0]);
      if c.result.Some? {
        begins, decided := RemovedExactly(c.world, name, spec, registry[1..]);
        CheckedFirst(w, c.world, name, spec, registry, c.result.value, k, begins, decided,
                     FindRemovedNodes(c.world, name, spec, registry[1..]).result.None?);
        assert ([c.result.value] + decided)[1..] == decided;
        begins, decided := [0] + Shifted(begins, k), [c.result.value] + decided;
      }
    }
  }

  /** The search for a deleted object's workloads: likewise. */
  lemma {:induction false} ObsoleteNeedsAll(w: World, name: string, registry: seq<string>)
    requires name != ""
    ensures FindObsoleteWorkloads(w, name, registry).result.Some? <==> AllFound(w, registry)
    decreases |registry|
  {
    if registry != [] {
      var t := GetTargetedNode(w, registry[0], name);
      LookupExactly(w, registry[0], name);
      if t.result.Some? {
        ObsoleteNeedsAll(t.world, name, registry[1..]);
        AllFoundFirst(w, t.world, registry);
      } else {
        assert !FoundNth(w, registry, 0);
      }
    }
  }
}

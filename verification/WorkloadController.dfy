/**
 The RmdWorkload controller as the object it is: its methods call the API server and the RMD
 instances, loop over nodes and workloads, and update the status of the workload in memory. Each is
 proved to do what the functions of module Passes say.
 */
module WorkloadController {
  import opened Basics
  import opened RmdClient
  import opened RmdServer
  import opened Passes
  import opened Safety
  import opened Runs
  import opened NodeData

  /** An RmdWorkload object as fetched: the pass edits its status before storing it. */
  class RmdWorkload {
    const name: string
    const spec: Spec
    var workloadStates: States

    constructor (name: string, spec: Spec, workloadStates: States)
      ensures this.name == name && this.spec == spec && this.workloadStates == workloadStates
    {
      this.name := name;
      this.spec := spec;
      this.workloadStates := workloadStates;
    }
  }

  class ReconcileRmdWorkload {
    // What the API server holds.
    var objects: map<string, Workload>
    var nodes: seq<Node>
    var config: Option<Labels>
    // What the RMD pods serve, by address, and the address each node's pod resolves to.
    var rmd: map<string, Instance>
    var addresses: map<string, string>
    // The failures still to come.
    var faults: seq<Fault>
    // The node list shared with the other controllers.
    const rmdNodeData: RmdNodeData

    ghost predicate Valid()
      reads this, rmdNodeData
    {
      rmdNodeData.Valid()
    }

    function Cluster(): World
      requires Valid()
      reads this, rmdNodeData, rmdNodeData.backing
    {
      World(Env(nodes, config, addresses, rmdNodeData.List()), objects, rmd, faults)
    }

    constructor (rmdNodeData: RmdNodeData, w: World)
      requires rmdNodeData.Valid()
      ensures Valid() && this.rmdNodeData == rmdNodeData
      ensures Cluster() == w.(env := w.env.(registry := rmdNodeData.List()))
    {
      this.rmdNodeData := rmdNodeData;
      objects, nodes, config := w.objects, w.env.nodes, w.env.config;
      rmd, addresses, faults := w.rmd, w.env.addresses, w.faults;
    }

    /* ---- calls ---- */

    method Call() returns (fault: Fault)
      requires Valid()
      modifies this`faults
      ensures Valid() && Cluster() == Spent(old(Cluster())) && fault == NextFault(old(Cluster()))
    {
      fault := if faults == [] then NoFault else faults[0];
      faults := if faults == [] then faults else faults[1..];
    }

    method GetPodAddress(nodeName: string) returns (address: Option<string>)
      requires Valid()
      modifies this
      ensures Valid() && Called(Cluster(), address) == Passes.GetPodAddress(old(Cluster()), nodeName)
    {
      var fault := Call();
      address := if fault.NoFault? && nodeName in addresses then Some(addresses[nodeName]) else None;
    }

    method GetWorkloads(address: string) returns (workloads: Option<seq<Entry>>)
      requires Valid()
      modifies this
      ensures Valid() && Called(Cluster(), workloads) == Passes.GetWorkloads(old(Cluster()), address)
    {
      var fault := Call();
      workloads := if fault.NoFault? && address in rmd then Some(rmd[address].entries) else None;
    }

    method FormatWorkload(spec: Spec, address: string) returns (format: Format)
      requires Valid()
      modifies this
      ensures Valid() && (Cluster(), format) == FormatRequest(old(Cluster()), spec, address)
    {
      if !spec.allCores {
        format := RmdClient.FormatWorkload(spec, []);
      } else {
        var fault := Call();
        format := if !fault.NoFault? || address !in rmd then FormatError
                  else RmdClient.FormatWorkload(spec, rmd[address].shareCpuLists);
      }
    }

    method Send(address: string, payload: Payload, post: bool, name: string, id: WorkloadId)
      returns (response: Option<Response>)
      requires Valid()
      modifies this
      ensures Valid() && Called(Cluster(), response) == Passes.Send(old(Cluster()), address, payload, post, name, id)
    {
      var fault := Call();
      if address !in rmd || fault.Before? {
        return Some(Failure);
      }
      var live := exists e :: e in rmd[address].entries && e.id == id;
      rmd := rmd[address := if post then Post(rmd[address], name, payload) else Patch(rmd[address], id, payload)];
      response := Some(if fault.After? || (!post && !live) then Failure else Success(if post then 201 else 200));
    }

    method PostWorkload(rmdWorkload: RmdWorkload, address: string) returns (response: Option<Response>)
      requires Valid()
      modifies this
      ensures Valid()
              && Called(Cluster(), response) ==
                  Passes.PostWorkload(old(Cluster()), rmdWorkload.name, rmdWorkload.spec, address)
    {
      var format := FormatWorkload(rmdWorkload.spec, address);
      match format {
        case Fatal => response := None;
        case FormatError => response := Some(NoResponse);
        case Formatted(payload) => response := Send(address, payload, true, rmdWorkload.name, NoId);
      }
    }

    method PatchWorkload(rmdWorkload: RmdWorkload, address: string, workloadId: WorkloadId)
      returns (response: Option<Response>)
      requires Valid()
      modifies this
      ensures Valid()
              && Called(Cluster(), response) ==
                  Passes.PatchWorkload(old(Cluster()), rmdWorkload.spec, address, workloadId)
    {
      var format := FormatWorkload(rmdWorkload.spec, address);
      match format {
        case Fatal => response := None;
        case FormatError => response := Some(NoResponse);
        case Formatted(payload) => response := Send(address, payload, false, "", workloadId);
      }
    }

    method DeleteWorkload(address: string, workloadId: WorkloadId) returns (ok: bool)
      requires Valid()
      modifies this
      ensures Valid() && (Cluster(), ok) == Passes.DeleteWorkload(old(Cluster()), address, workloadId)
    {
      var fault := Call();
      if address !in rmd || fault.Before? {
        return false;
      }
      ok := fault.NoFault? && exists e :: e in rmd[address].entries && e.id == workloadId;
      rmd := rmd[address := Delete(rmd[address], workloadId)];
    }

    method StoreStatus(rmdWorkload: RmdWorkload) returns (ok: bool)
      requires Valid()
      modifies this
      ensures Valid()
              && (Cluster(), ok) == Passes.StoreStatus(old(Cluster()), rmdWorkload.name, rmdWorkload.workloadStates)
    {
      var fault := Call();
      var name := rmdWorkload.name;
      if name !in objects || fault.Before? {
        return false;
      }
      objects := objects[name := objects[name].(states := rmdWorkload.workloadStates)];
      ok := fault.NoFault?;
    }

    /* ---- targeted nodes ---- */

    method GetTargetedNode(nodeName: string, rmdWorkloadName: string) returns (target: Option<Target>)
      requires Valid()
      modifies this
      ensures Valid() && Called(Cluster(), target) == Passes.GetTargetedNode(old(Cluster()), nodeName, rmdWorkloadName)
    {
      var address := GetPodAddress(nodeName);
      if address.None? {
        return None;
      }
      var activeWorkloads := GetWorkloads(address.value);
      if activeWorkloads.None? {
        return None;
      }
      var workload := FindWorkloadByName(activeWorkloads.value, rmdWorkloadName);
      target := Some(Target(nodeName, address.value, workload.uuid != ""));
    }

    method TargetListed(names: seq<string>, rmdWorkloadName: string) returns (targets: seq<Target>)
      requires Valid()
      modifies this
      ensures Valid() && Called(Cluster(), Some(targets)) == Passes.TargetListed(old(Cluster()), names, rmdWorkloadName)
    {
      targets := [];
      ghost var all := Passes.TargetListed(Cluster(), names, rmdWorkloadName);
      assert names[0..] == names;
      for i := 0 to |names|
        invariant Valid()
        invariant ListedSoFar(all, Cluster(), names[i..], rmdWorkloadName, targets)
      {
        ListedStep(all, Cluster(), names, i, rmdWorkloadName, targets);
        var target := GetTargetedNode(names[i], rmdWorkloadName);
        if target.Some? {
          targets := targets + [target.value];
        }
      }
      assert names[|names|..] == [] && targets + [] == targets;
    }

    method TargetSelected(names: seq<string>, rmdWorkloadName: string) returns (targets: Option<seq<Target>>)
      requires Valid()
      modifies this
      ensures Valid() && Called(Cluster(), targets) == Passes.TargetSelected(old(Cluster()), names, rmdWorkloadName)
    {
      var found := [];
      ghost var all := Passes.TargetSelected(Cluster(), names, rmdWorkloadName);
      assert names[0..] == names;
      for i := 0 to |names|
        invariant Valid()
        invariant SelectedSoFar(all, Cluster(), names[i..], rmdWorkloadName, found)
      {
        SelectedStep(all, Cluster(), names, i, rmdWorkloadName, found);
        var target := GetTargetedNode(names[i], rmdWorkloadName);
        if target.None? {
          return None;
        }
        found := found + [target.value];
      }
      assert names[|names|..] == [] && found + [] == found;
      targets := Some(found);
    }

    method FindTargetedNodes(rmdWorkload: RmdWorkload) returns (targets: Option<seq<Target>>)
      requires Valid()
      modifies this
      ensures Valid()
              && Called(Cluster(), targets) ==
                  Passes.FindTargetedNodes(old(Cluster()), rmdWorkload.name, rmdWorkload.spec)
    {
      if rmdWorkload.spec.nodeSelector == map[] {
        var listed := TargetListed(rmdWorkload.spec.nodes, rmdWorkload.name);
        return Some(listed);
      }
      var getFault := Call();
      if !getFault.NoFault? || config.None? {
        return None;
      }
      var listFault := Call();
      if !listFault.NoFault? {
        return None;
      }
      var names := MatchingNodes(nodes, Merge(config.value, rmdWorkload.spec.nodeSelector));
      targets := TargetSelected(names, rmdWorkload.name);
    }

    /* ---- posting, patching, and the status ---- */

    method UpdateRmdWorkloadStatus(rmdWorkload: RmdWorkload, nodeName: string, address: string, response: Response)
      returns (ok: bool)
      requires Valid()
      modifies this, rmdWorkload`workloadStates
      ensures Valid()
      ensures Synced(Cluster(), rmdWorkload.workloadStates, ok) ==
              Passes.UpdateRmdWorkloadStatus(old(Cluster()), rmdWorkload.name, old(rmdWorkload.workloadStates),
                nodeName, address, response)
    {
      var workloadState := StateOf(rmdWorkload.workloadStates, nodeName).(response := response);
      rmdWorkload.workloadStates := rmdWorkload.workloadStates[nodeName := workloadState];
      var activeWorkloads := GetWorkloads(address);
      var workload := FindWorkloadByName(if activeWorkloads.Some? then activeWorkloads.value else [], rmdWorkload.name);
      if workload.id != NoId {
        rmdWorkload.workloadStates := rmdWorkload.workloadStates[nodeName := Refreshed(workloadState, workload)];
      }
      assert rmdWorkload.workloadStates ==
             old(rmdWorkload.workloadStates)[
               nodeName := if workload.id != NoId then Refreshed(workloadState, workload) else workloadState];
      ok := StoreStatus(rmdWorkload);
    }

    method AddWorkload(address: string, rmdWorkload: RmdWorkload, nodeName: string) returns (ok: bool)
      requires Valid()
      modifies this, rmdWorkload`workloadStates
      ensures Valid()
      ensures Synced(Cluster(), rmdWorkload.workloadStates, ok) ==
              SyncTarget(old(Cluster()), rmdWorkload.name, rmdWorkload.spec, old(rmdWorkload.workloadStates),
                Target(nodeName, address, false))
    {
      var response := PostWorkload(rmdWorkload, address);
      if response.None? {
        return false;
      }
      ok := UpdateRmdWorkloadStatus(rmdWorkload, nodeName, address, response.value);
    }

    method UpdateWorkload(address: string, rmdWorkload: RmdWorkload, nodeName: string) returns (ok: bool)
      requires Valid()
      modifies this, rmdWorkload`workloadStates
      ensures Valid()
      ensures Synced(Cluster(), rmdWorkload.workloadStates, ok) ==
              SyncTarget(old(Cluster()), rmdWorkload.name, rmdWorkload.spec, old(rmdWorkload.workloadStates),
                Target(nodeName, address, true))
    {
      var response := PatchWorkload(rmdWorkload, address, StateOf(rmdWorkload.workloadStates, nodeName).id);
      if response.None? {
        return false;
      }
      ok := UpdateRmdWorkloadStatus(rmdWorkload, nodeName, address, response.value);
    }

    method SyncTargets(rmdWorkload: RmdWorkload, targets: seq<Target>) returns (ok: bool)
      requires Valid()
      modifies this, rmdWorkload`workloadStates
      ensures Valid()
      ensures Synced(Cluster(), rmdWorkload.workloadStates, ok) ==
              Passes.SyncTargets(old(Cluster()), rmdWorkload.name, rmdWorkload.spec, old(rmdWorkload.workloadStates),
                targets)
    {
      for i := 0 to |targets|
        invariant Valid()
        invariant Passes.SyncTargets(old(Cluster()), rmdWorkload.name, rmdWorkload.spec,
                                     old(rmdWorkload.workloadStates), targets) ==
                  Passes.SyncTargets(Cluster(), rmdWorkload.name, rmdWorkload.spec, rmdWorkload.workloadStates,
                                     targets[i..])
      {
        var t := targets[i];
        assert targets[i..][0] == t && targets[i..][1..] == targets[i + 1..];
        if !t.present {
          assert t == Target(t.node, t.address, false);
          ok := AddWorkload(t.address, rmdWorkload, t.node);
        } else {
          assert t == Target(t.node, t.address, true);
          ok := UpdateWorkload(t.address, rmdWorkload, t.node);
        }
        if !ok {
          return;
        }
      }
      ok := true;
    }

    /* ---- removed nodes ---- */

    method RemovalAt(nodeName: string, workloadId: WorkloadId) returns (removal: Option<Option<Removal>>)
      requires Valid()
      modifies this
      ensures Valid() && Called(Cluster(), removal) == Passes.RemovalAt(old(Cluster()), nodeName, workloadId)
    {
      var address := GetPodAddress(nodeName);
      removal := if address.None? then None else Some(Some(Removal(nodeName, address.value, workloadId)));
    }

    method CheckRemoved(rmdWorkload: RmdWorkload, nodeName: string) returns (removal: Option<Option<Removal>>)
      requires Valid()
      modifies this
      ensures Valid()
              && Called(Cluster(), removal) ==
                  Passes.CheckRemoved(old(Cluster()), rmdWorkload.name, rmdWorkload.spec, nodeName)
    {
      var address := GetPodAddress(nodeName);
      if address.None? {
        return None;
      }
      var activeWorkloads := GetWorkloads(address.value);
      if activeWorkloads.None? {
        return None;
      }
      var workload := FindWorkloadByName(activeWorkloads.value, rmdWorkload.name);
      if workload.uuid != rmdWorkload.name {
        return Some(None);
      }
      if rmdWorkload.spec.nodeSelector == map[] {
        if nodeName in rmdWorkload.spec.nodes {
          return Some(None);
        }
        removal := RemovalAt(nodeName, workload.id);
      } else {
        var fault := Call();
        var labels := FindNode(nodes, nodeName);
        if !fault.NoFault? || labels.None? {
          return None;
        }
        if AreLabelsInWhiteList(rmdWorkload.spec.nodeSelector, labels.value) {
          return Some(None);
        }
        removal := RemovalAt(nodeName, workload.id);
      }
    }

    method FindRemovedNodes(rmdWorkload: RmdWorkload) returns (removals: Option<seq<Removal>>)
      requires Valid()
      modifies this
      ensures Valid()
      ensures Called(Cluster(), removals) ==
              Passes.FindRemovedNodes(old(Cluster()), rmdWorkload.name, rmdWorkload.spec, rmdNodeData.List())
    {
      var registry := rmdNodeData.List();
      var found := [];
      ghost var all := Passes.FindRemovedNodes(Cluster(), rmdWorkload.name, rmdWorkload.spec, registry);
      assert registry[0..] == registry;
      for i := 0 to |registry|
        invariant Valid()
        invariant RemovedSoFar(all, Cluster(), rmdWorkload.name, rmdWorkload.spec, registry[i..], found)
      {
        RemovedStep(all, Cluster(), rmdWorkload.name, rmdWorkload.spec, registry, i, found);
        var removal := CheckRemoved(rmdWorkload, registry[i]);
        if removal.None? {
          return None;
        }
        found := found + if removal.value.Some? then [removal.value.value] else [];
      }
      assert registry[|registry|..] == [] && found + [] == found;
      removals := Some(found);
    }

    method RemoveWorkload(rmdWorkload: RmdWorkload, removals: seq<Removal>) returns (ok: bool)
      requires Valid()
      modifies this, rmdWorkload`workloadStates
      ensures Valid()
      ensures Synced(Cluster(), rmdWorkload.workloadStates, ok) ==
              Passes.RemoveWorkload(old(Cluster()), rmdWorkload.name, old(rmdWorkload.workloadStates), removals)
    {
      for i := 0 to |removals|
        invariant Valid()
        invariant Passes.RemoveWorkload(old(Cluster()), rmdWorkload.name, old(rmdWorkload.workloadStates), removals) ==
                  Passes.RemoveWorkload(Cluster(), rmdWorkload.name, rmdWorkload.workloadStates, removals[i..])
      {
        assert removals[i..][0] == removals[i] && removals[i..][1..] == removals[i + 1..];
        ok := DeleteWorkload(removals[i].address, removals[i].id);
        if !ok {
          return;
        }
        rmdWorkload.workloadStates := rmdWorkload.workloadStates - {removals[i].node};
      }
      ok := StoreStatus(rmdWorkload);
    }

    /* ---- a deleted object ---- */

    method FindObsoleteWorkloads(name: string) returns (obsolete: Option<map<string, WorkloadId>>)
      requires Valid()
      modifies this
      ensures Valid()
              && Called(Cluster(), obsolete) == Passes.FindObsoleteWorkloads(old(Cluster()), name, rmdNodeData.List())
    {
      var registry := rmdNodeData.List();
      var found: map<string, WorkloadId> := map[];
      ghost var all := Passes.FindObsoleteWorkloads(Cluster(), name, registry);
      assert registry[0..] == registry;
      for i := 0 to |registry|
        invariant Valid()
        invariant ObsoleteSoFar(all, Cluster(), name, registry[i..], found)
      {
        ObsoleteStep(all, Cluster(), name, registry, i, found);
        var address := GetPodAddress(registry[i]);
        if address.None? {
          return None;
        }
        var activeWorkloads := GetWorkloads(address.value);
        if activeWorkloads.None? {
          return None;
        }
        var workload := FindWorkloadByName(activeWorkloads.value, name);
        if workload.uuid != "" {
          found := found[address.value := workload.id];
        }
      }
      assert registry[|registry|..] == [] && found + map[] == found;
      obsolete := Some(found);
    }

    /** Ranges over the map in whatever order Go picks; `order` names it. */
    method DeleteObsolete(obsolete: map<string, WorkloadId>) returns (ok: bool, ghost order: seq<string>)
      requires Valid()
      modifies this
      ensures Valid() && IsOrderOfKeys(order, obsolete)
      ensures (Cluster(), ok) == Passes.DeleteObsolete(old(Cluster()), obsolete, order)
    {
      var left := obsolete.Keys;
      order := [];
      ok := true;
      while ok && left != {}
        invariant Valid() && left <= obsolete.Keys
        invariant forall a :: a in order <==> a in obsolete && a !in left
        invariant forall i, j :: 0 <= i < j < |order| ==> order[i] != order[j]
        invariant (Cluster(), ok) == Passes.DeleteObsolete(old(Cluster()), obsolete, order)
        decreases ok, left
      {
        var address :| address in left;
        left := left - {address};
        ok := DeleteWorkload(address, obsolete[address]);
        DeleteObsoleteSnoc(old(Cluster()), obsolete, order, address);
        order := order + [address];
      }
      ghost var rest := OrderExists(left);
      if rest != [] {
        assert rest[0] in left;
      }
      DeleteObsoleteStopped(old(Cluster()), obsolete, order, rest);
      ghost var whole := order + rest;
      forall i, j | 0 <= i < j < |whole|
        ensures whole[i] != whole[j]
      {
        if i < |order| <= j {
          assert order[i] in order && rest[j - |order|] in rest;
        }
      }
      order := whole;
    }

    /* ---- the pass ---- */

    method Reconcile(name: string) returns (done: bool, ghost order: seq<string>)
      requires Valid()
      modifies this
      ensures Valid() && PossibleOrder(old(Cluster()), name, order)
      ensures Pass(Cluster(), done) == Passes.Reconcile(old(Cluster()), name, order)
      ensures forall home :: name != "" && Good(home, old(Cluster())) ==>
                Good(home, Cluster()) && Frame(old(Cluster()), Cluster(), name)
    {
      ReconcileIsGood(Cluster(), name);
      order := [];
      var fault := Call();
      if !fault.NoFault? {
        ghost var found := Passes.FindObsoleteWorkloads(Cluster(), name, rmdNodeData.List()).result;
        if name !in objects && found.Some? {
          order := OrderExists(found.value.Keys);
        }
        return false, order;
      }
      if name !in objects {
        var obsolete := FindObsoleteWorkloads(name);
        if obsolete.None? {
          return false, order;
        }
        done, order := DeleteObsolete(obsolete.value);
        return;
      }
      var rmdWorkload := new RmdWorkload(name, objects[name].spec, objects[name].states);
      var targets := FindTargetedNodes(rmdWorkload);
      if targets.None? {
        return false, order;
      }
      var ok := SyncTargets(rmdWorkload, targets.value);
      if !ok {
        return false, order;
      }
      var removals := FindRemovedNodes(rmdWorkload);
      if removals.None? {
        return false, order;
      }
      done := RemoveWorkload(rmdWorkload, removals.value);
    }
  }

  /** Every pass keeps what every state of every run has, and the workloads of other names. */
  lemma ReconcileIsGood(w: World, name: string)
    ensures forall home, order :: name != "" && Good(home, w) && PossibleOrder(w, name, order) ==>
              Good(home, Passes.Reconcile(w, name, order).world)
                && Frame(w, Passes.Reconcile(w, name, order).world, name)
  {
    forall home, order | name != "" && Good(home, w) && PossibleOrder(w, name, order)
      ensures Good(home, Passes.Reconcile(w, name, order).world)
              && Frame(w, Passes.Reconcile(w, name, order).world, name)
    {
      PassGood(home, w, name, order);
    }
  }

  /** The whole lookup `all` has come as far as `w`, with `found` before what the other names add. */
  ghost predicate ListedSoFar(all: Called<seq<Target>>, w: World, rest: seq<string>, name: string, found: seq<Target>) {
    var later := Passes.TargetListed(w, rest, name);
    && all.world == later.world && (all.result.Some? <==> later.result.Some?)
    && (all.result.Some? ==> all.result.value == found + later.result.value)
  }

  lemma ListedStep(all: Called<seq<Target>>, w: World, names: seq<string>, i: nat, name: string, found: seq<Target>)
    requires i < |names| && ListedSoFar(all, w, names[i..], name, found)
    ensures var t := Passes.GetTargetedNode(w, names[i], name);
            ListedSoFar(all, t.world, names[i + 1..], name, if t.result.Some? then found + [t.result.value] else found)
  {
    assert names[i..][0] == names[i] && names[i..][1..] == names[i + 1..];
  }

  ghost predicate SelectedSoFar(all: Called<seq<Target>>, w: World, rest: seq<string>, name: string,
                                found: seq<Target>)
  {
    var later := Passes.TargetSelected(w, rest, name);
    && all.world == later.world && (all.result.Some? <==> later.result.Some?)
    && (all.result.Some? ==> all.result.value == found + later.result.value)
  }

  lemma SelectedStep(all: Called<seq<Target>>, w: World, names: seq<string>, i: nat, name: string, found: seq<Target>)
    requires i < |names| && SelectedSoFar(all, w, names[i..], name, found)
    ensures var t := Passes.GetTargetedNode(w, names[i], name);
            if t.result.None? then all == Called(t.world, None)
            else SelectedSoFar(all, t.world, names[i + 1..], name, found + [t.result.value])
  {
    assert names[i..][0] == names[i] && names[i..][1..] == names[i + 1..];
  }

  /** The whole search `all` has come as far as `w`, with `found` before the rest of the registry. */
  ghost predicate RemovedSoFar(all: Called<seq<Removal>>, w: World, name: string, spec: Spec, rest: seq<string>,
                               found: seq<Removal>)
  {
    var later := Passes.FindRemovedNodes(w, name, spec, rest);
    && all.world == later.world && (all.result.Some? <==> later.result.Some?)
    && (all.result.Some? ==> all.result.value == found + later.result.value)
  }

  lemma RemovedStep(all: Called<seq<Removal>>, w: World, name: string, spec: Spec, registry: seq<string>, i: nat,
                    found: seq<Removal>)
    requires i < |registry| && RemovedSoFar(all, w, name, spec, registry[i..], found)
    ensures var c := Passes.CheckRemoved(w, name, spec, registry[i]);
            if c.result.None? then all == Called(c.world, None)
            else RemovedSoFar(all, c.world, name, spec, registry[i + 1..],
                              found + if c.result.value.Some? then [c.result.value.value] else [])
  {
    assert registry[i..][0] == registry[i] && registry[i..][1..] == registry[i + 1..];
  }

  ghost predicate ObsoleteSoFar(all: Called<map<string, WorkloadId>>, w: World, name: string, rest: seq<string>,
                                found: map<string, WorkloadId>)
  {
    var later := Passes.FindObsoleteWorkloads(w, name, rest);
    && all.world == later.world && (all.result.Some? <==> later.result.Some?)
    && (all.result.Some? ==> all.result.value == found + later.result.value)
  }

  lemma ObsoleteStep(all: Called<map<string, WorkloadId>>, w: World, name: string, registry: seq<string>, i: nat,
                     found: map<string, WorkloadId>)
    requires i < |registry| && ObsoleteSoFar(all, w, name, registry[i..], found)
    ensures var a := Passes.GetPodAddress(w, registry[i]);
            if a.result.None? then all == Called(a.world, None)
            else
              var g := Passes.GetWorkloads(a.world, a.result.value);
              if g.result.None? then all == Called(g.world, None)
              else
                var live := FindWorkloadByName(g.result.value, name);
                ObsoleteSoFar(all, g.world, name, registry[i + 1..],
                              if live.uuid == "" then found else found[a.result.value := live.id])
  {
    assert registry[i..][0] == registry[i] && registry[i..][1..] == registry[i + 1..];
  }

  lemma {:induction false} DeleteObsoleteSnoc(w: World, obsolete: map<string, WorkloadId>, order: seq<string>,
                                              a: string)
    requires a in obsolete && forall b :: b in order ==> b in obsolete
    ensures Passes.DeleteObsolete(w, obsolete, order + [a]) ==
            var (w', ok) := Passes.DeleteObsolete(w, obsolete, order);
            if ok then Passes.DeleteWorkload(w', a, obsolete[a]) else (w', ok)
    decreases |order|
  {
    if order == [] {
      assert order + [a] == [a];
    } else {
      assert (order + [a])[1..] == order[1..] + [a];
      var (w', ok) := Passes.DeleteWorkload(w, order[0], obsolete[order[0]]);
      if ok {
        DeleteObsoleteSnoc(w', obsolete, order[1..], a);
      }
    }
  }

  /** Once a delete failed, the addresses that would have come later make no difference. */
  lemma {:induction false} DeleteObsoleteStopped(w: World, obsolete: map<string, WorkloadId>, order: seq<string>,
                                                 rest: seq<string>)
    requires forall b :: b in order || b in rest ==> b in obsolete
    requires Passes.DeleteObsolete(w, obsolete, order).1 ==> rest == []
    ensures Passes.DeleteObsolete(w, obsolete, order + rest) == Passes.DeleteObsolete(w, obsolete, order)
    decreases |rest|
  {
    if rest == [] {
      assert order + rest == order;
    } else {
      DeleteObsoleteSnoc(w, obsolete, order, rest[0]);
      assert order + rest == (order + [rest[0]]) + rest[1..];
      DeleteObsoleteStopped(w, obsolete, order + [rest[0]], rest[1..]);
    }
  }
}

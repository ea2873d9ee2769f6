/**
 One pass of the RmdWorkload controller (pkg/controller/rmdworkload/rmdworkload_controller.go), as a
 function on the state of the cluster. Every remote call takes the next fault from a tape, so a
 statement about every tape covers a failure at any call; an empty tape is a run without faults.
 */
module Passes {
  import opened Basics
  import opened RmdClient
  import opened RmdServer

  /** What goes wrong with a call: nothing, a failure before it takes effect, or after. */
  datatype Fault = NoFault | Before | After

  /** The text kept in the status: none, "Success: <code>", or the text of a failure. */
  datatype Response = NoResponse | Success(code: nat) | Failure

  datatype WorkloadState = WorkloadState(
    response: Response, id: WorkloadId, policy: string, coreIds: seq<string>,
    cacheMax: int, cacheMin: int, mbaPercentage: int, mbaMbps: int)

  const EMPTY_STATE := WorkloadState(NoResponse, NoId, "", [], 0, 0, 0, 0)

  type States = map<string, WorkloadState>

  datatype Workload = Workload(spec: Spec, states: States)

  datatype Node = Node(name: string, labels: Labels)

  /**
   What a pass reads and never writes: the cluster's nodes, the RmdNodeSelector of the RmdConfig
   object if it exists, the address of each node whose RMD pod resolves, and the shared node list.
   */
  datatype Env = Env(nodes: seq<Node>, config: Option<Labels>, addresses: map<string, string>, registry: seq<string>)

  /** `rmd` maps an address to the instance that serves it. */
  datatype World = World(env: Env, objects: map<string, Workload>, rmd: map<string, Instance>, faults: seq<Fault>)

  /** The outcome of a step that reads: the state after it, and its result unless it failed. */
  datatype Called<+T> = Called(world: World, result: Option<T>)

  function NextFault(w: World): Fault {
    if w.faults == [] then NoFault else w.faults[0]
  }

  function FaultsLeft(faults: seq<Fault>): nat {
    if faults == [] then 0 else (if faults[0].NoFault? then 0 else 1) + FaultsLeft(faults[1..])
  }

  function Spent(w: World): (w': World)
    ensures w' == w.(faults := w'.faults)
    ensures FaultsLeft(w.faults) == FaultsLeft(w'.faults) + if NextFault(w).NoFault? then 0 else 1
  {
    if w.faults == [] then w else w.(faults := w.faults[1..])
  }

  /** `w'` follows from `w` by calls that only read. */
  ghost predicate OnlyRead(w: World, w': World) {
    w' == w.(faults := w'.faults) && FaultsLeft(w'.faults) <= FaultsLeft(w.faults)
  }

  /* ---- calls ---- */

  function GetPodAddress(w: World, node: string): Called<string> {
    Called(Spent(w), if NextFault(w).NoFault? && node in w.env.addresses then Some(w.env.addresses[node]) else None)
  }

  function GetWorkloads(w: World, address: string): Called<seq<Entry>> {
    Called(Spent(w), if NextFault(w).NoFault? && address in w.rmd then Some(w.rmd[address].entries) else None)
  }

  /** formatWorkload asks the instance for its caches only when all cores are wanted. */
  function FormatRequest(w: World, spec: Spec, address: string): (World, Format) {
    if !spec.allCores then (w, FormatWorkload(spec, []))
    else if NextFault(w).NoFault? && address in w.rmd then
      (Spent(w), FormatWorkload(spec, w.rmd[address].shareCpuLists))
    else (Spent(w), FormatError)
  }

  /** A request that changes an instance: `None` when the process ends before it answers. */
  function Send(w: World, address: string, payload: Payload, post: bool, name: string,
                id: WorkloadId): Called<Response>
  {
    var w1 := Spent(w);
    if address !in w.rmd || NextFault(w).Before? then Called(w1, Some(Failure))
    else
      var i := w.rmd[address];
      var changed := w1.(rmd := w.rmd[address := if post then Post(i, name, payload) else Patch(i, id, payload)]);
      if NextFault(w).After? || (!post && !Live(i, id)) then Called(changed, Some(Failure))
      else Called(changed, Some(Success(if post then 201 else 200)))
  }

  function SendFormatted(w: World, spec: Spec, address: string, post: bool, name: string,
                         id: WorkloadId): Called<Response>
  {
    var (w1, format) := FormatRequest(w, spec, address);
    match format
    case Fatal => Called(w1, None)
    case FormatError => Called(w1, Some(NoResponse))
    case Formatted(payload) => Send(w1, address, payload, post, name, id)
  }

  function PostWorkload(w: World, name: string, spec: Spec, address: string): Called<Response> {
    SendFormatted(w, spec, address, true, name, NoId)
  }

  function PatchWorkload(w: World, spec: Spec, address: string, id: WorkloadId): Called<Response> {
    SendFormatted(w, spec, address, false, "", id)
  }

  /** The result says whether the request was answered with success. */
  function DeleteWorkload(w: World, address: string, id: WorkloadId): (World, bool) {
    var w1 := Spent(w);
    if address !in w.rmd || NextFault(w).Before? then (w1, false)
    else (w1.(rmd := w.rmd[address := Delete(w.rmd[address], id)]),
          NextFault(w).NoFault? && Live(w.rmd[address], id))
  }

  /** Status().Update: stores the whole status of an object that still exists. */
  function StoreStatus(w: World, name: string, states: States): (World, bool) {
    var w1 := Spent(w);
    if name !in w.objects || NextFault(w).Before? then (w1, false)
    else (w1.(objects := w.objects[name := w.objects[name].(states := states)]), NextFault(w).NoFault?)
  }

  /* ---- targeted nodes ---- */

  datatype Target = Target(node: string, address: string, present: bool)

  function GetTargetedNode(w: World, node: string, name: string): (r: Called<Target>)
    ensures OnlyRead(w, r.world)
  {
    var a := GetPodAddress(w, node);
    if a.result.None? then Called(a.world, None)
    else
      var g := GetWorkloads(a.world, a.result.value);
      if g.result.None? then Called(g.world, None)
      else Called(g.world, Some(Target(node, a.result.value, FindWorkloadByName(g.result.value, name).uuid != "")))
  }

  /** Nodes listed in the spec: one that cannot be looked up is passed over. */
  function TargetListed(w: World, nodes: seq<string>, name: string): (r: Called<seq<Target>>)
    ensures OnlyRead(w, r.world)
    decreases |nodes|
  {
    if nodes == [] then Called(w, Some([]))
    else
      var t := GetTargetedNode(w, nodes[0], name);
      var rest := TargetListed(t.world, nodes[1..], name);
      if t.result.None? || rest.result.None? then rest
      else Called(rest.world, Some([t.result.value] + rest.result.value))
  }

  /** Nodes chosen by labels: one that cannot be looked up ends the pass. */
  function TargetSelected(w: World, nodes: seq<string>, name: string): (r: Called<seq<Target>>)
    ensures OnlyRead(w, r.world)
    decreases |nodes|
  {
    if nodes == [] then Called(w, Some([]))
    else
      var t := GetTargetedNode(w, nodes[0], name);
      if t.result.None? then Called(t.world, None)
      else
        var rest := TargetSelected(t.world, nodes[1..], name);
        if rest.result.None? then rest
        else Called(rest.world, Some([t.result.value] + rest.result.value))
  }

  /** labels.Merge: the second map wins. */
  function Merge(a: Labels, b: Labels): Labels {
    a + b
  }

  predicate Matches(selector: Labels, labels: Labels) {
    forall k :: k in selector ==> k in labels && labels[k] == selector[k]
  }

  /** labels.AreLabelsInWhiteList: a node without labels passes too. */
  predicate AreLabelsInWhiteList(selector: Labels, labels: Labels) {
    labels == map[] || Matches(selector, labels)
  }

  function MatchingNodes(nodes: seq<Node>, selector: Labels): (names: seq<string>)
    ensures forall n :: n in names <==> exists node :: node in nodes && node.name == n && Matches(selector, node.labels)
  {
    if nodes == [] then []
    else (if Matches(selector, nodes[0].labels) then [nodes[0].name] else []) + MatchingNodes(nodes[1..], selector)
  }

  function FindTargetedNodes(w: World, name: string, spec: Spec): (r: Called<seq<Target>>)
    ensures OnlyRead(w, r.world)
  {
    if spec.nodeSelector == map[] then TargetListed(w, spec.nodes, name)
    else
      var w1 := Spent(w);
      if !NextFault(w).NoFault? || w.env.config.None? then Called(w1, None)
      else
        var w2 := Spent(w1);
        if !NextFault(w1).NoFault? then Called(w2, None)
        else TargetSelected(w2, MatchingNodes(w.env.nodes, Merge(w.env.config.value, spec.nodeSelector)), name)
  }

  /* ---- posting, patching, and the status ---- */

  function StateOf(states: States, node: string): WorkloadState {
    if node in states then states[node] else EMPTY_STATE
  }

  function OrZero(v: Option<uint32>): int {
    match v
    case None => 0
    case Some(n) => n
  }

  function Refreshed(state: WorkloadState, live: Entry): WorkloadState {
    state.(id := live.id, policy := live.config.policy, coreIds := live.config.coreIds,
           cacheMax := OrZero(live.config.cacheMax), cacheMin := OrZero(live.config.cacheMin),
           mbaPercentage := OrZero(live.config.mbaPercentage), mbaMbps := OrZero(live.config.mbaMbps))
  }

  /** The state of a target after its status was stored; `ok` is false when the pass ends there. */
  datatype Synced = Synced(world: World, states: States, ok: bool)

  function UpdateRmdWorkloadStatus(w: World, name: string, states: States, node: string, address: string,
                                   response: Response): Synced
  {
    var answered := StateOf(states, node).(response := response);
    var g := GetWorkloads(w, address);
    var live := FindWorkloadByName(if g.result.Some? then g.result.value else [], name);
    var states' := states[node := if live.id != NoId then Refreshed(answered, live) else answered];
    var (w', ok) := StoreStatus(g.world, name, states');
    Synced(w', states', ok)
  }

  function SyncTarget(w: World, name: string, spec: Spec, states: States, t: Target): Synced {
    var sent := if !t.present then PostWorkload(w, name, spec, t.address)
                else PatchWorkload(w, spec, t.address, StateOf(states, t.node).id);
    match sent.result
    case None => Synced(sent.world, states, false)
    case Some(response) => UpdateRmdWorkloadStatus(sent.world, name, states, t.node, t.address, response)
  }

  function SyncTargets(w: World, name: string, spec: Spec, states: States, targets: seq<Target>): Synced
    decreases |targets|
  {
    if targets == [] then Synced(w, states, true)
    else
      var s := SyncTarget(w, name, spec, states, targets[0]);
      if !s.ok then s else SyncTargets(s.world, name, spec, s.states, targets[1..])
  }

  /* ---- removed nodes ---- */

  datatype Removal = Removal(node: string, address: string, id: WorkloadId)

  function FindNode(nodes: seq<Node>, name: string): (labels: Option<Labels>)
    ensures labels.Some? ==> exists node :: node in nodes && node.name == name && node.labels == labels.value
    ensures labels.None? ==> forall node :: node in nodes ==> node.name != name
  {
    if nodes == [] then None
    else if nodes[0].name == name then Some(nodes[0].labels)
    else FindNode(nodes[1..], name)
  }

  /** Looks at one registered node: `Some(None)` when nothing has to be removed there. */
  function CheckRemoved(w: World, name: string, spec: Spec, node: string): (r: Called<Option<Removal>>)
    ensures OnlyRead(w, r.world)
  {
    var a := GetPodAddress(w, node);
    if a.result.None? then Called(a.world, None)
    else
      var g := GetWorkloads(a.world, a.result.value);
      if g.result.None? then Called(g.world, None)
      else
        var live := FindWorkloadByName(g.result.value, name);
        if live.uuid != name then Called(g.world, Some(None))
        else if spec.nodeSelector == map[] then
          if node in spec.nodes then Called(g.world, Some(None)) else RemovalAt(g.world, node, live.id)
        else
          var w1 := Spent(g.world);
          var labels := FindNode(w1.env.nodes, node);
          if !NextFault(g.world).NoFault? || labels.None? then Called(w1, None)
          else if AreLabelsInWhiteList(spec.nodeSelector, labels.value) then Called(w1, Some(None))
          else RemovalAt(w1, node, live.id)
  }

  function RemovalAt(w: World, node: string, id: WorkloadId): Called<Option<Removal>> {
    var a := GetPodAddress(w, node);
    if a.result.None? then Called(a.world, None)
    else Called(a.world, Some(Some(Removal(node, a.result.value, id))))
  }

  function FindRemovedNodes(w: World, name: string, spec: Spec, registry: seq<string>): (r: Called<seq<Removal>>)
    ensures OnlyRead(w, r.world)
    decreases |registry|
  {
    if registry == [] then Called(w, Some([]))
    else
      var c := CheckRemoved(w, name, spec, registry[0]);
      if c.result.None? then Called(c.world, None)
      else
        var rest := FindRemovedNodes(c.world, name, spec, registry[1..]);
        if rest.result.None? then rest
        else Called(rest.world, Some((if c.result.value.Some? then [c.result.value.value] else []) + rest.result.value))
  }

  function RemoveWorkload(w: World, name: string, states: States, removals: seq<Removal>): Synced
    decreases |removals|
  {
    if removals == [] then
      var (w', ok) := StoreStatus(w, name, states);
      Synced(w', states, ok)
    else
      var (w', ok) := DeleteWorkload(w, removals[0].address, removals[0].id);
      if !ok then Synced(w', states, false)
      else RemoveWorkload(w', name, states - {removals[0].node}, removals[1..])
  }

  /* ---- a deleted object ---- */

  function FindObsoleteWorkloads(w: World, name: string, registry: seq<string>): (r: Called<map<string, WorkloadId>>)
    ensures OnlyRead(w, r.world)
    decreases |registry|
  {
    if registry == [] then Called(w, Some(map[]))
    else
      var a := GetPodAddress(w, registry[0]);
      if a.result.None? then Called(a.world, None)
      else
        var g := GetWorkloads(a.world, a.result.value);
        if g.result.None? then Called(g.world, None)
        else
          var live := FindWorkloadByName(g.result.value, name);
          var rest := FindObsoleteWorkloads(g.world, name, registry[1..]);
          if rest.result.None? || live.uuid == "" then rest
          else Called(rest.world, Some(map[a.result.value := live.id] + rest.result.value))
  }

  function DeleteObsolete(w: World, obsolete: map<string, WorkloadId>, order: seq<string>): (World, bool)
    requires forall a :: a in order ==> a in obsolete
    decreases |order|
  {
    if order == [] then (w, true)
    else
      var (w', ok) := DeleteWorkload(w, order[0], obsolete[order[0]]);
      if !ok then (w', false) else DeleteObsolete(w', obsolete, order[1..])
  }

  /* ---- the pass ---- */

  /** The state after a pass, and whether it reported success. */
  datatype Pass = Pass(world: World, done: bool)

  /** The final check: finds the nodes that are no longer wanted and deletes there. */
  function Prune(w: World, name: string, spec: Spec, states: States): Pass {
    var r := FindRemovedNodes(w, name, spec, w.env.registry);
    if r.result.None? then Pass(r.world, false)
    else
      var e := RemoveWorkload(r.world, name, states, r.result.value);
      Pass(e.world, e.ok)
  }

  function Sync(w: World, name: string): Pass
    requires name in w.objects
  {
    var spec := w.objects[name].spec;
    var t := FindTargetedNodes(w, name, spec);
    if t.result.None? then Pass(t.world, false)
    else
      var s := SyncTargets(t.world, name, spec, w.objects[name].states, t.result.value);
      if !s.ok then Pass(s.world, false) else Prune(s.world, name, spec, s.states)
  }

  /** `order` is the order in which Go happens to range over the map of obsolete workloads. */
  predicate PossibleOrder(w: World, name: string, order: seq<string>) {
    var found := FindObsoleteWorkloads(Spent(w), name, w.env.registry).result;
    name !in w.objects && found.Some? ==> IsOrderOfKeys(order, found.value)
  }

  predicate IsOrderOfKeys(order: seq<string>, m: map<string, WorkloadId>) {
    && (forall i, j :: 0 <= i < j < |order| ==> order[i] != order[j])
    && (forall a :: a in order ==> a in m)
    && (forall a :: a in m ==> a in order)
  }

  function Reconcile(w: World, name: string, order: seq<string>): Pass
    requires PossibleOrder(w, name, order)
  {
    var w1 := Spent(w);
    if !NextFault(w).NoFault? then Pass(w1, false)
    else if name in w.objects then Sync(w1, name)
    else
      var found := FindObsoleteWorkloads(w1, name, w.env.registry);
      if found.result.None? then Pass(found.world, false)
      else
        var (w', ok) := DeleteObsolete(found.world, found.result.value, order);
        Pass(w', ok)
  }
}

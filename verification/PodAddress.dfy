/**
 Where the RMD instance of a node is found: the pod lookups of pkg/util/util.go and getPodAddress of
 the RmdWorkload controller.
 */
module PodAddress {
  import opened Basics
  import opened Text

  datatype Pod = Pod(
    nodeName: string, hostIP: string, podIP: string, podIPs: seq<string>, containerPorts: seq<seq<nat>>)

  datatype NodeInfo = NodeInfo(name: string, addresses: seq<string>)

  function GetPodFromNodeName(pods: seq<Pod>, nodeName: string): (pod: Option<Pod>)
    ensures pod.Some? ==> pod.value in pods && pod.value.nodeName == nodeName
    ensures pod.None? ==> forall p :: p in pods ==> p.nodeName != nodeName
  {
    if pods == [] then None
    else if pods[0].nodeName == nodeName then Some(pods[0])
    else GetPodFromNodeName(pods[1..], nodeName)
  }

  function GetPodFromNodeAddresses(pods: seq<Pod>, addresses: seq<string>): (pod: Option<Pod>)
    ensures pod.Some? ==> pod.value in pods && pod.value.hostIP in addresses
    ensures pod.None? ==> forall p :: p in pods ==> p.hostIP !in addresses
  {
    if pods == [] then None
    else if pods[0].hostIP in addresses then Some(pods[0])
    else GetPodFromNodeAddresses(pods[1..], addresses)
  }

  function GetPod(pods: seq<Pod>, nodeName: Option<string>, addresses: seq<string>): Option<Pod> {
    match nodeName
    case Some(name) => GetPodFromNodeName(pods, name)
    case None => GetPodFromNodeAddresses(pods, addresses)
  }

  ghost predicate OnHost(pod: Pod, nodeName: Option<string>, addresses: seq<string>) {
    match nodeName
    case Some(name) => pod.nodeName == name
    case None => pod.hostIP in addresses
  }

  ghost predicate IsFirst(pods: seq<Pod>, nodeName: Option<string>, addresses: seq<string>, k: nat) {
    && k < |pods| && OnHost(pods[k], nodeName, addresses)
    && forall j :: 0 <= j < k ==> !OnHost(pods[j], nodeName, addresses)
  }

  lemma FirstOfRest(pods: seq<Pod>, nodeName: Option<string>, addresses: seq<string>, k: nat)
    requires pods != [] && !OnHost(pods[0], nodeName, addresses) && IsFirst(pods[1..], nodeName, addresses, k)
    ensures IsFirst(pods, nodeName, addresses, k + 1) && pods[k + 1] == pods[1..][k]
  {
    var rest := pods[1..];
    assert forall j :: 0 < j < k + 1 ==> pods[j] == rest[j - 1];
  }

  /** Both lookups find the first pod in the list: by the node's name, or by its addresses when no name is given. */
  lemma {:induction false} FindsFirstPod(pods: seq<Pod>, nodeName: Option<string>, addresses: seq<string>)
    ensures var pod := GetPod(pods, nodeName, addresses);
            pod.Some? ==> exists k: nat :: IsFirst(pods, nodeName, addresses, k) && pods[k] == pod.value
  {
    var pod := GetPod(pods, nodeName, addresses);
    if pods != [] && OnHost(pods[0], nodeName, addresses) {
      assert IsFirst(pods, nodeName, addresses, 0) && pods[0] == pod.value;
    } else if pods != [] {
      FindsFirstPod(pods[1..], nodeName, addresses);
      if pod.Some? {
        var k: nat :| IsFirst(pods[1..], nodeName, addresses, k) && pods[1..][k] == pod.value;
        FirstOfRest(pods, nodeName, addresses, k);
      }
    }
  }

  function GetNode(nodes: seq<NodeInfo>, name: string): (node: Option<NodeInfo>)
    ensures node.Some? ==> node.value in nodes && node.value.name == name
  {
    if nodes == [] then None
    else if nodes[0].name == name then Some(nodes[0])
    else GetNode(nodes[1..], name)
  }

  function RmdPod(pods: seq<Pod>, nodes: seq<NodeInfo>, nodeName: string): Option<Pod> {
    var byName := GetPodFromNodeName(pods, nodeName);
    if byName.Some? then byName
    else
      match GetNode(nodes, nodeName)
      case None => None
      case Some(node) => GetPodFromNodeAddresses(pods, node.addresses)
  }

  function PodIp(pod: Pod): Option<string> {
    if pod.podIP != "" then Some(pod.podIP)
    else if pod.podIPs != [] then Some(pod.podIPs[0])
    else None
  }

  function Address(prefix: string, ip: string, port: nat): string {
    prefix + ip + ":" + Itoa(port)
  }

  function GetPodAddress(prefix: string, pods: seq<Pod>, nodes: seq<NodeInfo>, nodeName: string): Option<string> {
    match RmdPod(pods, nodes, nodeName)
    case None => None
    case Some(pod) =>
      if PodIp(pod).None? || pod.containerPorts == [] || pod.containerPorts[0] == [] then None
      else Some(Address(prefix, PodIp(pod).value, pod.containerPorts[0][0]))
  }

  /** Pod `k` is the first that names the node. */
  ghost predicate FirstNamed(pods: seq<Pod>, nodeName: string, k: nat) {
    k < |pods| && pods[k].nodeName == nodeName && forall j :: 0 <= j < k ==> pods[j].nodeName != nodeName
  }

  ghost predicate FirstHosted(pods: seq<Pod>, addresses: seq<string>, k: nat) {
    k < |pods| && pods[k].hostIP in addresses && forall j :: 0 <= j < k ==> pods[j].hostIP !in addresses
  }

  ghost predicate FirstNode(nodes: seq<NodeInfo>, nodeName: string, n: nat) {
    n < |nodes| && nodes[n].name == nodeName && forall j :: 0 <= j < n ==> nodes[j].name != nodeName
  }

  /** Pod `k` stands for the node: the first that names it, or failing any the first on one of its addresses. */
  ghost predicate StandsFor(pods: seq<Pod>, nodes: seq<NodeInfo>, nodeName: string, k: nat) {
    || FirstNamed(pods, nodeName, k)
    || ((forall p :: p in pods ==> p.nodeName != nodeName)
        && exists n: nat :: FirstNode(nodes, nodeName, n) && FirstHosted(pods, nodes[n].addresses, k))
  }

  /** The pod answers at its IP, or its first IP when that is empty, and the first port of its first container. */
  ghost predicate ListensAt(pod: Pod, ip: string, port: nat) {
    && (if pod.podIP != "" then ip == pod.podIP else pod.podIPs != [] && ip == pod.podIPs[0])
    && pod.containerPorts != [] && pod.containerPorts[0] != [] && port == pod.containerPorts[0][0]
  }

  lemma {:induction false} NamedExactly(pods: seq<Pod>, nodeName: string)
    ensures var pod := GetPodFromNodeName(pods, nodeName);
            pod.Some? ==> exists k: nat :: FirstNamed(pods, nodeName, k) && pods[k] == pod.value
  {
    FindsFirstPod(pods, Some(nodeName), []);
    if GetPodFromNodeName(pods, nodeName).Some? {
      var k: nat :| IsFirst(pods, Some(nodeName), [], k) && pods[k] == GetPodFromNodeName(pods, nodeName).value;
      assert forall j :: 0 <= j < k ==> !OnHost(pods[j], Some(nodeName), []);
      assert FirstNamed(pods, nodeName, k);
    }
  }

  lemma {:induction false} HostedExactly(pods: seq<Pod>, addresses: seq<string>)
    ensures var pod := GetPodFromNodeAddresses(pods, addresses);
            pod.Some? ==> exists k: nat :: FirstHosted(pods, addresses, k) && pods[k] == pod.value
  {
    FindsFirstPod(pods, None, addresses);
    if GetPodFromNodeAddresses(pods, addresses).Some? {
      var k: nat :| IsFirst(pods, None, addresses, k) && pods[k] == GetPodFromNodeAddresses(pods, addresses).value;
      assert forall j :: 0 <= j < k ==> !OnHost(pods[j], None, addresses);
      assert FirstHosted(pods, addresses, k);
    }
  }

  lemma {:induction false} NodeExactly(nodes: seq<NodeInfo>, nodeName: string)
    ensures var node := GetNode(nodes, nodeName);
            if node.Some? then exists n: nat :: FirstNode(nodes, nodeName, n) && nodes[n] == node.value
            else forall n :: n in nodes ==> n.name != nodeName
  {
    if nodes != [] {
      if nodes[0].name == nodeName {
        assert FirstNode(nodes, nodeName, 0);
      } else {
        NodeExactly(nodes[1..], nodeName);
        if GetNode(nodes, nodeName).Some? {
          var n: nat :| FirstNode(nodes[1..], nodeName, n) && nodes[1..][n] == GetNode(nodes, nodeName).value;
          assert forall j :: 0 < j < n + 1 ==> nodes[j] == nodes[1..][j - 1];
          assert FirstNode(nodes, nodeName, n + 1);
        }
      }
    }
  }

  /** The pod a node resolves to is the one that stands for it. */
  lemma RmdPodExactly(pods: seq<Pod>, nodes: seq<NodeInfo>, nodeName: string)
    ensures var pod := RmdPod(pods, nodes, nodeName);
            if pod.Some? then exists k: nat :: StandsFor(pods, nodes, nodeName, k) && pods[k] == pod.value
            else forall k: nat :: !StandsFor(pods, nodes, nodeName, k)
  {
    NamedExactly(pods, nodeName);
    if GetPodFromNodeName(pods, nodeName).None? {
      assert forall k: nat :: !FirstNamed(pods, nodeName, k);
      NodeExactly(nodes, nodeName);
      if GetNode(nodes, nodeName).Some? {
        HostedExactly(pods, GetNode(nodes, nodeName).value.addresses);
      }
    } else {
      var k: nat :| FirstNamed(pods, nodeName, k) && pods[k] == GetPodFromNodeName(pods, nodeName).value;
      assert StandsFor(pods, nodes, nodeName, k);
    }
  }

  lemma StandsForOne(pods: seq<Pod>, nodes: seq<NodeInfo>, nodeName: string, j: nat, k: nat)
    requires StandsFor(pods, nodes, nodeName, j) && StandsFor(pods, nodes, nodeName, k)
    ensures j == k
  {
    if FirstNamed(pods, nodeName, j) || FirstNamed(pods, nodeName, k) {
      assert pods[j] in pods && pods[k] in pods;
    } else {
      var m: nat :| FirstNode(nodes, nodeName, m) && FirstHosted(pods, nodes[m].addresses, j);
      var n: nat :| FirstNode(nodes, nodeName, n) && FirstHosted(pods, nodes[n].addresses, k);
      assert !(m < n) && !(n < m);
      assert !(j < k) && !(k < j);
    }
  }

  lemma AddressOf(prefix: string, pods: seq<Pod>, nodes: seq<NodeInfo>, nodeName: string, k: nat, ip: string, port: nat)
    requires StandsFor(pods, nodes, nodeName, k) && ListensAt(pods[k], ip, port)
    ensures GetPodAddress(prefix, pods, nodes, nodeName) == Some(prefix + ip + ":" + Itoa(port))
  {
    RmdPodExactly(pods, nodes, nodeName);
    var j: nat :| StandsFor(pods, nodes, nodeName, j) && pods[j] == RmdPod(pods, nodes, nodeName).value;
    StandsForOne(pods, nodes, nodeName, j, k);
  }

  ghost predicate ReachedAt(prefix: string, pods: seq<Pod>, nodes: seq<NodeInfo>, nodeName: string, address: string,
                            k: nat, ip: string, port: nat)
  {
    StandsFor(pods, nodes, nodeName, k) && ListensAt(pods[k], ip, port) && address == prefix + ip + ":" + Itoa(port)
  }

  /** A node resolves to an address exactly when a pod stands for it, has an IP and opens a port, and then to these. */
  lemma AddressExactly(prefix: string, pods: seq<Pod>, nodes: seq<NodeInfo>, nodeName: string, address: string)
    ensures GetPodAddress(prefix, pods, nodes, nodeName) == Some(address) <==>
            exists k: nat, ip: string, port: nat :: ReachedAt(prefix, pods, nodes, nodeName, address, k, ip, port)
  {
    if GetPodAddress(prefix, pods, nodes, nodeName) == Some(address) {
      RmdPodExactly(pods, nodes, nodeName);
      var pod := RmdPod(pods, nodes, nodeName).value;
      var k: nat :| StandsFor(pods, nodes, nodeName, k) && pods[k] == pod;
      assert ReachedAt(prefix, pods, nodes, nodeName, address, k, PodIp(pod).value, pod.containerPorts[0][0]);
    }
    forall k: nat, ip: string, port: nat | ReachedAt(prefix, pods, nodes, nodeName, address, k, ip, port)
      ensures GetPodAddress(prefix, pods, nodes, nodeName) == Some(address)
    {
      AddressOf(prefix, pods, nodes, nodeName, k, ip, port);
    }
  }

  ghost predicate LastColon(s: string, c: nat) {
    c < |s| && s[c] == ':' && forall j :: c < j < |s| ==> s[j] != ':'
  }

  lemma PortHasNoColon(prefix: string, ip: string, port: nat)
    ensures LastColon(Address(prefix, ip, port), |prefix| + |ip|)
  {
    ParseItoa(port);
    var a, c := Address(prefix, ip, port), |prefix| + |ip|;
    forall j | c < j < |a|
      ensures a[j] != ':'
    {
      assert a[j] == Itoa(port)[j - c - 1];
    }
  }

  /** The last colon of an address separates its port, whatever the IP looks like. */
  lemma AddressesDiffer(prefix: string, ip: string, port: nat, ip': string, port': nat)
    requires Address(prefix, ip, port) == Address(prefix, ip', port')
    ensures ip == ip' && port == port'
  {
    var a := Address(prefix, ip, port);
    PortHasNoColon(prefix, ip, port);
    PortHasNoColon(prefix, ip', port');
    assert |ip| == |ip'|;
    assert ip == a[|prefix|..|prefix| + |ip|] == ip';
    assert Itoa(port) == a[|prefix| + |ip| + 1..] == Itoa(port');
    ItoaInjective(port, port');
  }

  /** The pods the lookups choose from differ in their IPs. */
  ghost predicate DistinctIps(pods: seq<Pod>) {
    forall p, q :: p in pods && q in pods && PodIp(p).Some? && PodIp(p) == PodIp(q) ==> p == q
  }

  /** No host address belongs to two nodes, and a pod that names its node runs on a host of no other. */
  ghost predicate HostsAgree(pods: seq<Pod>, nodes: seq<NodeInfo>) {
    && (forall m, n, a :: m in nodes && n in nodes && a in m.addresses && a in n.addresses ==> m.name == n.name)
    && (forall p, m, n :: p in pods && m in nodes && n in nodes && p.nodeName == m.name && p.hostIP in n.addresses ==>
            m.name == n.name)
  }

  /** Two nodes of the cluster that resolve to one address are one node, by name or by host address. */
  lemma ResolutionIsInjective(prefix: string, pods: seq<Pod>, nodes: seq<NodeInfo>, m: string, n: string)
    requires DistinctIps(pods) && HostsAgree(pods, nodes)
    requires GetNode(nodes, m).Some? && GetNode(nodes, n).Some?
    requires GetPodAddress(prefix, pods, nodes, m).Some?
    requires GetPodAddress(prefix, pods, nodes, m) == GetPodAddress(prefix, pods, nodes, n)
    ensures m == n
  {
    var p, q := RmdPod(pods, nodes, m).value, RmdPod(pods, nodes, n).value;
    AddressesDiffer(prefix, PodIp(p).value, p.containerPorts[0][0], PodIp(q).value, q.containerPorts[0][0]);
    assert p == q;
    assert p.nodeName == m || p.hostIP in GetNode(nodes, m).value.addresses;
    assert p.nodeName == n || p.hostIP in GetNode(nodes, n).value.addresses;
  }

  /** The addresses of all nodes that resolve. */
  ghost function AddressMap(prefix: string, pods: seq<Pod>, nodes: seq<NodeInfo>): map<string, string> {
    var names := set n | n in nodes :: n.name;
    map n | n in names && GetPodAddress(prefix, pods, nodes, n).Some? :: GetPodAddress(prefix, pods, nodes, n).value
  }

  lemma {:induction false} GetNodeFinds(nodes: seq<NodeInfo>, n: NodeInfo)
    requires n in nodes
    ensures GetNode(nodes, n.name).Some?
  {
    if nodes[0].name != n.name {
      GetNodeFinds(nodes[1..], n);
    }
  }

  /** What the passes assume of the addresses they are given. */
  lemma AddressMapIsInjective(prefix: string, pods: seq<Pod>, nodes: seq<NodeInfo>)
    requires DistinctIps(pods) && HostsAgree(pods, nodes)
    ensures Injective(AddressMap(prefix, pods, nodes))
  {
    var addresses := AddressMap(prefix, pods, nodes);
    forall m, n | m in addresses && n in addresses && addresses[m] == addresses[n]
      ensures m == n
    {
      var x :| x in nodes && x.name == m;
      var y :| y in nodes && y.name == n;
      GetNodeFinds(nodes, x);
      GetNodeFinds(nodes, y);
      ResolutionIsInjective(prefix, pods, nodes, m, n);
    }
  }
}

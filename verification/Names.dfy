/**
 The names the operator builds and takes apart: RmdWorkload objects made for containers
 (pkg/nodeagent/pod_controller.go) and RmdNodeState objects made for nodes
 (pkg/controller/rmdconfig/rmdconfig_controller.go, pkg/controller/rmdnodestate/rmdnodestate_controller.go).
 */
module Names {
  import opened Text

  const WORKLOAD_INFIX := "-rmd-workload-"
  const NODE_STATE_PREFIX := "rmd-node-state-"

  function WorkloadName(pod: string, container: string): string {
    pod + WORKLOAD_INFIX + container
  }

  /** The check made before a workload is built for a container. */
  ghost predicate ContainerAccepted(container: string) {
    !Contains(container, WORKLOAD_INFIX)
  }

  /** The infix read one dash later: a pod that ends in it takes what a container begins with. */
  ghost predicate Overlaps(pod: string, container: string, pod': string, container': string) {
    pod' == pod + "-rmd-workload" && container == "rmd-workload-" + container'
  }

  /** The only way the infix can meet itself is in its outer dashes. */
  lemma InfixOverlap(d: nat)
    requires 0 < d < |WORKLOAD_INFIX| && WORKLOAD_INFIX[d..] == WORKLOAD_INFIX[..|WORKLOAD_INFIX| - d]
    ensures d == 13
  {
    var m := |WORKLOAD_INFIX| - d;
    forall k | 0 <= k < m
      ensures WORKLOAD_INFIX[d + k] == WORKLOAD_INFIX[k]
    {
      assert WORKLOAD_INFIX[d..][k] == WORKLOAD_INFIX[..m][k];
    }
    assert WORKLOAD_INFIX[d + 0] == '-';
    assert WORKLOAD_INFIX[5] != WORKLOAD_INFIX[1];
  }

  /** Where the second name's infix begins inside the first one's, one pod overlaps the other's container. */
  lemma InfixesOverlap(s: string, p: nat, p': nat)
    requires p < p' < p + |WORKLOAD_INFIX| && p' + |WORKLOAD_INFIX| <= |s|
    requires s[p..p + |WORKLOAD_INFIX|] == WORKLOAD_INFIX == s[p'..p' + |WORKLOAD_INFIX|]
    ensures Overlaps(s[..p], s[p + |WORKLOAD_INFIX|..], s[..p'], s[p' + |WORKLOAD_INFIX|..])
  {
    var m, d := |WORKLOAD_INFIX|, p' - p;
    assert WORKLOAD_INFIX[d..] == s[p'..p + m] == WORKLOAD_INFIX[..m - d];
    InfixOverlap(d);
    assert WORKLOAD_INFIX[..13] == "-rmd-workload" && WORKLOAD_INFIX[1..] == "rmd-workload-";
    assert s[..p'] == s[..p] + s[p..p'] && s[p..p'] == WORKLOAD_INFIX[..13];
    assert s[p + m..] == s[p' + 1..p' + m] + s[p' + m..] && s[p' + 1..p' + m] == WORKLOAD_INFIX[1..];
  }

  lemma InfixInside(s: string, p: nat, p': nat)
    requires p + |WORKLOAD_INFIX| <= p' && p' + |WORKLOAD_INFIX| <= |s|
    requires s[p'..p' + |WORKLOAD_INFIX|] == WORKLOAD_INFIX
    ensures Contains(s[p + |WORKLOAD_INFIX|..], WORKLOAD_INFIX)
  {
    var m, i := |WORKLOAD_INFIX|, p' - p - |WORKLOAD_INFIX|;
    assert s[p + m..][i..i + m] == s[p'..p' + m];
    assert OccursAt(s[p + m..], WORKLOAD_INFIX, i);
  }

  lemma EqualNames(pod: string, container: string, pod': string, container': string)
    requires ContainerAccepted(container) && |pod| <= |pod'|
    requires WorkloadName(pod, container) == WorkloadName(pod', container')
    ensures (pod == pod' && container == container') || Overlaps(pod, container, pod', container')
  {
    var s := WorkloadName(pod, container);
    var m, d := |WORKLOAD_INFIX|, |pod'| - |pod|;
    assert pod == s[..|pod|] && WORKLOAD_INFIX == s[|pod|..|pod| + m] && container == s[|pod| + m..];
    assert pod' == s[..|pod'|] && WORKLOAD_INFIX == s[|pod'|..|pod'| + m] && container' == s[|pod'| + m..];
    if d >= m {
      InfixInside(s, |pod|, |pod'|);
      assert false;
    } else if d > 0 {
      InfixesOverlap(s, |pod|, |pod'|);
    }
  }

  /**
   Two containers that pass the check get the same name exactly when they are the same container of
   the same pod, or one pod's name ends where the other's container begins.
   */
  lemma NamesCollideExactly(pod: string, container: string, pod': string, container': string)
    requires ContainerAccepted(container) && ContainerAccepted(container')
    ensures WorkloadName(pod, container) == WorkloadName(pod', container') <==>
            || (pod == pod' && container == container')
            || Overlaps(pod, container, pod', container')
            || Overlaps(pod', container', pod, container)
  {
    if WorkloadName(pod, container) == WorkloadName(pod', container') {
      if |pod| <= |pod'| {
        EqualNames(pod, container, pod', container');
      } else {
        EqualNames(pod', container', pod, container);
      }
    }
    assert "-rmd-workload" + WORKLOAD_INFIX == WORKLOAD_INFIX + "rmd-workload-";
    if Overlaps(pod, container, pod', container') {
      OverlapsCollide(pod, container');
    }
    if Overlaps(pod', container', pod, container) {
      OverlapsCollide(pod', container);
    }
  }

  lemma OverlapsCollide(pod: string, container: string)
    ensures WorkloadName(pod, "rmd-workload-" + container) == WorkloadName(pod + "-rmd-workload", container)
  {
  }

  /** So a name determines its pod and container once containers do not begin with "rmd-workload-" either. */
  lemma NamesAreInjective(pod: string, container: string, pod': string, container': string)
    requires ContainerAccepted(container) && ContainerAccepted(container')
    requires !HasPrefix(container, "rmd-workload-") && !HasPrefix(container', "rmd-workload-")
    requires WorkloadName(pod, container) == WorkloadName(pod', container')
    ensures pod == pod' && container == container'
  {
    NamesCollideExactly(pod, container, pod', container');
  }

  /** Both containers below pass the check that is made. */
  lemma CollisionPassesTheCheck()
    ensures ContainerAccepted("rmd-workload-x") && ContainerAccepted("x")
    ensures WorkloadName("p", "rmd-workload-x") == WorkloadName("p-rmd-workload", "x")
  {
    assert "rmd-workload-x"[0..14][0] != WORKLOAD_INFIX[0];
    assert !OccursAt("rmd-workload-x", WORKLOAD_INFIX, 0);
    OverlapsCollide("p", "x");
    assert "p" + "-rmd-workload" == "p-rmd-workload" && "rmd-workload-" + "x" == "rmd-workload-x";
  }

  /* ---- node states ---- */

  function NodeStateName(node: string): string {
    NODE_STATE_PREFIX + node
  }

  function NodeOfNodeState(name: string): string {
    RemoveAll(name, NODE_STATE_PREFIX)
  }

  /** What is read back is the node's name without any occurrence of the prefix. */
  lemma NodeStateDecodes(node: string)
    ensures NodeOfNodeState(NodeStateName(node)) == RemoveAll(node, NODE_STATE_PREFIX)
  {
    assert NODE_STATE_PREFIX <= NodeStateName(node);
    assert NodeStateName(node)[|NODE_STATE_PREFIX|..] == node;
  }

  /** The name of a node state gives back its node exactly when the node's name does not contain the prefix. */
  lemma NodeStateRoundTrip(node: string)
    ensures NodeOfNodeState(NodeStateName(node)) == node <==> !Contains(node, NODE_STATE_PREFIX)
  {
    NodeStateDecodes(node);
    RemoveAllIdentity(node, NODE_STATE_PREFIX);
  }
}

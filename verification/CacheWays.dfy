/**
 The device map of guaranteed cache ways (GetGuaranteedCacheWayPools in pkg/rmd/rmd.go), and when its
 device IDs lose nothing.
 */
module CacheWays {
  import opened Basics
  import opened Text
  import CpuSet

  /** One cache of the host: the number of its NUMA node as text, and the ways free in each pool. */
  datatype CacheInfo = CacheInfo(node: string, availableWaysPool: map<string, string>)

  /** A device carries the number of the NUMA node it belongs to. */
  datatype Device = Device(numaNode: int64)

  /** Fatal is a list given to MustParse that cannot be read: it ends the process. */
  datatype Devices = Devices(found: map<string, Device>) | NodeError(found: map<string, Device>) | Fatal

  const GUARANTEED_POOL := "guaranteed"

  function DeviceId(node: string, way: nat): string {
    node + Itoa(way)
  }

  function WaysOf(cache: CacheInfo): Option<set<nat>> {
    if GUARANTEED_POOL !in cache.availableWaysPool then Some({})
    else CpuSet.Parse(cache.availableWaysPool[GUARANTEED_POOL])
  }

  /** The ways in ascending order. */
  function ToSlice(ways: set<nat>): (s: seq<nat>)
    ensures forall w :: w in s <==> w in ways
    decreases |ways|
  {
    if ways == {} then []
    else
      var least := CpuSet.Least(ways);
      assert ways == (ways - {least}) + {least};
      [least] + ToSlice(ways - {least})
  }

  ghost predicate HasWay(cache: CacheInfo, way: nat) {
    WaysOf(cache).Some? && way in WaysOf(cache).value
  }

  /** `id` is the device of some way of this cache. */
  ghost predicate Writes(cache: CacheInfo, id: string) {
    exists w :: HasWay(cache, w) && id == DeviceId(cache.node, w)
  }

  ghost predicate IsDeviceOf(caches: seq<CacheInfo>, id: string) {
    exists k :: 0 <= k < |caches| && Writes(caches[k], id)
  }

  /** Cache `k` writes the device, and none after it does. */
  ghost predicate WritesLast(caches: seq<CacheInfo>, id: string, numaNode: int64, k: nat)
    requires k < |caches|
  {
    Writes(caches[k], id) && Atoi(caches[k].node) == Some(numaNode) && !IsDeviceOf(caches[k + 1..], id)
  }

  /** The last cache that has a way with this ID gives the device its NUMA node. */
  ghost predicate LastWriter(caches: seq<CacheInfo>, id: string, numaNode: int64) {
    exists k :: 0 <= k < |caches| && WritesLast(caches, id, numaNode, k)
  }

  /** `found` is the device map of these caches. */
  ghost predicate DevicesOf(caches: seq<CacheInfo>, found: map<string, Device>) {
    && (forall id :: id in found <==> IsDeviceOf(caches, id))
    && (forall id :: id in found ==> LastWriter(caches, id, found[id].numaNode))
  }

  /** Every cache's ways can be read, and so can its node if it has any. */
  predicate Readable(cache: CacheInfo) {
    WaysOf(cache).Some? && (WaysOf(cache).value != {} ==> Atoi(cache.node).Some?)
  }

  /** Cache `k` is the first that cannot be read. */
  ghost predicate StopsAt(caches: seq<CacheInfo>, k: nat)
    requires k < |caches|
  {
    !Readable(caches[k]) && forall c :: c in caches[..k] ==> Readable(c)
  }

  method GetGuaranteedCacheWayPools(caches: seq<CacheInfo>) returns (devices: Devices)
    ensures devices.Devices? <==> forall c :: c in caches ==> Readable(c)
    ensures devices.Devices? ==> DevicesOf(caches, devices.found)
    ensures !devices.Devices? ==>
              exists k :: 0 <= k < |caches| && StopsAt(caches, k) && (devices.Fatal? <==> WaysOf(caches[k]).None?)
                          && (devices.NodeError? ==> DevicesOf(caches[..k], devices.found))
  {
    var found: map<string, Device> := map[];
    for k := 0 to |caches|
      invariant forall c :: c in caches[..k] ==> Readable(c)
      invariant DevicesOf(caches[..k], found)
    {
      var cache := caches[k];
      assert cache in caches;
      var ways := WaysOf(cache);
      if ways.None? {
        assert StopsAt(caches, k);
        return Fatal;
      }
      var slice := ToSlice(ways.value);
      if slice != [] && Atoi(cache.node).None? {
        assert slice[0] in ways.value;
        assert StopsAt(caches, k);
        return NodeError(found);
      }
      assert caches[..k + 1] == caches[..k] + [cache];
      found := AddCache(caches[..k], cache, slice, found);
    }
    assert caches[..|caches|] == caches;
    return Devices(found);
  }

  method AddCache(ghost caches: seq<CacheInfo>, cache: CacheInfo, slice: seq<nat>, before: map<string, Device>)
    returns (found: map<string, Device>)
    requires Readable(cache) && forall w :: w in slice <==> w in WaysOf(cache).value
    requires DevicesOf(caches, before)
    ensures DevicesOf(caches + [cache], found)
  {
    found := before;
    if slice != [] {
      assert slice[0] in WaysOf(cache).value;
      found := AddDevices(found, cache.node, slice, Atoi(cache.node).value);
    }
    assert forall id :: Writes(cache, id) <==> exists w :: w in slice && id == DeviceId(cache.node, w);
    CacheAdded(caches, cache, before, found);
  }

  /** The inner loop: one device for each way of a cache. */
  method AddDevices(found: map<string, Device>, node: string, ways: seq<nat>, numaNode: int64)
    returns (devices: map<string, Device>)
    ensures forall id :: id in devices <==> id in found || exists w :: w in ways && id == DeviceId(node, w)
    ensures forall id :: id in devices ==>
              if exists w :: w in ways && id == DeviceId(node, w) then devices[id] == Device(numaNode)
              else id in found && devices[id] == found[id]
  {
    devices := found;
    for j := 0 to |ways|
      invariant forall id :: id in devices <==> id in found || exists w :: w in ways[..j] && id == DeviceId(node, w)
      invariant forall id :: id in devices ==>
                  if exists w :: w in ways[..j] && id == DeviceId(node, w) then devices[id] == Device(numaNode)
                  else id in found && devices[id] == found[id]
    {
      assert ways[..j + 1] == ways[..j] + [ways[j]];
      devices := devices[DeviceId(node, ways[j]) := Device(numaNode)];
    }
    assert ways[..|ways|] == ways;
  }

  lemma CacheAdded(caches: seq<CacheInfo>, cache: CacheInfo, before: map<string, Device>, found: map<string, Device>)
    requires Readable(cache)
    requires DevicesOf(caches, before)
    requires forall id :: id in found <==> id in before || Writes(cache, id)
    requires forall id :: id in found ==>
               if Writes(cache, id) then Atoi(cache.node) == Some(found[id].numaNode)
               else id in before && found[id] == before[id]
    ensures DevicesOf(caches + [cache], found)
  {
    forall id
      ensures IsDeviceOf(caches + [cache], id) <==> IsDeviceOf(caches, id) || Writes(cache, id)
    {
      DeviceOfSnoc(caches, cache, id);
    }
    forall id | id in found
      ensures LastWriter(caches + [cache], id, found[id].numaNode)
    {
      LastWriterSnoc(caches, cache, id, found[id].numaNode);
    }
  }

  lemma LastWriterSnoc(caches: seq<CacheInfo>, cache: CacheInfo, id: string, numaNode: int64)
    requires if Writes(cache, id) then Atoi(cache.node) == Some(numaNode) else LastWriter(caches, id, numaNode)
    ensures LastWriter(caches + [cache], id, numaNode)
  {
    var all := caches + [cache];
    if Writes(cache, id) {
      assert all[|caches|] == cache && all[|caches| + 1..] == [];
      assert WritesLast(all, id, numaNode, |caches|);
    } else {
      var k :| 0 <= k < |caches| && WritesLast(caches, id, numaNode, k);
      var rest := caches[k + 1..];
      DeviceOfSnoc(rest, cache, id);
      assert all[k] == caches[k] && all[k + 1..] == rest + [cache];
      assert WritesLast(all, id, numaNode, k);
    }
  }

  lemma DeviceOfSnoc(caches: seq<CacheInfo>, cache: CacheInfo, id: string)
    ensures IsDeviceOf(caches + [cache], id) <==> IsDeviceOf(caches, id) || Writes(cache, id)
  {
    var all := caches + [cache];
    if IsDeviceOf(caches, id) {
      var k :| 0 <= k < |caches| && Writes(caches[k], id);
      assert all[k] == caches[k];
    }
    assert all[|caches|] == cache;
  }

  /* ---- when nothing is lost ---- */

  /** The part of the longer node's text that the shorter one's way has to supply. */
  ghost predicate Runs(node: string, way: nat, node': string, way': nat) {
    exists x :: x != "" && node' == node + x && Itoa(way) == x + Itoa(way')
  }

  /** Two ways get the same ID exactly when they are the same, or one node's text runs on into the other's way. */
  lemma IdsCollideExactly(node: string, way: nat, node': string, way': nat)
    ensures DeviceId(node, way) == DeviceId(node', way') <==>
            (node == node' && way == way') || Runs(node, way, node', way') || Runs(node', way', node, way)
  {
    if DeviceId(node, way) == DeviceId(node', way') {
      if |node| == |node'| {
        assert node == DeviceId(node, way)[..|node|] == node';
        assert Itoa(way) == DeviceId(node, way)[|node|..] == Itoa(way');
        ItoaInjective(way, way');
      } else if |node| < |node'| {
        IdRunsOn(node, way, node', way');
      } else {
        IdRunsOn(node', way', node, way);
      }
    }
    if Runs(node, way, node', way') {
      var x :| x != "" && node' == node + x && Itoa(way) == x + Itoa(way');
      assert node + (x + Itoa(way')) == (node + x) + Itoa(way');
    }
    if Runs(node', way', node, way) {
      var x :| x != "" && node == node' + x && Itoa(way') == x + Itoa(way);
      assert node' + (x + Itoa(way)) == (node' + x) + Itoa(way);
    }
  }

  lemma IdRunsOn(node: string, way: nat, node': string, way': nat)
    requires |node| < |node'| && DeviceId(node, way) == DeviceId(node', way')
    ensures Runs(node, way, node', way')
  {
    var id := DeviceId(node, way);
    var x := id[|node|..|node'|];
    assert node' == id[..|node'|] == node + x;
    assert Itoa(way) == id[|node|..] == x + id[|node'|..];
  }

  ghost predicate DistinctEqualLength(caches: seq<CacheInfo>) {
    forall i, j :: 0 <= i < j < |caches| ==> caches[i].node != caches[j].node && |caches[i].node| == |caches[j].node|
  }

  lemma DistinctPairs(caches: seq<CacheInfo>, k: nat, w: nat, k': nat, w': nat)
    requires DistinctEqualLength(caches) && k < |caches| && k' < |caches|
    requires DeviceId(caches[k].node, w) == DeviceId(caches[k'].node, w')
    ensures k == k' && w == w'
  {
    var m, n := caches[k].node, caches[k'].node;
    assert |m| == |n|;
    assert m == DeviceId(m, w)[..|m|] && n == DeviceId(n, w')[..|n|];
    IdsCollideExactly(m, w, n, w');
  }

  /**
   With node numbers that differ and are written equally long, no two ways of the host share a device,
   and every device belongs to its own cache's NUMA node.
   */
  lemma NothingIsLost(caches: seq<CacheInfo>, found: map<string, Device>, k: nat, w: nat)
    requires DistinctEqualLength(caches)
    requires DevicesOf(caches, found)
    requires k < |caches| && HasWay(caches[k], w)
    ensures var id := DeviceId(caches[k].node, w); id in found && Atoi(caches[k].node) == Some(found[id].numaNode)
    ensures forall k': nat, w' ::
              && k' < |caches| && HasWay(caches[k'], w')
              && DeviceId(caches[k'].node, w') == DeviceId(caches[k].node, w) ==>
              k' == k && w' == w
  {
    var id := DeviceId(caches[k].node, w);
    assert Writes(caches[k], id) && IsDeviceOf(caches, id);
    var j :| 0 <= j < |caches| && WritesLast(caches, id, found[id].numaNode, j);
    var v :| HasWay(caches[j], v) && id == DeviceId(caches[j].node, v);
    DistinctPairs(caches, j, v, k, w);
    forall k': nat, w' | k' < |caches| && HasWay(caches[k'], w') && DeviceId(caches[k'].node, w') == id
      ensures k' == k && w' == w
    {
      DistinctPairs(caches, k', w', k, w);
    }
  }

  lemma ZeroToOne()
    ensures CpuSet.Parse("0-1") == Some({0, 1})
  {
    var r := CpuSet.Range(0, 1);
    ParseItoa(0);
    ParseItoa(1);
    CpuSet.ParsePrintedRange(r);
    assert CpuSet.PrintRange(r) == "0-1";
    SplitWithoutSeparator("0-1", ',');
    assert CpuSet.ParseParts(["0-1"]) == Some(CpuSet.Interval(r) + {});
    assert CpuSet.Interval(r) + {} == {0, 1};
  }

  lemma OneWrites(cache: CacheInfo, id: string)
    requires cache.node == "0" && WaysOf(cache) == Some({0, 1})
    ensures Writes(cache, id) <==> id == "00" || id == "01"
  {
    ZeroIsRead();
    assert HasWay(cache, 0) && HasWay(cache, 1);
  }

  lemma OneLastWriter(cache: CacheInfo, id: string, n: int64)
    ensures IsDeviceOf([cache], id) <==> Writes(cache, id)
    ensures LastWriter([cache], id, n) <==> Writes(cache, id) && Atoi(cache.node) == Some(n)
  {
    assert [cache][0] == cache && [cache][1..] == [];
    assert WritesLast([cache], id, n, 0) <==> Writes(cache, id) && Atoi(cache.node) == Some(n);
  }

  lemma OneCache(cache: CacheInfo, found: map<string, Device>, id: string)
    requires Atoi(cache.node) == Some(0) && DevicesOf([cache], found)
    ensures id in found <==> Writes(cache, id)
    ensures id in found ==> found[id] == Device(0)
  {
    OneLastWriter(cache, id, if id in found then found[id].numaNode else 0);
  }

  lemma ZeroIsRead()
    ensures Atoi("0") == Some(0) && DeviceId("0", 0) == "00" && DeviceId("0", 1) == "01"
  {
    ParseItoa(0);
  }

  lemma TwoDevices(cache: CacheInfo, found: map<string, Device>)
    requires cache.node == "0" && WaysOf(cache) == Some({0, 1}) && DevicesOf([cache], found)
    ensures found == map["00" := Device(0), "01" := Device(0)]
  {
    assert Atoi(cache.node) == Some(0) by {
      ZeroIsRead();
    }
    forall id
      ensures id in found <==> id == "00" || id == "01"
      ensures id in found ==> found[id] == Device(0)
    {
      OneCache(cache, found, id);
      OneWrites(cache, id);
    }
    assert found.Keys == {"00", "01"};
  }

  /** Only the pool named "guaranteed" is looked at. */
  lemma TwoPools(found: map<string, Device>)
    ensures var cache := CacheInfo("0", map["guaranteed" := "0-1", "shared" := "2"]);
            && Readable(cache)
            && (DevicesOf([cache], found) ==> found == map["00" := Device(0), "01" := Device(0)])
  {
    var cache := CacheInfo("0", map["guaranteed" := "0-1", "shared" := "2"]);
    ZeroToOne();
    ZeroIsRead();
    if DevicesOf([cache], found) {
      TwoDevices(cache, found);
    }
  }

  /** Way 11 of node 1 and way 1 of node 11 share a device. */
  lemma UnequalLengthsCollide()
    ensures DeviceId("1", 11) == DeviceId("11", 1)
  {
  }
}

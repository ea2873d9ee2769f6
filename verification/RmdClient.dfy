/**
 The operator's RMD client (pkg/rmd/rmd.go): the request built from a workload's spec, and the cores an
 all-cores request names.
 */
module RmdClient {
  import opened Basics
  import opened Text
  import CpuSet

  type Labels = map<string, string>

  /** The P-state plugin data, kept opaque: all that matters here is whether its ratio can be read. */
  datatype Plugins = Plugins(data: string, readable: bool)

  datatype Spec = Spec(
    allCores: bool, coreIds: seq<string>, reservedCoreIds: seq<string>, policy: string,
    cacheMax: int64, cacheMin: int64, mbaPercentage: int64, mbaMbps: int64,
    plugins: Plugins, nodeSelector: Labels, nodes: seq<string>)

  /** The body of a request, and what RMD keeps of it. */
  datatype Payload = Payload(
    policy: string, coreIds: seq<string>, cacheMax: Option<uint32>, cacheMin: Option<uint32>,
    mbaPercentage: Option<uint32>, mbaMbps: Option<uint32>, plugins: string)

  const EMPTY_PAYLOAD := Payload("", [], None, None, None, None, "")

  /** Fatal is a CPU list given to MustParse that cannot be read: it ends the process. */
  datatype Format = Formatted(payload: Payload) | FormatError | Fatal

  /* ---- the cores of a host ---- */

  function AllCpus(shareCpuLists: seq<string>): Option<string> {
    match CpuSet.UnionOf(shareCpuLists)
    case None => None
    case Some(cpus) => Some(CpuSet.Print(cpus))
  }

  /** The caches come from a map, so `shareCpuLists` is one of its possible iteration orders. */
  method GetAllCpus(shareCpuLists: seq<string>) returns (cpus: Option<string>)
    ensures cpus == AllCpus(shareCpuLists)
    ensures cpus.Some? <==> forall l :: l in shareCpuLists ==> CpuSet.Parse(l).Some?
    ensures cpus.Some? ==>
              && CpuSet.Parse(cpus.value).Some?
              && forall x :: x in CpuSet.Parse(cpus.value).value <==>
                             exists l :: l in shareCpuLists && x in CpuSet.Parse(l).value
  {
    CpuSet.UnionHasNoOrder(shareCpuLists);
    var host: set<nat> := {};
    assert shareCpuLists[0..] == shareCpuLists;
    assert forall rest: set<nat> :: {} + rest == rest;
    for i := 0 to |shareCpuLists|
      invariant CpuSet.UnionOf(shareCpuLists) ==
                match CpuSet.UnionOf(shareCpuLists[i..])
                case None => None
                case Some(rest) => Some(host + rest)
    {
      var before := host;
      match CpuSet.Parse(shareCpuLists[i]) {
        case None => return None;
        case Some(cache) =>
          assert forall rest: set<nat> :: before + (cache + rest) == (before + cache) + rest;
          host := host + cache;
      }
      assert shareCpuLists[i..][1..] == shareCpuLists[i + 1..];
    }
    assert host + {} == host;
    CpuSet.ParsePrint(host);
    return Some(CpuSet.Print(host));
  }

  /* ---- the request ---- */

  function Narrow(v: int64): uint32 {
    v % 0x1_0000_0000
  }

  function CoresOf(spec: Spec, shareCpuLists: seq<string>): Option<Option<seq<string>>> {
    if !spec.allCores then Some(Some(spec.coreIds))
    else
      match AllCpus(shareCpuLists)
      case None => Some(None)
      case Some(all) =>
        if spec.reservedCoreIds == [] then Some(Some([all]))
        else
          match (CpuSet.Parse(Join(spec.reservedCoreIds, ',')), CpuSet.Parse(all))
          case (Some(reserved), Some(host)) => Some(Some([CpuSet.Print(host - reserved)]))
          case _ => None
  }

  function FormatWorkload(spec: Spec, shareCpuLists: seq<string>): Format {
    match CoresOf(spec, shareCpuLists)
    case None => Fatal
    case Some(None) => FormatError
    case Some(Some(cores)) =>
      var percentage, mbps := Narrow(spec.mbaPercentage), Narrow(spec.mbaMbps);
      if !spec.plugins.readable then FormatError
      else Formatted(Payload(spec.policy, cores,
                             Some(Narrow(spec.cacheMax)), Some(Narrow(spec.cacheMin)),
                             if percentage != 0 then Some(percentage) else None,
                             if mbps != 0 then Some(mbps) else None,
                             spec.plugins.data))
  }

  /** The request field holds the low 32 bits of the spec's value. */
  ghost predicate LowBits(v: int64, sent: int) {
    0 <= sent < 0x1_0000_0000 && (v - sent) % 0x1_0000_0000 == 0
  }

  /** Only a value with low bits other than zero is sent. */
  ghost predicate SentUnlessZero(v: int64, sent: Option<uint32>) {
    if v % 0x1_0000_0000 == 0 then sent == None else sent.Some? && LowBits(v, sent.value)
  }

  lemma NarrowIsLow(v: int64)
    ensures LowBits(v, Narrow(v)) && (Narrow(v) == 0 <==> v % 0x1_0000_0000 == 0)
  {
  }

  /** What a request for a spec says, field by field. */
  ghost predicate RequestFor(spec: Spec, payload: Payload) {
    && payload.policy == spec.policy && payload.plugins == spec.plugins.data
    && (!spec.allCores ==> payload.coreIds == spec.coreIds)
    && payload.cacheMax.Some? && LowBits(spec.cacheMax, payload.cacheMax.value)
    && payload.cacheMin.Some? && LowBits(spec.cacheMin, payload.cacheMin.value)
    && SentUnlessZero(spec.mbaPercentage, payload.mbaPercentage)
    && SentUnlessZero(spec.mbaMbps, payload.mbaMbps)
  }

  lemma FormatFields(spec: Spec, shareCpuLists: seq<string>)
    requires FormatWorkload(spec, shareCpuLists).Formatted?
    ensures RequestFor(spec, FormatWorkload(spec, shareCpuLists).payload)
  {
    NarrowIsLow(spec.cacheMax);
    NarrowIsLow(spec.cacheMin);
    NarrowIsLow(spec.mbaPercentage);
    NarrowIsLow(spec.mbaMbps);
  }

  /**
   When there is a request for a spec, and what is in it: cores that are listed are never refused; those
   of the host need lists that can be read, and a reserved list that cannot be read ends the process.
   */
  lemma FormatMeaning(spec: Spec, shareCpuLists: seq<string>)
    ensures var f := FormatWorkload(spec, shareCpuLists);
            var hostRead := forall l :: l in shareCpuLists ==> CpuSet.Parse(l).Some?;
            var reservedRead := CpuSet.Parse(Join(spec.reservedCoreIds, ',')).Some?;
            && (f.Formatted? <==> spec.plugins.readable && (spec.allCores ==> hostRead && reservedRead))
            && (f.Fatal? <==> spec.allCores && hostRead && !reservedRead)
            && (f.FormatError? <==>
                  (spec.allCores && !hostRead) || (!spec.plugins.readable && (spec.allCores ==> reservedRead)))
    ensures var f := FormatWorkload(spec, shareCpuLists); f.Formatted? ==> RequestFor(spec, f.payload)
  {
    CpuSet.UnionHasNoOrder(shareCpuLists);
    if spec.allCores {
      CoresAreDenoted(spec, shareCpuLists);
    }
    if FormatWorkload(spec, shareCpuLists).Formatted? {
      FormatFields(spec, shareCpuLists);
    }
  }

  /** The set the listed cores denote, or `None` when a list cannot be read. */
  function CoresDenoted(spec: Spec, shareCpuLists: seq<string>): Option<set<nat>> {
    match (CpuSet.UnionOf(shareCpuLists), CpuSet.Parse(Join(spec.reservedCoreIds, ',')))
    case (Some(host), Some(reserved)) => Some(host - reserved)
    case _ => None
  }

  lemma CoresAreDenoted(spec: Spec, shareCpuLists: seq<string>)
    requires spec.allCores
    ensures CoresOf(spec, shareCpuLists) == Some(None) <==> CpuSet.UnionOf(shareCpuLists).None?
    ensures CoresOf(spec, shareCpuLists) == None <==>
              CpuSet.UnionOf(shareCpuLists).Some? && CpuSet.Parse(Join(spec.reservedCoreIds, ',')).None?
    ensures CoresDenoted(spec, shareCpuLists).Some? ==>
              var cores := CoresOf(spec, shareCpuLists);
              cores.Some? && cores.value.Some? && |cores.value.value| == 1
              && CpuSet.Parse(cores.value.value[0]) == CoresDenoted(spec, shareCpuLists)
  {
    if CpuSet.UnionOf(shareCpuLists).Some? {
      var host := CpuSet.UnionOf(shareCpuLists).value;
      CpuSet.ParsePrint(host);
      if spec.reservedCoreIds == [] {
        assert host - {} == host;
      } else if CpuSet.Parse(Join(spec.reservedCoreIds, ',')).Some? {
        CpuSet.ParsePrint(host - CpuSet.Parse(Join(spec.reservedCoreIds, ',')).value);
      }
    }
  }

  /**
   An all-cores request names exactly the host's CPUs that are not reserved, whatever the order of
   the caches; it is refused or fatal exactly when a list cannot be read.
   */
  lemma AllCoresMeaning(spec: Spec, shareCpuLists: seq<string>)
    requires spec.allCores && spec.plugins.readable
    ensures FormatWorkload(spec, shareCpuLists).FormatError? <==>
              exists l :: l in shareCpuLists && CpuSet.Parse(l).None?
    ensures FormatWorkload(spec, shareCpuLists).Fatal? <==>
              && (forall l :: l in shareCpuLists ==> CpuSet.Parse(l).Some?)
              && CpuSet.Parse(Join(spec.reservedCoreIds, ',')).None?
    ensures FormatWorkload(spec, shareCpuLists).Formatted? ==>
              var cores := FormatWorkload(spec, shareCpuLists).payload.coreIds;
              var reserved := CpuSet.Parse(Join(spec.reservedCoreIds, ','));
              && |cores| == 1 && CpuSet.Parse(cores[0]).Some? && reserved.Some?
              && forall x :: x in CpuSet.Parse(cores[0]).value <==>
                             (exists l :: l in shareCpuLists && x in CpuSet.Parse(l).value) && x !in reserved.value
  {
    CpuSet.UnionHasNoOrder(shareCpuLists);
    CoresAreDenoted(spec, shareCpuLists);
  }

  /** The reserved CPUs are those of the reserved lists taken one by one; an empty list among several cannot be read. */
  lemma ReservedMeaning(spec: Spec)
    ensures var reserved := CpuSet.Parse(Join(spec.reservedCoreIds, ','));
            && (reserved.Some? <==> && (forall l :: l in spec.reservedCoreIds ==> CpuSet.Parse(l).Some?)
                                    && (|spec.reservedCoreIds| > 1 ==> "" !in spec.reservedCoreIds))
            && (reserved.Some? ==> forall x :: x in reserved.value <==>
                    exists l :: l in spec.reservedCoreIds && x in CpuSet.Parse(l).value)
  {
    CpuSet.JoinMeansUnion(spec.reservedCoreIds);
    CpuSet.UnionHasNoOrder(spec.reservedCoreIds);
  }
}

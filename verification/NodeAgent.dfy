/**
 The node agent (pkg/nodeagent/pod_controller.go): what a pod's annotations add to a workload, the
 workloads built for its containers, and the loop that creates those that are missing.
 */
module NodeAgent {
  import opened Basics
  import opened Text
  import opened Names
  import opened Passes

  /* ---- annotations ---- */

  /** The part of a workload's spec that annotations set. */
  datatype Info = Info(
    policy: string, mbaPercentage: int64, mbaMbps: int64, pstateRatio: string, pstateMonitoring: string)

  datatype Field = Policy | MbaPercentage | MbaMbps | PstateRatio | PstateMonitoring

  datatype Value = Text(s: string) | Number(n: int64)

  datatype Write = Write(field: Field, value: Value)

  /** The field an annotation names: its key begins with the container's name and ends with the field's. */
  function FieldOf(key: string, container: string): Option<Field> {
    if !HasPrefix(key, container) then None
    else if HasSuffix(key, "policy") then Some(Policy)
    else if HasSuffix(key, "mba_percentage") then Some(MbaPercentage)
    else if HasSuffix(key, "mba_mbps") then Some(MbaMbps)
    else if HasSuffix(key, "pstate_ratio") then Some(PstateRatio)
    else if HasSuffix(key, "pstate_monitoring") then Some(PstateMonitoring)
    else None
  }

  /** What an annotation sets, unless its value is empty or not a number. */
  function Effect(key: string, data: string, container: string): Option<Write> {
    match FieldOf(key, container)
    case None => None
    case Some(field) =>
      if field.MbaPercentage? || field.MbaMbps? then
        match Atoi(data)
        case None => None
        case Some(n) => Some(Write(field, Number(n)))
      else if data != "" then Some(Write(field, Text(data)))
      else None
  }

  function Get(info: Info, field: Field): Value {
    match field
    case Policy => Text(info.policy)
    case MbaPercentage => Number(info.mbaPercentage)
    case MbaMbps => Number(info.mbaMbps)
    case PstateRatio => Text(info.pstateRatio)
    case PstateMonitoring => Text(info.pstateMonitoring)
  }

  function Set(info: Info, write: Write): Info {
    match write
    case Write(Policy, Text(s)) => info.(policy := s)
    case Write(MbaPercentage, Number(n)) => info.(mbaPercentage := n)
    case Write(MbaMbps, Number(n)) => info.(mbaMbps := n)
    case Write(PstateRatio, Text(s)) => info.(pstateRatio := s)
    case Write(PstateMonitoring, Text(s)) => info.(pstateMonitoring := s)
    case _ => info
  }

  function Apply(info: Info, key: string, data: string, container: string): Info {
    match Effect(key, data, container)
    case None => info
    case Some(write) => Set(info, write)
  }

  function Fold(base: Info, order: seq<string>, annotations: map<string, string>, container: string): Info
    requires forall k :: k in order ==> k in annotations
  {
    if order == [] then base
    else
      var n := |order| - 1;
      Apply(Fold(base, order[..n], annotations, container), order[n], annotations[order[n]], container)
  }

  /** The annotation is one of this container for the field with this suffix. */
  ghost predicate IsFor(annotations: map<string, string>, container: string, suffix: string, k: string) {
    && k in annotations && |container| <= |k| && k[..|container|] == container
    && |suffix| <= |k| && k[|k| - |suffix|..] == suffix
  }

  /** A text: that of some annotation for it that is not empty, or the old one if there is none. */
  ghost predicate TextFrom(annotations: map<string, string>, container: string, suffix: string, keys: set<string>,
                           before: string, got: string)
  {
    if forall k :: k in keys && IsFor(annotations, container, suffix, k) ==> annotations[k] == "" then got == before
    else exists k ::
           k in keys && IsFor(annotations, container, suffix, k) && annotations[k] != "" && got == annotations[k]
  }

  /** A number: that of some annotation for it that can be read, or the old one if there is none. */
  ghost predicate NumberFrom(annotations: map<string, string>, container: string, suffix: string, keys: set<string>,
                             before: int64, got: int64)
  {
    if forall k :: k in keys && IsFor(annotations, container, suffix, k) ==> Atoi(annotations[k]) == None then
      got == before
    else exists k :: k in keys && IsFor(annotations, container, suffix, k) && Atoi(annotations[k]) == Some(got)
  }

  /** Each field comes from the annotations with its own suffix. */
  ghost predicate InfoFrom(base: Info, annotations: map<string, string>, container: string, keys: set<string>,
                           info: Info)
  {
    && TextFrom(annotations, container, "policy", keys, base.policy, info.policy)
    && NumberFrom(annotations, container, "mba_percentage", keys, base.mbaPercentage, info.mbaPercentage)
    && NumberFrom(annotations, container, "mba_mbps", keys, base.mbaMbps, info.mbaMbps)
    && TextFrom(annotations, container, "pstate_ratio", keys, base.pstateRatio, info.pstateRatio)
    && TextFrom(annotations, container, "pstate_monitoring", keys, base.pstateMonitoring, info.pstateMonitoring)
  }

  /** No two of the suffixes end alike, so a key names one field at most. */
  lemma SuffixesDiffer(k: string)
    ensures HasSuffix(k, "policy") ==> k[|k| - 1] == 'y'
    ensures HasSuffix(k, "mba_percentage") ==> k[|k| - 1] == 'e'
    ensures HasSuffix(k, "mba_mbps") ==> k[|k| - 1] == 's'
    ensures HasSuffix(k, "pstate_ratio") ==> k[|k| - 1] == 'o'
    ensures HasSuffix(k, "pstate_monitoring") ==> k[|k| - 1] == 'g'
  {
    SuffixEnds(k, "policy");
    SuffixEnds(k, "mba_percentage");
    SuffixEnds(k, "mba_mbps");
    SuffixEnds(k, "pstate_ratio");
    SuffixEnds(k, "pstate_monitoring");
  }

  lemma SuffixEnds(k: string, suffix: string)
    requires suffix != ""
    ensures HasSuffix(k, suffix) ==> k[|k| - 1] == suffix[|suffix| - 1]
  {
    if HasSuffix(k, suffix) {
      assert k[|k| - |suffix|..][|suffix| - 1] == k[|k| - 1];
    }
  }

  function Elements(keys: seq<string>): set<string> {
    set k | k in keys
  }

  lemma TextStep(annotations: map<string, string>, container: string, suffix: string, keys: set<string>, before: string,
                 got: string, key: string, next: string)
    requires key in annotations && TextFrom(annotations, container, suffix, keys, before, got)
    requires next ==
             if IsFor(annotations, container, suffix, key) && annotations[key] != "" then annotations[key] else got
    ensures TextFrom(annotations, container, suffix, keys + {key}, before, next)
  {
  }

  lemma NumberStep(annotations: map<string, string>, container: string, suffix: string, keys: set<string>,
                   before: int64, got: int64, key: string, next: int64)
    requires key in annotations && NumberFrom(annotations, container, suffix, keys, before, got)
    requires var read := Atoi(annotations[key]);
             next == if IsFor(annotations, container, suffix, key) && read.Some? then read.value else got
    ensures NumberFrom(annotations, container, suffix, keys + {key}, before, next)
  {
  }

  /** One annotation sets the field that its suffix names. */
  lemma ApplyFields(info: Info, annotations: map<string, string>, container: string, key: string)
    requires key in annotations
    ensures var next, data := Apply(info, key, annotations[key], container), annotations[key];
            && next.policy == (if IsFor(annotations, container, "policy", key) && data != "" then data else info.policy)
            && next.mbaPercentage == (if IsFor(annotations, container, "mba_percentage", key) && Atoi(data).Some?
                                      then Atoi(data).value else info.mbaPercentage)
            && next.mbaMbps == (if IsFor(annotations, container, "mba_mbps", key) && Atoi(data).Some?
                                then Atoi(data).value else info.mbaMbps)
            && next.pstateRatio ==
               (if IsFor(annotations, container, "pstate_ratio", key) && data != "" then data else info.pstateRatio)
            && next.pstateMonitoring ==
               (if IsFor(annotations, container, "pstate_monitoring", key) && data != "" then data
                else info.pstateMonitoring)
  {
    SuffixesDiffer(key);
  }

  /** One annotation more. */
  lemma ApplyGives(base: Info, info: Info, annotations: map<string, string>, container: string, keys: set<string>,
                   key: string, next: Info, after: set<string>)
    requires key in annotations && InfoFrom(base, annotations, container, keys, info)
    requires next == Apply(info, key, annotations[key], container) && after == keys + {key}
    ensures InfoFrom(base, annotations, container, after, next)
  {
    ApplyFields(info, annotations, container, key);
    TextStep(annotations, container, "policy", keys, base.policy, info.policy, key, next.policy);
    NumberStep(annotations, container, "mba_percentage", keys, base.mbaPercentage, info.mbaPercentage, key,
               next.mbaPercentage);
    NumberStep(annotations, container, "mba_mbps", keys, base.mbaMbps, info.mbaMbps, key, next.mbaMbps);
    TextStep(annotations, container, "pstate_ratio", keys, base.pstateRatio, info.pstateRatio, key, next.pstateRatio);
    TextStep(annotations, container, "pstate_monitoring", keys, base.pstateMonitoring, info.pstateMonitoring, key,
             next.pstateMonitoring);
  }

  lemma ElementsLast(order: seq<string>, n: nat)
    requires |order| == n + 1
    ensures Elements(order) == Elements(order[..n]) + {order[n]}
  {
  }

  lemma FoldLast(base: Info, order: seq<string>, annotations: map<string, string>, container: string, n: nat)
    requires |order| == n + 1 && forall k :: k in order ==> k in annotations
    ensures Fold(base, order, annotations, container) ==
            Apply(Fold(base, order[..n], annotations, container), order[n], annotations[order[n]], container)
  {
  }

  lemma {:induction false} FoldGives(base: Info, order: seq<string>, annotations: map<string, string>,
                                     container: string)
    requires forall k :: k in order ==> k in annotations
    ensures InfoFrom(base, annotations, container, Elements(order), Fold(base, order, annotations, container))
    decreases |order|
  {
    if order == [] {
      NothingGiven(base, annotations, container);
    } else {
      var n := |order| - 1;
      FoldGives(base, order[..n], annotations, container);
      ElementsLast(order, n);
      FoldLast(base, order, annotations, container, n);
      ApplyGives(base, Fold(base, order[..n], annotations, container), annotations, container, Elements(order[..n]),
                 order[n], Fold(base, order, annotations, container), Elements(order));
    }
  }

  lemma NothingGiven(base: Info, annotations: map<string, string>, container: string)
    ensures InfoFrom(base, annotations, container, Elements([]), base)
  {
  }

  /** Ranges over the annotations in whatever order Go picks. */
  method GetAnnotationInfo(base: Info, annotations: map<string, string>, container: string) returns (info: Info)
    ensures exists order :: IsOrderOf(order, annotations.Keys) && info == Fold(base, order, annotations, container)
    ensures InfoFrom(base, annotations, container, annotations.Keys, info)
  {
    info := base;
    ghost var order: seq<string> := [];
    var left := annotations.Keys;
    while left != {}
      invariant left <= annotations.Keys
      invariant IsOrderOf(order, annotations.Keys - left)
      invariant info == Fold(base, order, annotations, container)
      decreases left
    {
      var field :| field in left;
      assert (order + [field])[..|order|] == order;
      left := left - {field};
      order := order + [field];
      var data := annotations[field];
      if HasPrefix(field, container) {
        if HasSuffix(field, "policy") {
          if data != "" {
            info := info.(policy := data);
          }
        } else if HasSuffix(field, "mba_percentage") {
          var mbaPercentage := Atoi(data);
          if mbaPercentage.Some? {
            info := info.(mbaPercentage := mbaPercentage.value);
          }
        } else if HasSuffix(field, "mba_mbps") {
          var mbaMbps := Atoi(data);
          if mbaMbps.Some? {
            info := info.(mbaMbps := mbaMbps.value);
          }
        } else if HasSuffix(field, "pstate_ratio") {
          if data != "" {
            info := info.(pstateRatio := data);
          }
        } else if HasSuffix(field, "pstate_monitoring") {
          if data != "" {
            info := info.(pstateMonitoring := data);
          }
        }
      }
    }
    assert annotations.Keys - left == annotations.Keys;
    FoldGives(base, order, annotations, container);
    assert Elements(order) == annotations.Keys;
  }

  /** Some annotation for the field can be used, and all that can hold this one value. */
  ghost predicate OnlyText(annotations: map<string, string>, container: string, suffix: string, value: string) {
    && (exists k :: IsFor(annotations, container, suffix, k) && annotations[k] == value != "")
    && forall k :: IsFor(annotations, container, suffix, k) && annotations[k] != "" ==> annotations[k] == value
  }

  ghost predicate OnlyNumber(annotations: map<string, string>, container: string, suffix: string, value: int64) {
    && (exists k :: IsFor(annotations, container, suffix, k) && Atoi(annotations[k]) == Some(value))
    && forall k :: IsFor(annotations, container, suffix, k) && Atoi(annotations[k]).Some? ==>
                     Atoi(annotations[k]) == Some(value)
  }

  /** A field ends with the one value that the annotations with its suffix give it. */
  lemma OneValueIsTaken(base: Info, annotations: map<string, string>, container: string, info: Info, s: string,
                        n: int64)
    requires InfoFrom(base, annotations, container, annotations.Keys, info)
    ensures OnlyText(annotations, container, "policy", s) ==> info.policy == s
    ensures OnlyNumber(annotations, container, "mba_percentage", n) ==> info.mbaPercentage == n
    ensures OnlyNumber(annotations, container, "mba_mbps", n) ==> info.mbaMbps == n
    ensures OnlyText(annotations, container, "pstate_ratio", s) ==> info.pstateRatio == s
    ensures OnlyText(annotations, container, "pstate_monitoring", s) ==> info.pstateMonitoring == s
  {
    TextTaken(annotations, container, "policy", base.policy, info.policy, s);
    NumberTaken(annotations, container, "mba_percentage", base.mbaPercentage, info.mbaPercentage, n);
    NumberTaken(annotations, container, "mba_mbps", base.mbaMbps, info.mbaMbps, n);
    TextTaken(annotations, container, "pstate_ratio", base.pstateRatio, info.pstateRatio, s);
    TextTaken(annotations, container, "pstate_monitoring", base.pstateMonitoring, info.pstateMonitoring, s);
  }

  lemma TextTaken(annotations: map<string, string>, container: string, suffix: string, before: string, got: string,
                  value: string)
    requires TextFrom(annotations, container, suffix, annotations.Keys, before, got)
    ensures OnlyText(annotations, container, suffix, value) ==> got == value
  {
    if OnlyText(annotations, container, suffix, value) {
      var k :| IsFor(annotations, container, suffix, k) && annotations[k] == value;
      assert k in annotations.Keys;
    }
  }

  lemma NumberTaken(annotations: map<string, string>, container: string, suffix: string, before: int64, got: int64,
                    value: int64)
    requires NumberFrom(annotations, container, suffix, annotations.Keys, before, got)
    ensures OnlyNumber(annotations, container, suffix, value) ==> got == value
  {
    if OnlyNumber(annotations, container, suffix, value) {
      var k :| IsFor(annotations, container, suffix, k) && Atoi(annotations[k]) == Some(value);
      assert k in annotations.Keys;
    }
  }

  /** No two annotations set one field of this container to different values. */
  ghost predicate NoConflict(annotations: map<string, string>, container: string) {
    forall j, k :: j in annotations && k in annotations ==> Agree(annotations, container, j, k)
  }

  predicate Agree(annotations: map<string, string>, container: string, j: string, k: string)
    requires j in annotations && k in annotations
  {
    var a, b := Effect(j, annotations[j], container), Effect(k, annotations[k], container);
    a.Some? && b.Some? && a.value.field == b.value.field ==> a == b
  }

  lemma ApplyGet(info: Info, key: string, data: string, container: string, field: Field)
    ensures Get(Apply(info, key, data, container), field) ==
            var e := Effect(key, data, container);
            if e.Some? && e.value.field == field then e.value.value else Get(info, field)
  {
  }

  ghost predicate Sets(annotations: map<string, string>, container: string, key: string, field: Field) {
    key in annotations && var e := Effect(key, annotations[key], container); e.Some? && e.value.field == field
  }

  /** The value any of these annotations gives the field, or the one it had. */
  ghost predicate EndsAs(annotations: map<string, string>, container: string, order: seq<string>, field: Field,
                         before: Value, got: Value)
  {
    && (forall k :: k in order && Sets(annotations, container, k, field) ==>
          got == Effect(k, annotations[k], container).value.value)
    && ((forall k :: k in order ==> !Sets(annotations, container, k, field)) ==> got == before)
  }

  lemma SetAlike(annotations: map<string, string>, container: string, j: string, k: string, field: Field)
    requires NoConflict(annotations, container)
    requires Sets(annotations, container, j, field) && Sets(annotations, container, k, field)
    ensures Effect(j, annotations[j], container) == Effect(k, annotations[k], container)
  {
    assert Agree(annotations, container, j, k);
  }

  lemma EndsWithLast(annotations: map<string, string>, container: string, order: seq<string>, key: string, field: Field,
                     before: Value)
    requires NoConflict(annotations, container) && key in order && Sets(annotations, container, key, field)
    ensures EndsAs(annotations, container, order, field, before, Effect(key, annotations[key], container).value.value)
  {
    forall k | k in order && Sets(annotations, container, k, field)
      ensures Effect(k, annotations[k], container) == Effect(key, annotations[key], container)
    {
      SetAlike(annotations, container, k, key, field);
    }
  }

  lemma EndsWithoutLast(annotations: map<string, string>, container: string, order: seq<string>, n: nat, field: Field,
                        before: Value, got: Value)
    requires |order| == n + 1 && !Sets(annotations, container, order[n], field)
    requires EndsAs(annotations, container, order[..n], field, before, got)
    ensures EndsAs(annotations, container, order, field, before, got)
  {
    assert forall k :: k in order <==> k in order[..n] || k == order[n];
  }

  /** Without conflicts a field ends with the value any annotation gives it, or the one it had. */
  lemma {:induction false} FoldGet(base: Info, order: seq<string>, annotations: map<string, string>, container: string,
                                   field: Field)
    requires NoConflict(annotations, container) && forall k :: k in order ==> k in annotations
    ensures EndsAs(annotations, container, order, field, Get(base, field),
                   Get(Fold(base, order, annotations, container), field))
    decreases |order|
  {
    if order != [] {
      var n := |order| - 1;
      var before := Fold(base, order[..n], annotations, container);
      FoldGet(base, order[..n], annotations, container, field);
      ApplyGet(before, order[n], annotations[order[n]], container, field);
      if Sets(annotations, container, order[n], field) {
        EndsWithLast(annotations, container, order, order[n], field, Get(base, field));
      } else {
        EndsWithoutLast(annotations, container, order, n, field, Get(base, field), Get(before, field));
      }
    }
  }

  ghost predicate OrderIndependent(base: Info, annotations: map<string, string>, container: string) {
    forall o, p :: IsOrderOf(o, annotations.Keys) && IsOrderOf(p, annotations.Keys) ==>
      Fold(base, o, annotations, container) == Fold(base, p, annotations, container)
  }

  lemma InfoExtensional(a: Info, b: Info)
    requires forall f :: Get(a, f) == Get(b, f)
    ensures a == b
  {
    assert Get(a, Policy) == Get(b, Policy) && Get(a, MbaPercentage) == Get(b, MbaPercentage)
           && Get(a, MbaMbps) == Get(b, MbaMbps);
    assert Get(a, PstateRatio) == Get(b, PstateRatio) && Get(a, PstateMonitoring) == Get(b, PstateMonitoring);
  }

  lemma LastWins(base: Info, order: seq<string>, annotations: map<string, string>, container: string, k: string,
                 field: Field)
    requires (forall x :: x in order ==> x in annotations) && Sets(annotations, container, k, field)
    ensures Get(Fold(base, order + [k], annotations, container), field) ==
              Effect(k, annotations[k], container).value.value
  {
    assert (order + [k])[..|order|] == order;
    ApplyGet(Fold(base, order, annotations, container), k, annotations[k], container, field);
  }

  lemma TwoMore(rest: seq<string>, keys: set<string>, j: string, k: string)
    requires j in keys && k in keys && j != k && IsOrderOf(rest, keys - {j, k})
    ensures IsOrderOf((rest + [j]) + [k], keys)
  {
  }

  lemma TwoMoreBoth(rest: seq<string>, keys: set<string>, j: string, k: string)
    requires j in keys && k in keys && j != k && IsOrderOf(rest, keys - {j, k})
    ensures forall x :: x in rest ==> x in keys
    ensures IsOrderOf((rest + [j]) + [k], keys) && IsOrderOf((rest + [k]) + [j], keys)
  {
    TwoMore(rest, keys, j, k);
    assert keys - {j, k} == keys - {k, j};
    TwoMore(rest, keys, k, j);
  }

  lemma LastDecides(base: Info, rest: seq<string>, annotations: map<string, string>, container: string, j: string,
                    k: string)
    requires (forall x :: x in rest ==> x in annotations) && j in annotations && k in annotations
    requires !Agree(annotations, container, j, k)
    ensures Fold(base, (rest + [j]) + [k], annotations, container) !=
              Fold(base, (rest + [k]) + [j], annotations, container)
  {
    var field := Effect(j, annotations[j], container).value.field;
    LastWins(base, rest + [j], annotations, container, k, field);
    LastWins(base, rest + [k], annotations, container, j, field);
  }

  /** Two annotations in conflict, ranged over last, decide by their order. */
  lemma ConflictShows(base: Info, annotations: map<string, string>, container: string, j: string, k: string)
    requires j in annotations && k in annotations && !Agree(annotations, container, j, k)
    ensures !OrderIndependent(base, annotations, container)
  {
    var rest := OrderExists(annotations.Keys - {j, k});
    TwoMoreBoth(rest, annotations.Keys, j, k);
    LastDecides(base, rest, annotations, container, j, k);
    OrdersDiffer(base, annotations, container, (rest + [j]) + [k], (rest + [k]) + [j]);
  }

  lemma OrdersDiffer(base: Info, annotations: map<string, string>, container: string, o: seq<string>, p: seq<string>)
    requires IsOrderOf(o, annotations.Keys) && IsOrderOf(p, annotations.Keys)
    requires Fold(base, o, annotations, container) != Fold(base, p, annotations, container)
    ensures !OrderIndependent(base, annotations, container)
  {
  }

  /** What annotations add is independent of the order of the map exactly when none of them conflict. */
  lemma OrderIndependentExactly(base: Info, annotations: map<string, string>, container: string)
    ensures OrderIndependent(base, annotations, container) <==> NoConflict(annotations, container)
  {
    if NoConflict(annotations, container) {
      forall o, p | IsOrderOf(o, annotations.Keys) && IsOrderOf(p, annotations.Keys)
        ensures Fold(base, o, annotations, container) == Fold(base, p, annotations, container)
      {
        forall f
          ensures Get(Fold(base, o, annotations, container), f) == Get(Fold(base, p, annotations, container), f)
        {
          FoldGet(base, o, annotations, container, f);
          FoldGet(base, p, annotations, container, f);
          if k :| k in o && Sets(annotations, container, k, f) {
            assert k in p;
          } else {
            assert forall k :: k in p ==> k in o;
          }
        }
        InfoExtensional(Fold(base, o, annotations, container), Fold(base, p, annotations, container));
      }
    } else {
      var j, k :| j in annotations && k in annotations && !Agree(annotations, container, j, k);
      ConflictShows(base, annotations, container, j, k);
    }
  }

  predicate SameField(j: string, k: string, container: string) {
    FieldOf(j, container).Some? && FieldOf(j, container) == FieldOf(k, container)
  }

  /** In particular when at most one key of the container names each field. */
  lemma OneKeyPerField(base: Info, annotations: map<string, string>, container: string)
    requires forall j, k :: j in annotations && k in annotations && SameField(j, k, container) ==> j == k
    ensures OrderIndependent(base, annotations, container)
  {
    forall j, k | j in annotations && k in annotations
      ensures Agree(annotations, container, j, k)
    {
      var a, b := Effect(j, annotations[j], container), Effect(k, annotations[k], container);
      if a.Some? && b.Some? && a.value.field == b.value.field {
        assert SameField(j, k, container);
      }
    }
    assert NoConflict(annotations, container);
    OrderIndependentExactly(base, annotations, container);
  }

  /** The annotation of container c10 is read for container c1 as well. */
  lemma PrefixesMix(base: Info)
    ensures !OrderIndependent(base, map["c1_policy" := "gold", "c10_policy" := "bronze"], "c1")
  {
    var annotations := map["c1_policy" := "gold", "c10_policy" := "bronze"];
    assert "c1_policy"[..2] == "c1" && "c10_policy"[..2] == "c1";
    assert "c1_policy"[3..] == "policy" && "c10_policy"[4..] == "policy";
    assert Effect("c1_policy", "gold", "c1") == Some(Write(Policy, Text("gold")));
    assert Effect("c10_policy", "bronze", "c1") == Some(Write(Policy, Text("bronze")));
    assert "gold"[0] != "bronze"[0];
    ConflictShows(base, annotations, "c1", "c1_policy", "c10_policy");
  }

  /* ---- building workloads ---- */

  /** What the kubelet and the limits say of a container; `None` when they cannot be read. */
  datatype ContainerInfo = ContainerInfo(coreIDs: seq<string>, maxCache: int64)

  datatype Container = Container(name: string, info: Option<ContainerInfo>)

  datatype Pod = Pod(name: string, nodeName: string, annotations: map<string, string>, requestingCache: seq<Container>)

  datatype Spec = Spec(cacheMax: int64, cacheMin: int64, coreIds: seq<string>, nodes: seq<string>, info: Info)

  datatype Built = Built(name: string, spec: Spec)

  const NO_INFO := Info("", 0, 0, "", "")

  predicate InfixAt(s: string, i: nat) {
    OccursAt(s, WORKLOAD_INFIX, i)
  }

  /** strings.Contains(name, "-rmd-workload-"). */
  predicate NameRejected(name: string) {
    exists i :: 0 <= i < |name| && InfixAt(name, i)
  }

  lemma RejectedIsNotAccepted(name: string)
    ensures NameRejected(name) <==> !ContainerAccepted(name)
  {
    if Contains(name, WORKLOAD_INFIX) {
      var i :| OccursAt(name, WORKLOAD_INFIX, i);
      assert 0 <= i < |name| && InfixAt(name, i);
    }
    if NameRejected(name) {
      var i :| 0 <= i < |name| && InfixAt(name, i);
      assert OccursAt(name, WORKLOAD_INFIX, i);
    }
  }

  /** The containers a workload is built for, in order. */
  function Accepted(containers: seq<Container>): seq<Container> {
    if containers == [] then []
    else (if NameRejected(containers[0].name) then [] else [containers[0]]) + Accepted(containers[1..])
  }

  ghost predicate BuiltFor(pod: Pod, c: Container, b: Built) {
    && c.info.Some?
    && b.name == WorkloadName(pod.name, c.name)
    && b.spec.cacheMax == b.spec.cacheMin == c.info.value.maxCache
    && b.spec.coreIds == c.info.value.coreIDs && b.spec.nodes == [pod.nodeName]
    && (exists order ::
         IsOrderOf(order, pod.annotations.Keys) && b.spec.info == Fold(NO_INFO, order, pod.annotations, c.name))
    && InfoFrom(NO_INFO, pod.annotations, c.name, pod.annotations.Keys, b.spec.info)
  }

  ghost predicate AllBuiltFor(pod: Pod, containers: seq<Container>, built: seq<Built>) {
    |built| == |containers| && forall k :: 0 <= k < |built| ==> BuiltFor(pod, containers[k], built[k])
  }

  lemma AllBuiltReadable(pod: Pod, containers: seq<Container>, built: seq<Built>)
    requires AllBuiltFor(pod, containers, built)
    ensures forall c :: c in containers ==> c.info.Some?
  {
  }

  lemma AllBuiltSnoc(pod: Pod, containers: seq<Container>, built: seq<Built>, c: Container, b: Built)
    requires AllBuiltFor(pod, containers, built) && BuiltFor(pod, c, b)
    ensures AllBuiltFor(pod, containers + [c], built + [b])
  {
  }

  /** What is still to be accepted, one container further. */
  lemma AcceptedFrom(containers: seq<Container>, i: nat, done: seq<Container>)
    requires i < |containers|
    ensures Accepted(containers[i..]) ==
              (if NameRejected(containers[i].name) then [] else [containers[i]]) + Accepted(containers[i + 1..])
    ensures done + Accepted(containers[i..]) ==
            (if NameRejected(containers[i].name) then done else done + [containers[i]]) + Accepted(containers[i + 1..])
  {
  }

  /** One workload for each accepted container, or none at all when one of them cannot be read. */
  method BuildRmdWorkload(pod: Pod) returns (workloads: Option<seq<Built>>)
    ensures workloads.None? <==> exists c :: c in Accepted(pod.requestingCache) && c.info.None?
    ensures workloads.Some? ==> AllBuiltFor(pod, Accepted(pod.requestingCache), workloads.value)
  {
    var built: seq<Built> := [];
    ghost var done: seq<Container> := [];
    for i := 0 to |pod.requestingCache|
      invariant Accepted(pod.requestingCache) == done + Accepted(pod.requestingCache[i..])
      invariant AllBuiltFor(pod, done, built)
    {
      var container := pod.requestingCache[i];
      AcceptedFrom(pod.requestingCache, i, done);
      if NameRejected(container.name) {
        continue;
      }
      if container.info.None? {
        ghost var rest := Accepted(pod.requestingCache[i..]);
        assert rest[0] == container && (done + rest)[|done|] == rest[0];
        return None;
      }
      var rmdWorkload := BuildFor(pod, container);
      AllBuiltSnoc(pod, done, built, container, rmdWorkload);
      built := built + [rmdWorkload];
      done := done + [container];
    }
    assert Accepted(pod.requestingCache) == done;
    AllBuiltReadable(pod, done, built);
    return Some(built);
  }

  method BuildFor(pod: Pod, container: Container) returns (rmdWorkload: Built)
    requires container.info.Some?
    ensures BuiltFor(pod, container, rmdWorkload)
  {
    var info := GetAnnotationInfo(NO_INFO, pod.annotations, container.name);
    var maxCache := container.info.value.maxCache;
    var spec := Spec(maxCache, maxCache, container.info.value.coreIDs, [pod.nodeName], info);
    rmdWorkload := Built(WorkloadName(pod.name, container.name), spec);
  }

  lemma {:induction false} AcceptedPass(containers: seq<Container>)
    ensures forall c :: c in Accepted(containers) <==> c in containers && ContainerAccepted(c.name)
  {
    if containers != [] {
      AcceptedPass(containers[1..]);
      RejectedIsNotAccepted(containers[0].name);
      assert forall c :: c in containers <==> c == containers[0] || c in containers[1..];
    }
  }

  lemma {:induction false} AcceptedConcat(a: seq<Container>, b: seq<Container>)
    ensures Accepted(a + b) == Accepted(a) + Accepted(b)
  {
    if a == [] {
      assert a + b == b;
    } else {
      assert (a + b)[1..] == a[1..] + b;
      AcceptedConcat(a[1..], b);
    }
  }

  lemma AcceptedOne(c: Container)
    ensures Accepted([c]) == if Contains(c.name, "-rmd-workload-") then [] else [c]
  {
    RejectedIsNotAccepted(c.name);
    assert Accepted([c][1..]) == [];
  }

  /** Each container is kept or left out for itself, and those kept stay in order. */
  lemma AcceptedInOrder(before: seq<Container>, c: Container, after: seq<Container>)
    ensures Accepted(before + [c] + after) ==
            Accepted(before) + (if Contains(c.name, "-rmd-workload-") then [] else [c]) + Accepted(after)
  {
    AcceptedConcat(before + [c], after);
    AcceptedConcat(before, [c]);
    AcceptedOne(c);
  }

  /**
   Two workloads built for one pod or for two have the same name exactly when their containers and pods
   do, or one pod's name ends where the other's container begins.
   */
  lemma BuiltNamesCollide(p: Pod, built: seq<Built>, j: nat, q: Pod, built': seq<Built>, k: nat)
    requires AllBuiltFor(p, Accepted(p.requestingCache), built) && j < |built|
    requires AllBuiltFor(q, Accepted(q.requestingCache), built') && k < |built'|
    ensures var c, d := Accepted(p.requestingCache)[j].name, Accepted(q.requestingCache)[k].name;
            built[j].name == built'[k].name <==>
              (p.name == q.name && c == d) || Overlaps(p.name, c, q.name, d) || Overlaps(q.name, d, p.name, c)
  {
    var c, d := Accepted(p.requestingCache)[j], Accepted(q.requestingCache)[k];
    AcceptedPass(p.requestingCache);
    AcceptedPass(q.requestingCache);
    assert BuiltFor(p, c, built[j]) && BuiltFor(q, d, built'[k]);
    NamesCollideExactly(p.name, c.name, q.name, d.name);
  }

  /** Within one pod the workloads are distinct as soon as the containers are. */
  lemma BuiltNamesDistinct(p: Pod, built: seq<Built>, j: nat, k: nat)
    requires AllBuiltFor(p, Accepted(p.requestingCache), built) && j < |built| && k < |built|
    ensures built[j].name == built[k].name <==>
            Accepted(p.requestingCache)[j].name == Accepted(p.requestingCache)[k].name
  {
    BuiltNamesCollide(p, built, j, p, built, k);
    assert |p.name + "-rmd-workload"| > |p.name|;
  }

  /* ---- creating what is missing ---- */

  /** Get overwrites the built workload with the stored one, so the Update that follows stores what is there. */
  function Ensure(store: map<string, Spec>, b: Built, faults: seq<Fault>): (map<string, Spec>, seq<Fault>, bool) {
    var first := if faults == [] then NoFault else faults[0];
    var f1 := if faults == [] then [] else faults[1..];
    if !first.NoFault? then (store, f1, false)
    else
      var second := if f1 == [] then NoFault else f1[0];
      var f2 := if f1 == [] then [] else f1[1..];
      (if b.name in store || second.Before? then store else store[b.name := b.spec], f2, second.NoFault?)
  }

  function EnsureAll(store: map<string, Spec>, built: seq<Built>, faults: seq<Fault>)
    : (map<string, Spec>, seq<Fault>, bool)
    decreases |built|
  {
    if built == [] then (store, faults, true)
    else
      var (s, f, ok) := Ensure(store, built[0], faults);
      if !ok then (s, f, false) else EnsureAll(s, built[1..], f)
  }

  class ReconcilePod {
    var store: map<string, Spec>
    var faults: seq<Fault>

    constructor (store: map<string, Spec>, faults: seq<Fault>)
      ensures this.store == store && this.faults == faults
    {
      this.store := store;
      this.faults := faults;
    }

    method Call() returns (fault: Fault)
      modifies this`faults
      ensures fault == (if old(faults) == [] then NoFault else old(faults)[0])
      ensures faults == if old(faults) == [] then [] else old(faults)[1..]
    {
      fault := if faults == [] then NoFault else faults[0];
      faults := if faults == [] then [] else faults[1..];
    }

    /** The loop of a pass over the workloads built for a pod. */
    method CreateOrUpdate(rmdWorkloads: seq<Built>) returns (ok: bool)
      modifies this
      ensures (store, faults, ok) == EnsureAll(old(store), rmdWorkloads, old(faults))
    {
      for i := 0 to |rmdWorkloads|
        invariant EnsureAll(old(store), rmdWorkloads, old(faults)) == EnsureAll(store, rmdWorkloads[i..], faults)
      {
        assert rmdWorkloads[i..][0] == rmdWorkloads[i] && rmdWorkloads[i..][1..] == rmdWorkloads[i + 1..];
        var rmdWorkload := rmdWorkloads[i];
        var getFault := Call();
        if !getFault.NoFault? {
          return false;
        }
        if rmdWorkload.name !in store {
          var createFault := Call();
          if !createFault.Before? {
            store := store[rmdWorkload.name := rmdWorkload.spec];
          }
          if !createFault.NoFault? {
            return false;
          }
          continue;
        }
        rmdWorkload := Built(rmdWorkload.name, store[rmdWorkload.name]);
        var updateFault := Call();
        assert store[rmdWorkload.name := rmdWorkload.spec] == store;
        if !updateFault.Before? {
          store := store[rmdWorkload.name := rmdWorkload.spec];
        }
        if !updateFault.NoFault? {
          return false;
        }
      }
      ok := true;
    }
  }

  /** What one step does under the faults of its two calls: a Get, and a Create or an Update. */
  lemma EnsureExactly(store: map<string, Spec>, b: Built, faults: seq<Fault>)
    ensures var first := if |faults| > 0 then faults[0] else NoFault;
            var second := if |faults| > 1 then faults[1] else NoFault;
            var (s, rest, ok) := Ensure(store, b, faults);
            && (ok <==> first == NoFault && second == NoFault)
            && rest == faults[if first == NoFault && |faults| > 1 then 2 else if |faults| > 0 then 1 else 0..]
            && (forall n :: n in s <==> n in store || (n == b.name && first == NoFault && second != Before))
            && (forall n :: n in store ==> s[n] == store[n])
            && (b.name in s && b.name !in store ==> s[b.name] == b.spec)
  {
  }

  /** A pass fails only when it meets a fault: so failed passes are no more than the faults, and then one succeeds. */
  lemma {:induction false} FailureNeedsFault(store: map<string, Spec>, built: seq<Built>, faults: seq<Fault>)
    ensures var (s, rest, ok) := EnsureAll(store, built, faults);
            && FaultsLeft(rest) + (if ok then 0 else 1) <= FaultsLeft(faults)
            && (ok ==> forall b :: b in built ==> b.name in s)
            && Within(store, s)
    decreases |built|
  {
    if built != [] {
      EnsureSpends(store, built[0], faults);
      var (s, rest, ok) := Ensure(store, built[0], faults);
      if ok {
        FailureNeedsFault(s, built[1..], rest);
      }
    }
  }

  lemma EnsureSpends(store: map<string, Spec>, b: Built, faults: seq<Fault>)
    ensures var (s, rest, ok) := Ensure(store, b, faults);
            && FaultsLeft(rest) + (if ok then 0 else 1) <= FaultsLeft(faults)
            && (ok ==> b.name in s) && Within(store, s)
  {
    if faults != [] {
      assert FaultsLeft(faults) == (if faults[0].NoFault? then 0 else 1) + FaultsLeft(faults[1..]);
      if faults[1..] != [] {
        assert FaultsLeft(faults[1..]) == (if faults[1].NoFault? then 0 else 1) + FaultsLeft(faults[1..][1..]);
      }
    }
  }

  /** A pass that was retried: it failed, and the next one goes on with its store and its tape. */
  ghost predicate FailedPass(stores: seq<map<string, Spec>>, tapes: seq<seq<Fault>>, built: seq<seq<Built>>, k: nat)
    requires k + 1 < |stores| && |stores| == |tapes| == |built|
  {
    EnsureAll(stores[k], built[k], tapes[k]) == (stores[k + 1], tapes[k + 1], false)
  }

  /**
   The retries end: there are no more failed passes in a row than faults on the tape, and once these are
   used up a pass succeeds and every workload it built is stored.
   */
  lemma {:induction false} AgentRetriesEnd(stores: seq<map<string, Spec>>, tapes: seq<seq<Fault>>,
                                           built: seq<seq<Built>>)
    requires |stores| == |tapes| == |built| > 0
    requires forall k: nat :: k + 1 < |stores| ==> FailedPass(stores, tapes, built, k)
    ensures var n := |stores| - 1;
            && FaultsLeft(tapes[n]) + n <= FaultsLeft(tapes[0])
            && (n == FaultsLeft(tapes[0]) ==>
                  var (s, rest, ok) := EnsureAll(stores[n], built[n], tapes[n]);
                  ok && forall b :: b in built[n] ==> b.name in s)
  {
    var n := 0;
    while n < |stores| - 1
      invariant 0 <= n < |stores| && FaultsLeft(tapes[n]) + n <= FaultsLeft(tapes[0])
    {
      assert FailedPass(stores, tapes, built, n);
      FailureNeedsFault(stores[n], built[n], tapes[n]);
      n := n + 1;
    }
    FailureNeedsFault(stores[n], built[n], tapes[n]);
  }

  /** The first workload built under a name. */
  function FirstBuilt(built: seq<Built>, name: string): Option<Spec> {
    if built == [] then None
    else if built[0].name == name then Some(built[0].spec)
    else FirstBuilt(built[1..], name)
  }

  /**
   Any pass, cut short anywhere, keeps every stored workload as it is and adds at most what was built,
   the first of each name; one that reports success has added all of it.
   */
  lemma {:induction false} EnsureAllMeaning(store: map<string, Spec>, built: seq<Built>, faults: seq<Fault>,
                                            name: string)
    ensures var (s, _, ok) := EnsureAll(store, built, faults);
            && (name in store ==> name in s && s[name] == store[name])
            && (name in s && name !in store ==> FirstBuilt(built, name) == Some(s[name]))
            && (ok && FirstBuilt(built, name).Some? ==> name in s)
    decreases |built|
  {
    if built != [] {
      var (s, f, ok) := Ensure(store, built[0], faults);
      if ok {
        EnsureAllMeaning(s, built[1..], f, name);
      }
    }
  }

  ghost predicate AgentPass(store: map<string, Spec>, store': map<string, Spec>, built: seq<Built>,
                            faults: seq<Fault>)
  {
    store' == EnsureAll(store, built, faults).0
  }

  /**
   After any number of passes cut short by faults and one that succeeds, each with the workloads it built
   itself, every workload the last one built exists; one that existed at any time before still has the
   spec it had then, and any other has one that some pass built.
   */
  lemma {:induction false} RetriesAreSafe(stores: seq<map<string, Spec>>, built: seq<seq<Built>>,
                                          tapes: seq<seq<Fault>>, last: seq<Fault>, k: nat, name: string)
    requires |stores| == |built| == |tapes| + 1 && k < |stores|
    requires forall i :: 0 <= i < |tapes| ==> AgentPass(stores[i], stores[i + 1], built[i], tapes[i])
    requires EnsureAll(stores[|tapes|], built[|tapes|], last).2
    ensures var s := EnsureAll(stores[|tapes|], built[|tapes|], last).0;
            && (FirstBuilt(built[|tapes|], name).Some? ==> name in s)
            && (name in stores[k] ==> name in s && s[name] == stores[k][name])
            && (name in s && name !in stores[0] ==> SomeBuilt(built, name, s[name]))
    decreases |stores|
  {
    EnsureAllMeaning(stores[0], built[0], if |tapes| == 0 then last else tapes[0], name);
    if |tapes| > 0 {
      var later := built[1..];
      assert AgentPass(stores[0], stores[1], built[0], tapes[0]);
      forall i | 0 <= i < |tapes[1..]|
        ensures AgentPass(stores[1..][i], stores[1..][i + 1], later[i], tapes[1..][i])
      {
        assert AgentPass(stores[i + 1], stores[i + 1 + 1], built[i + 1], tapes[i + 1]);
      }
      RetriesAreSafe(stores[1..], later, tapes[1..], last, if k > 0 then k - 1 else 0, name);
      RetriesAreSafe(stores[1..], later, tapes[1..], last, 0, name);
      var s := EnsureAll(stores[|tapes|], built[|tapes|], last).0;
      if name in s && name !in stores[1] {
        SomeBuiltLater(built, name, s[name]);
      }
    }
  }

  /** Some pass built this spec, first under this name. */
  ghost predicate SomeBuilt(built: seq<seq<Built>>, name: string, spec: Spec) {
    exists i :: 0 <= i < |built| && FirstBuilt(built[i], name) == Some(spec)
  }

  lemma SomeBuiltLater(built: seq<seq<Built>>, name: string, spec: Spec)
    requires built != [] && SomeBuilt(built[1..], name, spec)
    ensures SomeBuilt(built, name, spec)
  {
    var i :| 0 <= i < |built[1..]| && FirstBuilt(built[1..][i], name) == Some(spec);
    assert built[i + 1] == built[1..][i];
  }
}

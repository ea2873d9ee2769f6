/**
 CPU lists in the "List format" of cpuset(7): printing a set of CPU numbers, parsing a list, and the
 loop that gathers the CPUs of a host.
 */
module CpuSet {
  import opened Basics
  import opened Text

  datatype Range = Range(lo: nat, hi: nat)

  predicate InRange(x: nat, r: Range) {
    r.lo <= x <= r.hi
  }

  function Interval(r: Range): (cpus: set<nat>)
    ensures forall x: nat :: x in cpus <==> InRange(x, r)
  {
    set x: nat | r.lo <= x <= r.hi && InRange(x, r)
  }

  function Denoted(ranges: seq<Range>): set<nat> {
    if ranges == [] then {} else Interval(ranges[0]) + Denoted(ranges[1..])
  }

  /* ---- printing ---- */

  ghost predicate IsLeast(cpus: set<nat>, m: nat) {
    m in cpus && forall x :: x in cpus ==> m <= x
  }

  lemma {:induction false} LeastExists(cpus: set<nat>)
    requires cpus != {}
    ensures exists m :: IsLeast(cpus, m)
    decreases cpus
  {
    var m :| m in cpus;
    if cpus == {m} {
      assert IsLeast(cpus, m);
    } else {
      var rest := cpus - {m};
      LeastExists(rest);
      var n :| IsLeast(rest, n);
      assert forall x :: x in cpus ==> x == m || x in rest;
      assert IsLeast(cpus, if n < m then n else m);
    }
  }

  function Least(cpus: set<nat>): (m: nat)
    requires cpus != {}
    ensures IsLeast(cpus, m)
  {
    LeastExists(cpus);
    var m :| m in cpus && forall x :: x in cpus ==> m <= x;
    m
  }

  /** The last number of the unbroken run that starts at `x`. */
  function RunEnd(cpus: set<nat>, x: nat): (hi: nat)
    requires x in cpus
    ensures x <= hi && hi + 1 !in cpus
    ensures Interval(Range(x, hi)) <= cpus
    decreases |set y | y in cpus && y > x|
  {
    if x + 1 in cpus then
      var bigger, smaller := (set y | y in cpus && y > x), (set y | y in cpus && y > x + 1);
      assert bigger == smaller + {x + 1};
      RunEnd(cpus, x + 1)
    else x
  }

  function FirstRange(cpus: set<nat>): (first: Range)
    requires cpus != {}
    ensures first.lo in Interval(first) && Interval(first) <= cpus && first.hi + 1 !in cpus
    ensures forall x :: x in cpus ==> first.lo <= x
    ensures |cpus - Interval(first)| < |cpus|
  {
    var first := Range(Least(cpus), RunEnd(cpus, Least(cpus)));
    assert first.lo in Interval(first);
    assert cpus - Interval(first) < cpus;
    Shrinks(cpus, Interval(first));
    first
  }

  function Ranges(cpus: set<nat>): seq<Range>
    decreases |cpus|
  {
    if cpus == {} then [] else [FirstRange(cpus)] + Ranges(cpus - Interval(FirstRange(cpus)))
  }

  lemma Shrinks<T>(a: set<T>, b: set<T>)
    requires a - b < a
    ensures |a - b| < |a|
  {
    assert a == (a - b) + (a * b);
  }

  /** The printed ranges denote the set. */
  lemma {:induction false} RangesDenote(cpus: set<nat>)
    ensures Denoted(Ranges(cpus)) == cpus
    ensures forall r :: r in Ranges(cpus) ==> r.lo in cpus && r.lo <= r.hi
    decreases |cpus|
  {
    if cpus != {} {
      RangesDenote(cpus - Interval(FirstRange(cpus)));
    }
  }

  /** In ascending order, with a gap between each range and the next. */
  ghost predicate SortedAndMaximal(ranges: seq<Range>) {
    forall i, j :: 0 <= i < j < |ranges| ==> ranges[i].hi + 1 < ranges[j].lo
  }

  lemma PrependRange(first: Range, rest: seq<Range>)
    requires SortedAndMaximal(rest) && forall r :: r in rest ==> first.hi + 1 < r.lo
    ensures SortedAndMaximal([first] + rest)
  {
  }

  lemma BeyondFirst(cpus: set<nat>, x: nat)
    requires cpus != {} && x in cpus - Interval(FirstRange(cpus))
    ensures FirstRange(cpus).hi + 1 < x
  {
    var first := FirstRange(cpus);
    assert !InRange(x, first) && first.lo <= x && x != first.hi + 1;
  }

  lemma {:induction false} RangesMaximal(cpus: set<nat>)
    ensures SortedAndMaximal(Ranges(cpus))
    decreases |cpus|
  {
    if cpus != {} {
      var first := FirstRange(cpus);
      var rest := cpus - Interval(first);
      RangesMaximal(rest);
      RangesDenote(rest);
      forall r | r in Ranges(rest)
        ensures first.hi + 1 < r.lo
      {
        BeyondFirst(cpus, r.lo);
      }
      PrependRange(first, Ranges(rest));
    }
  }

  function PrintRange(r: Range): string {
    if r.lo == r.hi then Itoa(r.lo) else Itoa(r.lo) + "-" + Itoa(r.hi)
  }

  function PrintRanges(ranges: seq<Range>): seq<string> {
    if ranges == [] then [] else [PrintRange(ranges[0])] + PrintRanges(ranges[1..])
  }

  lemma {:induction false} PrintedFrom(ranges: seq<Range>)
    ensures forall p :: p in PrintRanges(ranges) ==> exists r :: r in ranges && p == PrintRange(r)
    ensures PrintRanges(ranges) == [] <==> ranges == []
  {
    if ranges != [] {
      PrintedFrom(ranges[1..]);
      assert ranges[0] in ranges && forall r :: r in ranges[1..] ==> r in ranges;
    }
  }

  function Print(cpus: set<nat>): string {
    Join(PrintRanges(Ranges(cpus)), ',')
  }

  /* ---- parsing ---- */

  function ParseRange(s: string): Option<set<nat>> {
    var bounds := Split(s, '-');
    if |bounds| == 1 then
      match ParseNat(bounds[0])
      case None => None
      case Some(n) => Some({n})
    else if |bounds| == 2 then
      match (ParseNat(bounds[0]), ParseNat(bounds[1]))
      case (Some(lo), Some(hi)) => if lo <= hi then Some(Interval(Range(lo, hi))) else None
      case _ => None
    else None
  }

  function ParseParts(parts: seq<string>): Option<set<nat>> {
    if parts == [] then Some({})
    else
      match (ParseRange(parts[0]), ParseParts(parts[1..]))
      case (Some(first), Some(rest)) => Some(first + rest)
      case _ => None
  }

  function Parse(s: string): Option<set<nat>> {
    if s == "" then Some({}) else ParseParts(Split(s, ','))
  }

  lemma ParsePrintedRange(r: Range)
    requires r.lo <= r.hi
    ensures PrintRange(r) != "" && ',' !in PrintRange(r)
    ensures ParseRange(PrintRange(r)) == Some(Interval(r))
  {
    var lo, hi := Itoa(r.lo), Itoa(r.hi);
    ParseItoa(r.lo);
    ParseItoa(r.hi);
    assert forall c :: c in lo || c in hi ==> IsDigit(c);
    SplitWithoutSeparator(lo, '-');
    SplitWithoutSeparator(hi, '-');
    if r.lo == r.hi {
      assert Interval(r) == {r.lo};
    } else {
      SplitAtSeparator(lo, hi, '-');
      assert PrintRange(r) == lo + ['-'] + hi;
      assert Split(PrintRange(r), '-') == [lo, hi];
    }
  }

  lemma {:induction false} ParsePrintedRanges(ranges: seq<Range>)
    requires forall r :: r in ranges ==> r.lo <= r.hi
    ensures ParseParts(PrintRanges(ranges)) == Some(Denoted(ranges))
  {
    if ranges != [] {
      ParsePrintedRange(ranges[0]);
      ParsePrintedRanges(ranges[1..]);
      assert PrintRanges(ranges)[1..] == PrintRanges(ranges[1..]);
    }
  }

  /** Printing then parsing is the identity, on every finite set of CPU numbers. */
  lemma ParsePrint(cpus: set<nat>)
    ensures Parse(Print(cpus)) == Some(cpus)
  {
    RangesDenote(cpus);
    var ranges := Ranges(cpus);
    var parts := PrintRanges(ranges);
    if ranges == [] {
      assert cpus == {};
    } else {
      forall p | p in parts
        ensures p != "" && ',' !in p
      {
        PrintedFrom(ranges);
        var r :| r in ranges && p == PrintRange(r);
        ParsePrintedRange(r);
      }
      PrintedFrom(ranges);
      SplitJoin(parts, ',');
      ParsePrintedRanges(ranges);
      assert parts[0] in parts;
      assert Print(cpus) != "";
    }
  }

  /** The string is a number, behind any zeros. */
  ghost predicate Numeral(s: string, n: nat, z: nat) {
    s == Zeros(z) + Itoa(n)
  }

  lemma NumeralRead(s: string, n: nat)
    ensures ParseNat(s) == Some(n) <==> exists z: nat :: Numeral(s, n, z)
  {
    if ParseNat(s) == Some(n) {
      var z := DigitsArePrinted(s);
      assert Numeral(s, n, z);
    }
    if z: nat :| Numeral(s, n, z) {
      ParseZeros(z, n);
    }
  }

  /** A part of a list that means these CPUs: one number, or two joined by a dash with the first not the greater. */
  ghost predicate PartMeans(s: string, cpus: set<nat>) {
    || (exists n: nat, z: nat :: Numeral(s, n, z) && cpus == {n})
    || (exists lo, hi :: s == lo + "-" + hi && BoundsMean(lo, hi, cpus))
  }

  ghost predicate BoundsMean(lo: string, hi: string, cpus: set<nat>) {
    exists m: nat, n: nat, y: nat, z: nat :: Numeral(lo, m, y) && Numeral(hi, n, z) && AllBetween(m, n, cpus)
  }

  ghost predicate AllBetween(m: nat, n: nat, cpus: set<nat>) {
    m <= n && forall x: nat :: x in cpus <==> m <= x <= n
  }

  /** What a part of a list is read as, and that nothing else can be read. */
  lemma PartExactly(s: string, cpus: set<nat>)
    ensures ParseRange(s) == Some(cpus) <==> PartMeans(s, cpus)
  {
    if ParseRange(s) == Some(cpus) {
      PartRead(s, cpus);
    }
    if n: nat, z: nat :| Numeral(s, n, z) && cpus == {n} {
      NumeralRead(s, n);
      SplitWithoutSeparator(s, '-');
    }
    if lo, hi :| s == lo + "-" + hi && BoundsMean(lo, hi, cpus) {
      BoundsRead(lo, hi, cpus);
    }
  }

  /** A list without commas is read as its one part, and the empty one as no CPUs. */
  lemma OnePartExactly(s: string, cpus: set<nat>)
    requires ',' !in s
    ensures Parse(s) == Some(cpus) <==> if s == "" then cpus == {} else PartMeans(s, cpus)
  {
    SplitWithoutSeparator(s, ',');
    PartExactly(s, cpus);
    assert forall x: set<nat> :: x + {} == x;
    assert ParseParts([s][1..]) == Some({});
  }

  lemma BoundsRead(lo: string, hi: string, cpus: set<nat>)
    requires BoundsMean(lo, hi, cpus)
    ensures ParseRange(lo + "-" + hi) == Some(cpus)
  {
    var m: nat, n: nat, y: nat, z: nat :| Numeral(lo, m, y) && Numeral(hi, n, z) && AllBetween(m, n, cpus);
    NumeralRead(lo, m);
    NumeralRead(hi, n);
    TwoBounds(lo, hi, m, n);
    IntervalIs(m, n, cpus);
  }

  lemma IntervalIs(m: nat, n: nat, cpus: set<nat>)
    ensures AllBetween(m, n, cpus) <==> m <= n && cpus == Interval(Range(m, n))
  {
    if AllBetween(m, n, cpus) {
      assert forall x: nat :: x in cpus <==> x in Interval(Range(m, n));
    }
  }

  lemma TwoBounds(lo: string, hi: string, m: nat, n: nat)
    requires ParseNat(lo) == Some(m) && ParseNat(hi) == Some(n) && m <= n
    ensures ParseRange(lo + "-" + hi) == Some(Interval(Range(m, n)))
  {
    SplitWithoutSeparator(lo, '-');
    SplitWithoutSeparator(hi, '-');
    SplitAtSeparator(lo, hi, '-');
    assert lo + ['-'] + hi == lo + "-" + hi;
    assert Split(lo + "-" + hi, '-') == [lo, hi];
  }

  lemma PartRead(s: string, cpus: set<nat>)
    requires ParseRange(s) == Some(cpus)
    ensures PartMeans(s, cpus)
  {
    var bounds := Split(s, '-');
    JoinSplit(s, '-');
    if |bounds| == 1 {
      var n := ParseNat(s).value;
      NumeralRead(s, n);
    } else {
      var lo, hi := bounds[0], bounds[1];
      NumeralRead(lo, ParseNat(lo).value);
      NumeralRead(hi, ParseNat(hi).value);
      assert bounds[1..] == [hi];
      assert s == lo + "-" + hi;
      IntervalIs(ParseNat(lo).value, ParseNat(hi).value, cpus);
      assert BoundsMean(lo, hi, cpus);
    }
  }

  /* ---- joined lists ---- */

  lemma {:induction false} ParsePartsConcat(a: seq<string>, b: seq<string>)
    ensures ParseParts(a + b) ==
            match (ParseParts(a), ParseParts(b))
            case (Some(x), Some(y)) => Some(x + y)
            case _ => None
  {
    if a == [] {
      assert a + b == b;
      assert forall y: set<nat> :: {} + y == y;
    } else {
      assert (a + b)[1..] == a[1..] + b;
      ParsePartsConcat(a[1..], b);
      assert (a + b)[0] == a[0];
      match (ParseRange(a[0]), ParseParts(a[1..]), ParseParts(b)) {
        case (Some(x), Some(y), Some(z)) => assert (x + y) + z == x + (y + z);
        case _ =>
      }
    }
  }

  function UnionOf(lists: seq<string>): Option<set<nat>> {
    if lists == [] then Some({})
    else
      match (Parse(lists[0]), UnionOf(lists[1..]))
      case (Some(first), Some(rest)) => Some(first + rest)
      case _ => None
  }

  function PartsUnion(lists: seq<string>): Option<set<nat>> {
    if lists == [] then Some({})
    else
      match (ParseParts(Split(lists[0], ',')), PartsUnion(lists[1..]))
      case (Some(first), Some(rest)) => Some(first + rest)
      case _ => None
  }

  lemma {:induction false} ParseJoined(lists: seq<string>)
    requires lists != []
    ensures ParseParts(Split(Join(lists, ','), ',')) == PartsUnion(lists)
  {
    if |lists| == 1 {
      assert PartsUnion(lists[1..]) == Some({});
      assert forall x: set<nat> :: x + {} == x;
    } else {
      var rest := Join(lists[1..], ',');
      ParseJoined(lists[1..]);
      SplitAtSeparator(lists[0], rest, ',');
      ParsePartsConcat(Split(lists[0], ','), Split(rest, ','));
      assert Join(lists, ',') == lists[0] + [','] + rest;
    }
  }

  /** An empty string denotes the empty set as a list, but cannot be read as a part of one. */
  lemma {:induction false} PartsUnionMeans(lists: seq<string>)
    ensures PartsUnion(lists) == if "" in lists then None else UnionOf(lists)
  {
    if lists != [] {
      PartsUnionMeans(lists[1..]);
      assert Split("", ',') == [""] && ParseRange("").None? by {
        assert Split("", '-') == [""];
      }
      assert "" in lists <==> lists[0] == "" || "" in lists[1..];
    }
  }

  /** Joining CPU lists with commas denotes the union of what they denote, unless an empty string is one of several. */
  lemma JoinMeansUnion(lists: seq<string>)
    ensures Parse(Join(lists, ',')) == if |lists| > 1 && "" in lists then None else UnionOf(lists)
  {
    if |lists| == 1 {
      assert UnionOf(lists[1..]) == Some({});
      assert forall x: set<nat> :: x + {} == x;
    } else if |lists| > 1 {
      ParseJoined(lists);
      PartsUnionMeans(lists);
    }
  }

  /** The union can be read without an order: a CPU is in it when some list holds it. */
  lemma {:induction false} UnionHasNoOrder(lists: seq<string>)
    ensures UnionOf(lists).Some? <==> forall l :: l in lists ==> Parse(l).Some?
    ensures UnionOf(lists).Some? ==>
              forall x :: x in UnionOf(lists).value <==> exists l :: l in lists && x in Parse(l).value
  {
    if lists != [] {
      UnionHasNoOrder(lists[1..]);
      assert forall l :: l in lists <==> l == lists[0] || l in lists[1..];
    }
  }
}

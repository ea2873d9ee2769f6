/** The parts of Go's strings and strconv packages that the operator relies on. */
module Text {
  import opened Basics

  predicate OccursAt(s: string, sub: string, i: int) {
    0 <= i <= |s| - |sub| && s[i..i + |sub|] == sub
  }

  ghost predicate Contains(s: string, sub: string) {
    exists i :: OccursAt(s, sub, i)
  }

  predicate HasPrefix(s: string, prefix: string) {
    prefix <= s
  }

  predicate HasSuffix(s: string, suffix: string) {
    |suffix| <= |s| && s[|s| - |suffix|..] == suffix
  }

  /** strings.ReplaceAll(s, old, ""): drops the leftmost occurrences that do not overlap. */
  function RemoveAll(s: string, sub: string): string
    requires sub != ""
  {
    if |s| < |sub| then s
    else if sub <= s then RemoveAll(s[|sub|..], sub)
    else [s[0]] + RemoveAll(s[1..], sub)
  }

  lemma OccursInTail(s: string, sub: string, i: nat)
    requires s != ""
    ensures OccursAt(s, sub, i + 1) <==> OccursAt(s[1..], sub, i)
  {
    if i + |sub| <= |s| - 1 {
      assert s[i + 1..i + 1 + |sub|] == s[1..][i..i + |sub|];
    }
  }

  lemma OccursFirst(s: string, sub: string)
    ensures OccursAt(s, sub, 0) <==> sub <= s
  {
    if sub <= s {
      assert s[0..|sub|] == sub;
    }
  }

  lemma ContainsTail(s: string, sub: string)
    requires s != "" && !(sub <= s)
    ensures Contains(s, sub) <==> Contains(s[1..], sub)
  {
    OccursFirst(s, sub);
    if i :| OccursAt(s, sub, i) {
      OccursInTail(s, sub, i - 1);
    }
    if i :| OccursAt(s[1..], sub, i) {
      OccursInTail(s, sub, i);
    }
  }

  /** A string loses nothing exactly when the pattern does not occur in it. */
  lemma {:induction false} RemoveAllIdentity(s: string, sub: string)
    requires sub != ""
    ensures |RemoveAll(s, sub)| <= |s|
    ensures RemoveAll(s, sub) == s <==> !Contains(s, sub)
    decreases |s|
  {
    if |s| < |sub| {
    } else if sub <= s {
      RemoveAllIdentity(s[|sub|..], sub);
      assert OccursAt(s, sub, 0);
    } else {
      RemoveAllIdentity(s[1..], sub);
      ContainsTail(s, sub);
      var rest := RemoveAll(s[1..], sub);
      assert RemoveAll(s, sub) == [s[0]] + rest && ([s[0]] + rest)[1..] == rest;
      assert s == [s[0]] + s[1..];
    }
  }

  /* ---- decimal numbers ---- */

  function DigitChar(d: nat): char
    requires d < 10
  {
    ('0' as int + d) as char
  }

  predicate IsDigit(c: char) {
    '0' <= c <= '9'
  }

  predicate AllDigits(s: string) {
    forall i :: 0 <= i < |s| ==> IsDigit(s[i])
  }

  /** strconv.Itoa, and the %d verb, on a number that is not negative. */
  function Itoa(n: nat): string {
    if n < 10 then [DigitChar(n)] else Itoa(n / 10) + [DigitChar(n % 10)]
  }

  function DecimalValue(s: string): nat
    requires AllDigits(s)
  {
    if s == "" then 0
    else DecimalValue(s[..|s| - 1]) * 10 + (s[|s| - 1] as int - '0' as int)
  }

  function ParseNat(s: string): Option<nat> {
    if s != "" && AllDigits(s) then Some(DecimalValue(s)) else None
  }

  /** strconv.Atoi: an optional sign, then digits, within the 64-bit range. */
  function Atoi(s: string): Option<int64> {
    var negative := s != "" && s[0] == '-';
    var digits := if s != "" && (s[0] == '-' || s[0] == '+') then s[1..] else s;
    match ParseNat(digits)
    case None => None
    case Some(n) =>
      var v := (if negative then -1 else 1) * n;
      if -0x8000_0000_0000_0000 <= v < 0x8000_0000_0000_0000 then Some(v) else None
  }

  /** Reading back a printed number gives that number. */
  lemma {:induction false} ParseItoa(n: nat)
    ensures Itoa(n) != "" && AllDigits(Itoa(n))
    ensures ParseNat(Itoa(n)) == Some(n)
    decreases n
  {
    var s := Itoa(n);
    if n < 10 {
      var c := DigitChar(n);
      assert s == [c] && IsDigit(c);
      assert AllDigits(s);
      assert s[..|s| - 1] == "" && s[|s| - 1] == c;
      assert DecimalValue(s) == 0 * 10 + (c as int - '0' as int) == n;
    } else {
      ParseItoa(n / 10);
      assert s[..|s| - 1] == Itoa(n / 10) && s[|s| - 1] == DigitChar(n % 10);
      assert IsDigit(s[|s| - 1]);
      assert AllDigits(s);
      assert DecimalValue(s) == DecimalValue(s[..|s| - 1]) * 10 + n % 10;
    }
  }

  lemma ItoaInjective(m: nat, n: nat)
    requires Itoa(m) == Itoa(n)
    ensures m == n
  {
    ParseItoa(m);
    ParseItoa(n);
  }

  function Zeros(z: nat): (s: string)
    ensures |s| == z && forall i :: 0 <= i < |s| ==> s[i] == '0'
  {
    if z == 0 then "" else Zeros(z - 1) + "0"
  }

  /** Leading zeros are read over. */
  lemma {:induction false} ParseZeros(z: nat, n: nat)
    ensures AllDigits(Zeros(z) + Itoa(n)) && ParseNat(Zeros(z) + Itoa(n)) == Some(n)
    decreases n, z
  {
    var s := Zeros(z) + Itoa(n);
    ParseItoa(n);
    assert AllDigits(s);
    if n >= 10 {
      ParseZeros(z, n / 10);
      assert s[..|s| - 1] == Zeros(z) + Itoa(n / 10) && s[|s| - 1] == DigitChar(n % 10);
    } else if z > 0 {
      ParseZeros(z - 1, 0);
      assert Zeros(z) == Zeros(z - 1) + Itoa(0);
      assert s[..|s| - 1] == Zeros(z - 1) + Itoa(0) && s[|s| - 1] == DigitChar(n);
    } else {
      assert s == Itoa(n);
    }
  }

  /** And every string of digits is a printed number behind zeros. */
  lemma {:induction false} DigitsArePrinted(s: string) returns (z: nat)
    requires s != "" && AllDigits(s)
    ensures s == Zeros(z) + Itoa(DecimalValue(s))
    decreases |s|
  {
    var n := |s| - 1;
    var init, d := s[..n], s[n] as int - '0' as int;
    assert s == init + [DigitChar(d)];
    if init == "" {
      assert DecimalValue(s) == d;
      z := 0;
    } else {
      z := DigitsArePrinted(init);
      var v := DecimalValue(init);
      assert DecimalValue(s) == v * 10 + d;
      if v == 0 {
        assert init == Zeros(z) + "0" == Zeros(z + 1);
        z := z + 1;
      } else {
        assert Itoa(v * 10 + d) == Itoa(v) + [DigitChar(d)];
      }
    }
  }

  /** `s` spells the number: a sign where there is one, zeros, and its digits. */
  ghost predicate Spells(s: string, v: int, z: nat) {
    || (v >= 0 && s == Zeros(z) + Itoa(v))
    || (v >= 0 && s == "+" + (Zeros(z) + Itoa(v)))
    || (v <= 0 && s == "-" + (Zeros(z) + Itoa(-v)))
  }

  /** A string is read as the 64-bit number it spells, and not at all when it spells none. */
  lemma AtoiExactly(s: string, v: int)
    ensures (exists n :: Atoi(s) == Some(n) && n as int == v) <==>
            -0x8000_0000_0000_0000 <= v <= 0x7fff_ffff_ffff_ffff && exists z: nat :: Spells(s, v, z)
  {
    if n :| Atoi(s) == Some(n) && n as int == v {
      var z := AtoiSpelled(s);
    }
    if z: nat :| Spells(s, v, z) {
      SpelledAtoi(s, v, z);
    }
  }

  lemma AtoiSpelled(s: string) returns (z: nat)
    requires Atoi(s).Some?
    ensures Spells(s, Atoi(s).value, z)
  {
    if s[0] == '-' || s[0] == '+' {
      assert s == [s[0]] + s[1..];
      z := DigitsArePrinted(s[1..]);
    } else {
      z := DigitsArePrinted(s);
    }
  }

  lemma SpelledAtoi(s: string, v: int, z: nat)
    requires Spells(s, v, z)
    ensures Atoi(s) == if -0x8000_0000_0000_0000 <= v <= 0x7fff_ffff_ffff_ffff then Some(v) else None
  {
    if v >= 0 && s == Zeros(z) + Itoa(v) {
      ParseZeros(z, v);
      assert IsDigit(s[0]);
    } else if v >= 0 && s == "+" + (Zeros(z) + Itoa(v)) {
      ParseZeros(z, v);
      assert s[1..] == Zeros(z) + Itoa(v);
    } else {
      ParseZeros(z, -v);
      assert s[1..] == Zeros(z) + Itoa(-v);
    }
  }

  /* ---- separated lists ---- */

  function Split(s: string, sep: char): (parts: seq<string>)
    ensures |parts| >= 1
  {
    if s == "" then [""]
    else
      var rest := Split(s[1..], sep);
      if s[0] == sep then [""] + rest else [[s[0]] + rest[0]] + rest[1..]
  }

  function Join(parts: seq<string>, sep: char): string {
    if parts == [] then ""
    else if |parts| == 1 then parts[0]
    else parts[0] + [sep] + Join(parts[1..], sep)
  }

  lemma {:induction false} SplitWithoutSeparator(s: string, sep: char)
    requires sep !in s
    ensures Split(s, sep) == [s]
  {
    if s != "" {
      SplitWithoutSeparator(s[1..], sep);
      assert [s[0]] + s[1..] == s;
    }
  }

  lemma {:induction false} SplitAtSeparator(a: string, b: string, sep: char)
    ensures Split(a + [sep] + b, sep) == Split(a, sep) + Split(b, sep)
  {
    var s := a + [sep] + b;
    if a == "" {
      assert s[1..] == b;
    } else {
      assert s[1..] == a[1..] + [sep] + b;
      SplitAtSeparator(a[1..], b, sep);
    }
  }

  /** And joining the parts gives back the string. */
  lemma {:induction false} JoinSplit(s: string, sep: char)
    ensures Join(Split(s, sep), sep) == s
  {
    if s != "" {
      JoinSplit(s[1..], sep);
      var parts, rest := Split(s, sep), Split(s[1..], sep);
      if s[0] == sep {
        assert parts[1..] == rest;
      } else if |rest| > 1 {
        assert parts[1..] == rest[1..];
      }
      assert s == [s[0]] + s[1..];
    }
  }

  /** Splitting a joined list gives back its parts, when no part holds the separator. */
  lemma {:induction false} SplitJoin(parts: seq<string>, sep: char)
    requires parts != []
    requires forall p :: p in parts ==> sep !in p
    ensures Split(Join(parts, sep), sep) == parts
  {
    SplitWithoutSeparator(parts[0], sep);
    if |parts| > 1 {
      SplitAtSeparator(parts[0], Join(parts[1..], sep), sep);
      SplitJoin(parts[1..], sep);
    }
  }
}

/**
 The node list shared by the controllers (pkg/state/state.go): a slice over a backing array, whose
 entries are removed in place while the same slice is being ranged over.
 */
module NodeData {
  import opened Basics

  /** A slice header and the array behind it, up to its capacity. */
  datatype Slice = Slice(backing: seq<string>, len: nat)

  ghost predicate SliceOk(s: Slice) {
    s.len <= |s.backing|
  }

  function Content(s: Slice): seq<string>
    requires SliceOk(s)
  {
    s.backing[..s.len]
  }

  /** `append(s[:i], s[i+1:]...)`: shifts the rest of the slice down by one and leaves what lies behind it. */
  function Cut(s: Slice, i: nat): (r: Slice)
    requires SliceOk(s) && i < s.len
    ensures SliceOk(r) && |r.backing| == |s.backing| && r.len == s.len - 1
    ensures forall j :: 0 <= j < |r.backing| ==>
              r.backing[j] == if i <= j < s.len - 1 then s.backing[j + 1] else s.backing[j]
  {
    Slice(s.backing[..i] + s.backing[i + 1..s.len] + s.backing[s.len - 1..], s.len - 1)
  }

  datatype Outcome = Finished(slice: Slice) | Panicked(slice: Slice)

  /**
   The loop of DeleteRmdNodeData from index `i`: `bound` is the length the range statement took at
   the start, while the elements, and the slice that is cut, are those of the moment.
   */
  function DeleteFrom(s: Slice, name: string, i: nat, bound: nat): Outcome
    requires SliceOk(s) && i <= bound <= |s.backing|
    decreases bound - i
  {
    if i == bound then Finished(s)
    else if s.backing[i] != name then DeleteFrom(s, name, i + 1, bound)
    else if i + 1 > s.len then Panicked(s)
    else DeleteFrom(Cut(s, i), name, i + 1, bound)
  }

  /* ---- what the loop computes ---- */

  /** The list without every occurrence of `name`. */
  function Remove(list: seq<string>, name: string): seq<string> {
    if list == [] then []
    else (if list[0] == name then [] else [list[0]]) + Remove(list[1..], name)
  }

  /** Removing an occurrence hides the entry right after it from the loop. */
  function RemoveSkipping(list: seq<string>, name: string): seq<string> {
    if list == [] then []
    else if list[0] != name then [list[0]] + RemoveSkipping(list[1..], name)
    else if |list| == 1 then []
    else [list[1]] + RemoveSkipping(list[2..], name)
  }

  /** The last entry is the one to delete, and so is an earlier one. */
  ghost predicate LastIsRepeated(list: seq<string>, name: string) {
    list != [] && list[|list| - 1] == name && exists j :: 0 <= j < |list| - 1 && list[j] == name
  }

  ghost predicate RepeatedInARow(list: seq<string>, name: string) {
    exists j :: 0 <= j < |list| - 1 && list[j] == name && list[j + 1] == name
  }

  /** At any point of the loop there are only copies of the last entry behind the slice. */
  ghost predicate CopiesBehind(s: Slice, i: nat, bound: nat, last: string) {
    && SliceOk(s) && i <= bound <= |s.backing| && s.len <= bound
    && forall j :: s.len - 1 <= j < bound && i <= j ==> s.backing[j] == last
  }

  lemma CutBehind(s: Slice, i: nat, bound: nat, last: string)
    requires CopiesBehind(s, i, bound, last) && i < bound && i + 1 <= s.len
    ensures CopiesBehind(Cut(s, i), i + 1, bound, last)
  {
    var c := Cut(s, i);
    forall j | c.len - 1 <= j < bound && i + 1 <= j
      ensures c.backing[j] == last
    {
      assert c.backing[j] == if i <= j < s.len - 1 then s.backing[j + 1] else s.backing[j];
    }
  }

  /** So once something was removed, the loop runs off the slice exactly when the last entry is to go too. */
  lemma {:induction false} DeleteFromPanics(s: Slice, name: string, i: nat, bound: nat, last: string)
    requires CopiesBehind(s, i, bound, last)
    ensures SliceOk(DeleteFrom(s, name, i, bound).slice)
    ensures DeleteFrom(s, name, i, bound).Panicked? <==>
              i < bound && last == name && (s.len < bound || exists j :: i <= j < bound - 1 && s.backing[j] == name)
    decreases bound - i
  {
    if i < bound && s.backing[i] != name {
      DeleteFromPanics(s, name, i + 1, bound, last);
    } else if i < bound && i + 1 <= s.len {
      CutBehind(s, i, bound, last);
      DeleteFromPanics(Cut(s, i), name, i + 1, bound, last);
    }
  }

  lemma KeepOne(b: seq<string>, name: string, i: nat, len: nat)
    requires i < len <= |b| && b[i] != name
    ensures b[..i] + RemoveSkipping(b[i..len], name) == b[..i + 1] + RemoveSkipping(b[i + 1..len], name)
  {
  }

  lemma CutOne(s: Slice, name: string, i: nat)
    requires SliceOk(s) && i + 1 < s.len && s.backing[i] == name
    ensures var c := Cut(s, i);
            s.backing[..i] + RemoveSkipping(s.backing[i..s.len], name) ==
                c.backing[..i + 1] + RemoveSkipping(c.backing[i + 1..c.len], name)
  {
    var c := Cut(s, i);
    assert s.backing[i..s.len][2..] == s.backing[i + 2..s.len] == c.backing[i + 1..c.len];
    assert c.backing[..i + 1] == s.backing[..i] + [s.backing[i + 1]];
  }

  lemma {:induction false} DeleteFromContent(s: Slice, name: string, i: nat, bound: nat, last: string)
    requires CopiesBehind(s, i, bound, last)
    ensures var o := DeleteFrom(s, name, i, bound);
            o.Finished? ==>
              && SliceOk(o.slice)
              && Content(o.slice) ==
                 if i > s.len then Content(s) else s.backing[..i] + RemoveSkipping(s.backing[i..s.len], name)
    decreases bound - i
  {
    if i < bound && s.backing[i] != name {
      DeleteFromContent(s, name, i + 1, bound, last);
      if i < s.len {
        KeepOne(s.backing, name, i, s.len);
      }
    } else if i < bound && i + 1 <= s.len {
      CutBehind(s, i, bound, last);
      DeleteFromContent(Cut(s, i), name, i + 1, bound, last);
      if i + 1 < s.len {
        CutOne(s, name, i);
      } else {
        assert Content(Cut(s, i)) == s.backing[..i];
      }
    }
  }

  /** The whole loop: it panics, or removes what it does not skip. */
  lemma DeleteMeaning(s: Slice, name: string)
    requires SliceOk(s)
    ensures var o := DeleteFrom(s, name, 0, s.len);
            && SliceOk(o.slice)
            && (o.Panicked? <==> LastIsRepeated(Content(s), name))
            && (o.Finished? ==> Content(o.slice) == RemoveSkipping(Content(s), name))
  {
    var last := if s.len == 0 then "" else s.backing[s.len - 1];
    DeleteFromPanics(s, name, 0, s.len, last);
    DeleteFromContent(s, name, 0, s.len, last);
    assert s.backing[..0] + RemoveSkipping(s.backing[0..s.len], name) == RemoveSkipping(Content(s), name);
    if s.len > 0 && (exists j :: 0 <= j < s.len - 1 && s.backing[j] == name) {
      var j :| 0 <= j < s.len - 1 && s.backing[j] == name;
      assert Content(s)[j] == name;
    }
  }

  lemma {:induction false} RemoveContains(list: seq<string>, name: string)
    ensures name !in Remove(list, name)
    ensures forall n :: n != name ==> (n in Remove(list, name) <==> n in list)
    ensures name !in list ==> Remove(list, name) == list
  {
    if list != [] {
      RemoveContains(list[1..], name);
    }
  }

  lemma {:induction false} SkippingIsRemoving(list: seq<string>, name: string)
    ensures RemoveSkipping(list, name) == Remove(list, name) <==> !RepeatedInARow(list, name)
    decreases |list|
  {
    if list == [] {
    } else if list[0] != name {
      SkippingIsRemoving(list[1..], name);
      RowShifted(list, name, 1);
      assert RemoveSkipping(list, name)[1..] == RemoveSkipping(list[1..], name);
      assert Remove(list, name)[1..] == Remove(list[1..], name);
    } else if |list| > 1 {
      if list[1] == name {
        RemoveContains(list, name);
        assert RemoveSkipping(list, name)[0] == name;
        assert list[0] == name && list[0 + 1] == name;
      } else {
        SkippingIsRemoving(list[2..], name);
        RowShifted(list, name, 2);
        assert list[1..][1..] == list[2..];
        assert Remove(list, name) == [list[1]] + Remove(list[2..], name);
        assert RemoveSkipping(list, name)[1..] == RemoveSkipping(list[2..], name);
        assert Remove(list, name)[1..] == Remove(list[2..], name);
      }
    }
  }

  lemma RowShifted(list: seq<string>, name: string, d: nat)
    requires d <= |list| && (d == 1 || d == 2) && (d == 1 ==> list[0] != name) && (d == 2 ==> list[1] != name)
    ensures RepeatedInARow(list, name) <==> RepeatedInARow(list[d..], name)
  {
  }

  /**
   DeleteRmdNodeData stays in bounds and removes exactly the named entries if and only if the name
   does not occur twice in a row and a repeated name is not also the last entry.
   */
  lemma DeleteIsExact(s: Slice, name: string)
    requires SliceOk(s)
    ensures var o := DeleteFrom(s, name, 0, s.len);
            (o.Finished? && SliceOk(o.slice) && Content(o.slice) == Remove(Content(s), name)) <==>
            !LastIsRepeated(Content(s), name) && !RepeatedInARow(Content(s), name)
  {
    DeleteMeaning(s, name);
    SkippingIsRemoving(Content(s), name);
  }

  /** In particular on every list without duplicates, which is what the operator keeps. */
  lemma DeleteOnDistinct(s: Slice, name: string)
    requires SliceOk(s) && NoDuplicates(Content(s))
    ensures var o := DeleteFrom(s, name, 0, s.len);
            o.Finished? && SliceOk(o.slice) && Content(o.slice) == Remove(Content(s), name)
  {
    DeleteIsExact(s, name);
  }

  lemma DeleteSummary(s: Slice, name: string)
    requires SliceOk(s)
    ensures var o := DeleteFrom(s, name, 0, s.len);
            && SliceOk(o.slice)
            && (o.Panicked? <==> LastIsRepeated(Content(s), name))
            && (o.Finished? ==> Content(o.slice) == RemoveSkipping(Content(s), name))
            && (NoDuplicates(Content(s)) ==> o.Finished? && Content(o.slice) == Remove(Content(s), name))
  {
    DeleteMeaning(s, name);
    if NoDuplicates(Content(s)) {
      DeleteOnDistinct(s, name);
    }
  }

  lemma {:induction false} RemoveKeepsDistinct(list: seq<string>, name: string)
    requires NoDuplicates(list)
    ensures NoDuplicates(Remove(list, name))
  {
    if list != [] {
      RemoveKeepsDistinct(list[1..], name);
      RemoveContains(list[1..], name);
      assert list[0] !in list[1..];
      var rest := Remove(list[1..], name);
      assert list[0] == name || list[0] !in rest;
      assert Remove(list, name) == if list[0] == name then rest else [list[0]] + rest;
    }
  }

  /** [x, x] runs off the slice. */
  lemma TwoCopiesPanic(x: string)
    ensures DeleteFrom(Slice([x, x], 2), x, 0, 2).Panicked?
  {
  }

  /** [x, x, a] keeps a copy of x. */
  lemma TwoCopiesLeaveOne(x: string, a: string)
    requires a != x
    ensures var o := DeleteFrom(Slice([x, x, a], 3), x, 0, 3);
            o.Finished? && SliceOk(o.slice) && Content(o.slice) == [x, a]
  {
    var list := [x, x, a];
    assert Content(Slice(list, 3)) == list;
    DeleteMeaning(Slice(list, 3), x);
    assert list[2..] == [a] && [a][1..] == [];
    assert RemoveSkipping([a], x) == [a];
  }

  /* ---- the object ---- */

  class RmdNodeData {
    var backing: array<string>
    var len: nat

    ghost predicate Valid()
      reads this
    {
      len <= backing.Length
    }

    function View(): (s: Slice)
      reads this, backing
    {
      Slice(backing[..], len)
    }

    /** RmdNodeList, as its users read it. */
    function List(): (list: seq<string>)
      requires Valid()
      reads this, backing
    {
      backing[..len]
    }

    constructor ()
      ensures Valid() && fresh(backing) && List() == []
    {
      backing := new string[0];
      len := 0;
    }

    method UpdateRmdNodeData(nodeName: string)
      requires Valid()
      modifies this, backing
      ensures Valid() && (backing == old(backing) || fresh(backing))
      ensures List() == if nodeName in old(List()) then old(List()) else old(List()) + [nodeName]
    {
      for i := 0 to len
        invariant nodeName !in backing[..i]
      {
        if nodeName == backing[i] {
          assert nodeName in List();
          return;
        }
      }
      if len == backing.Length {
        var grown := new string[2 * len + 1];
        forall j | 0 <= j < len {
          grown[j] := backing[j];
        }
        assert grown[..len] == backing[..len];
        backing := grown;
      }
      backing[len] := nodeName;
      len := len + 1;
    }

    /** The append that removes one entry: it fits the backing array, so it shifts in place. */
    method CutAt(index: nat)
      requires Valid() && index < len
      modifies this`len, backing
      ensures Valid() && View() == Cut(old(View()), index)
    {
      forall j | index <= j < len - 1 {
        backing[j] := backing[j + 1];
      }
      len := len - 1;
      ghost var cut := Cut(old(View()), index);
      assert forall j :: 0 <= j < backing.Length ==> backing[j] == cut.backing[j];
      assert backing[..] == cut.backing;
    }

    /** `panicked` is an index out of range in Go. */
    method DeleteRmdNodeData(nodeName: string) returns (panicked: bool)
      requires Valid()
      modifies this, backing
      ensures Valid() && backing == old(backing)
      ensures var o := DeleteFrom(old(View()), nodeName, 0, old(len)); panicked == o.Panicked? && View() == o.slice
      ensures panicked <==> LastIsRepeated(old(List()), nodeName)
      ensures !panicked ==> List() == RemoveSkipping(old(List()), nodeName)
      ensures NoDuplicates(old(List())) ==> !panicked && List() == Remove(old(List()), nodeName)
    {
      ghost var start := View();
      var bound := len;
      var ranged := backing;
      panicked := false;
      for index := 0 to bound
        invariant Valid() && backing == ranged == old(backing) && bound <= backing.Length && !panicked
        invariant DeleteFrom(start, nodeName, 0, bound) == DeleteFrom(View(), nodeName, index, bound)
      {
        if ranged[index] == nodeName {
          if index + 1 > len {
            panicked := true;
            break;
          }
          CutAt(index);
        }
      }
      DeleteSummary(start, nodeName);
      assert Content(start) == old(List()) && Content(View()) == List();
    }
  }
}

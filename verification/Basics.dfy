/** Small definitions shared by every other module. */
module Basics {

  datatype Option<+T> = None | Some(value: T)

  // Go's int on the 64-bit platforms the operator is built for, and the unsigned width RMD uses.
  type int64 = x: int | -0x8000_0000_0000_0000 <= x < 0x8000_0000_0000_0000
  type uint32 = x: int | 0 <= x < 0x1_0000_0000

  ghost predicate NoDuplicates<T>(s: seq<T>) {
    forall i, j :: 0 <= i < j < |s| ==> s[i] != s[j]
  }

  ghost predicate Injective<K, V>(m: map<K, V>) {
    forall j, k :: j in m && k in m && m[j] == m[k] ==> j == k
  }

  /** Every entry of `m` is an entry of `n`. */
  ghost predicate Within<K, V>(m: map<K, V>, n: map<K, V>) {
    forall k :: k in m ==> k in n && n[k] == m[k]
  }

  /** `order` lists every element of `keys` exactly once: one possible order of a Go map iteration. */
  ghost predicate IsOrderOf<K>(order: seq<K>, keys: set<K>) {
    && NoDuplicates(order)
    && (forall k :: k in order ==> k in keys)
    && (forall k :: k in keys ==> k in order)
  }

  /** Every finite set can be listed. */
  lemma {:induction false} OrderExists<K>(keys: set<K>) returns (order: seq<K>)
    ensures IsOrderOf(order, keys)
    decreases |keys|
  {
    if keys == {} {
      order := [];
    } else {
      var k :| k in keys;
      var rest := OrderExists(keys - {k});
      order := rest + [k];
    }
  }
}

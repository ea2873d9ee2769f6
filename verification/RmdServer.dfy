/**
 The contract of one RMD instance, as the operator relies on it: POST stores a workload under a new
 ID, PATCH replaces the configuration under a live ID, DELETE removes it, and neither touches
 anything when the ID is not live.
 */
module RmdServer {
  import opened RmdClient

  /** NoId is the empty string of a status that never held an ID. */
  datatype WorkloadId = NoId | Id(serial: nat)

  datatype Entry = Entry(id: WorkloadId, uuid: string, config: Payload)

  /**
   `issued[k]` is the name given in the request that was answered with `Id(k)`; the log only grows,
   so an ID is never used twice. `shareCpuLists` is what the instance reports of its host.
   */
  datatype Instance = Instance(entries: seq<Entry>, issued: seq<string>, shareCpuLists: seq<string>)

  const NO_ENTRY := Entry(NoId, "", EMPTY_PAYLOAD)

  /* ---- requests ---- */

  function Post(i: Instance, name: string, config: Payload): Instance {
    i.(entries := i.entries + [Entry(Id(|i.issued|), name, config)], issued := i.issued + [name])
  }

  function Patched(entries: seq<Entry>, id: WorkloadId, config: Payload): (r: seq<Entry>)
    ensures |r| == |entries|
    ensures forall k :: 0 <= k < |r| ==>
              r[k] == if entries[k].id == id then entries[k].(config := config) else entries[k]
  {
    if entries == [] then []
    else
      var e := entries[0];
      [if e.id == id then e.(config := config) else e] + Patched(entries[1..], id, config)
  }

  function Patch(i: Instance, id: WorkloadId, config: Payload): Instance {
    i.(entries := Patched(i.entries, id, config))
  }

  function Without(entries: seq<Entry>, id: WorkloadId): (r: seq<Entry>)
    ensures forall e :: e in r <==> e in entries && e.id != id
  {
    if entries == [] then []
    else (if entries[0].id == id then [] else [entries[0]]) + Without(entries[1..], id)
  }

  function Delete(i: Instance, id: WorkloadId): Instance {
    i.(entries := Without(i.entries, id))
  }

  predicate Live(i: Instance, id: WorkloadId) {
    exists e :: e in i.entries && e.id == id
  }

  /* ---- what the operator reads back ---- */

  predicate Holds(i: Instance, name: string) {
    exists e :: e in i.entries && e.uuid == name
  }

  /** The first entry under that name, or an empty one. */
  function FindWorkloadByName(entries: seq<Entry>, name: string): (found: Entry)
    ensures (exists e :: e in entries && e.uuid == name) ==> found in entries && found.uuid == name
    ensures (forall e :: e in entries ==> e.uuid != name) ==> found == NO_ENTRY
  {
    if entries == [] then NO_ENTRY
    else if entries[0].uuid == name then entries[0]
    else FindWorkloadByName(entries[1..], name)
  }

  /** No earlier entry has the name. */
  lemma {:induction false} FindsFirst(entries: seq<Entry>, name: string)
    requires exists e :: e in entries && e.uuid == name
    ensures exists k :: 0 <= k < |entries| && entries[k].uuid == name && FindWorkloadByName(entries, name) == entries[k]
                        && forall j :: 0 <= j < k ==> entries[j].uuid != name
  {
    if entries[0].uuid != name {
      var e :| e in entries && e.uuid == name;
      assert e in entries[1..];
      FindsFirst(entries[1..], name);
      var k :| 0 <= k < |entries[1..]| && entries[1..][k].uuid == name
               && FindWorkloadByName(entries[1..], name) == entries[1..][k]
               && forall j :: 0 <= j < k ==> entries[1..][j].uuid != name;
      assert entries[k + 1] == entries[1..][k];
      assert forall j :: 0 < j < k + 1 ==> entries[j] == entries[1..][j - 1];
    }
  }

  function Find(i: Instance, name: string): Entry {
    FindWorkloadByName(i.entries, name)
  }

  /* ---- invariants of an instance ---- */

  ghost predicate EntryOk(i: Instance, e: Entry) {
    e.id.Id? && e.id.serial < |i.issued| && i.issued[e.id.serial] == e.uuid
  }

  /** Every live ID was issued to the name it is stored under, and no two entries share one. */
  ghost predicate WellFormed(i: Instance) {
    && (forall e :: e in i.entries ==> EntryOk(i, e))
    && DistinctIds(i.entries)
  }

  ghost predicate DistinctIds(entries: seq<Entry>) {
    forall j, k :: 0 <= j < k < |entries| ==> entries[j].id != entries[k].id
  }

  /** How many entries have the name. */
  function Copies(entries: seq<Entry>, name: string): nat {
    if entries == [] then 0 else (if entries[0].uuid == name then 1 else 0) + Copies(entries[1..], name)
  }

  ghost predicate UniqueNames(i: Instance) {
    forall name :: Copies(i.entries, name) <= 1
  }

  /** The entries under any other name, in order. */
  function Others(entries: seq<Entry>, name: string): (r: seq<Entry>)
    ensures forall e :: e in r <==> e in entries && e.uuid != name
  {
    if entries == [] then []
    else (if entries[0].uuid == name then [] else [entries[0]]) + Others(entries[1..], name)
  }

  /** `j` follows from `i` by requests made for `name` alone. */
  ghost predicate OnlyFor(i: Instance, j: Instance, name: string) {
    && j.shareCpuLists == i.shareCpuLists
    && i.issued <= j.issued
    && (forall k :: |i.issued| <= k < |j.issued| ==> j.issued[k] == name)
    && Others(i.entries, name) == Others(j.entries, name)
  }

  lemma {:induction false} OthersConcat(a: seq<Entry>, b: seq<Entry>, name: string)
    ensures Others(a + b, name) == Others(a, name) + Others(b, name)
  {
    if a == [] {
      assert a + b == b;
    } else {
      assert (a + b)[1..] == a[1..] + b;
      OthersConcat(a[1..], b, name);
    }
  }

  /* ---- counting copies ---- */

  lemma {:induction false} CopiesConcat(a: seq<Entry>, b: seq<Entry>, name: string)
    ensures Copies(a + b, name) == Copies(a, name) + Copies(b, name)
  {
    if a == [] {
      assert a + b == b;
    } else {
      assert (a + b)[1..] == a[1..] + b;
      CopiesConcat(a[1..], b, name);
    }
  }

  lemma {:induction false} NoCopies(entries: seq<Entry>, name: string)
    ensures Copies(entries, name) == 0 <==> forall e :: e in entries ==> e.uuid != name
  {
    if entries != [] {
      NoCopies(entries[1..], name);
    }
  }

  /** At most one copy: no two entries have the name. */
  lemma {:induction false} OneCopy(entries: seq<Entry>, name: string)
    ensures Copies(entries, name) <= 1 <==>
            forall j, k :: 0 <= j < k < |entries| && entries[j].uuid == name ==> entries[k].uuid != name
  {
    if entries != [] {
      var rest := entries[1..];
      OneCopy(rest, name);
      NoCopies(rest, name);
      assert forall k :: 0 < k < |entries| ==> entries[k] == rest[k - 1];
      assert forall k :: 0 <= k < |rest| ==> rest[k] == entries[k + 1];
    }
  }

  /** Nothing that concerns one name changes the number of copies, or the first one, of another. */
  lemma {:induction false} OthersCopies(entries: seq<Entry>, name: string, other: string)
    requires other != name
    ensures Copies(Others(entries, name), other) == Copies(entries, other)
    ensures FindWorkloadByName(Others(entries, name), other) == FindWorkloadByName(entries, other)
  {
    if entries != [] {
      OthersCopies(entries[1..], name, other);
      var rest := Others(entries[1..], name);
      assert [entries[0]] + rest != [] && ([entries[0]] + rest)[1..] == rest;
      assert Others(entries, name) == if entries[0].uuid == name then rest else [entries[0]] + rest;
    }
  }

  lemma {:induction false} PatchedCopies(entries: seq<Entry>, id: WorkloadId, config: Payload, name: string)
    ensures Copies(Patched(entries, id, config), name) == Copies(entries, name)
  {
    if entries != [] {
      PatchedCopies(entries[1..], id, config, name);
      assert Patched(entries, id, config)[1..] == Patched(entries[1..], id, config);
    }
  }

  lemma {:induction false} WithoutCopies(entries: seq<Entry>, id: WorkloadId, name: string)
    ensures Copies(Without(entries, id), name) <= Copies(entries, name)
  {
    if entries != [] {
      WithoutCopies(entries[1..], id, name);
      CopiesConcat(if entries[0].id == id then [] else [entries[0]], Without(entries[1..], id), name);
    }
  }

  lemma {:induction false} WithoutAbsent(entries: seq<Entry>, id: WorkloadId)
    requires forall e :: e in entries ==> e.id != id
    ensures Without(entries, id) == entries
  {
    if entries != [] {
      WithoutAbsent(entries[1..], id);
    }
  }

  lemma {:induction false} WithoutFound(entries: seq<Entry>, name: string)
    requires DistinctIds(entries) && exists e :: e in entries && e.uuid == name
    ensures Copies(Without(entries, FindWorkloadByName(entries, name).id), name) == Copies(entries, name) - 1
  {
    var found, rest := FindWorkloadByName(entries, name), entries[1..];
    assert forall k :: 0 <= k < |rest| ==> rest[k] == entries[k + 1];
    if entries[0].uuid == name {
      WithoutAbsent(rest, found.id);
      assert [] + rest == rest;
    } else {
      WithoutFound(rest, name);
      assert found in rest && Without(entries, found.id) == [entries[0]] + Without(rest, found.id);
      CopiesConcat([entries[0]], Without(rest, found.id), name);
    }
  }

  /** Deleting the workload found under a name removes one copy; so it is gone exactly when it was the only one. */
  lemma DeleteFound(i: Instance, name: string)
    requires WellFormed(i) && Holds(i, name)
    ensures Copies(Delete(i, Find(i, name).id).entries, name) == Copies(i.entries, name) - 1
    ensures Holds(Delete(i, Find(i, name).id), name) <==> Copies(i.entries, name) > 1
  {
    WithoutFound(i.entries, name);
    NoCopies(Delete(i, Find(i, name).id).entries, name);
  }

  /* ---- what each request keeps ---- */

  lemma PostKeeps(i: Instance, name: string, config: Payload)
    requires WellFormed(i)
    ensures WellFormed(Post(i, name, config)) && OnlyFor(i, Post(i, name, config), name)
    ensures Holds(Post(i, name, config), name)
    ensures Copies(Post(i, name, config).entries, name) == Copies(i.entries, name) + 1
  {
    var e := Entry(Id(|i.issued|), name, config);
    OthersConcat(i.entries, [e], name);
    CopiesConcat(i.entries, [e], name);
    assert Others([e], name) == [];
    assert e in Post(i, name, config).entries;
    forall f | f in Post(i, name, config).entries
      ensures EntryOk(Post(i, name, config), f)
    {
      assert f == e || EntryOk(i, f);
    }
    forall k | 0 <= k < |i.entries|
      ensures i.entries[k].id != e.id
    {
      assert EntryOk(i, i.entries[k]);
    }
  }

  lemma {:induction false} PatchedOthers(entries: seq<Entry>, id: WorkloadId, config: Payload, name: string)
    requires forall e :: e in entries && e.id == id ==> e.uuid == name
    ensures Others(Patched(entries, id, config), name) == Others(entries, name)
  {
    if entries != [] {
      assert entries[0] in entries;
      assert forall e :: e in entries[1..] ==> e in entries;
      PatchedOthers(entries[1..], id, config, name);
      assert Patched(entries, id, config)[1..] == Patched(entries[1..], id, config);
    }
  }

  /** `id` is absent, or was issued to `name`: then a request that uses it concerns `name` alone. */
  ghost predicate IssuedTo(i: Instance, id: WorkloadId, name: string) {
    id.Id? ==> id.serial < |i.issued| && i.issued[id.serial] == name
  }

  lemma PatchHolds(i: Instance, id: WorkloadId, config: Payload, name: string)
    ensures Holds(Patch(i, id, config), name) <==> Holds(i, name)
  {
  }

  lemma PatchWellFormed(i: Instance, id: WorkloadId, config: Payload)
    requires WellFormed(i)
    ensures WellFormed(Patch(i, id, config))
  {
    var j := Patch(i, id, config);
    forall e | e in j.entries
      ensures EntryOk(j, e)
    {
      var k :| 0 <= k < |j.entries| && j.entries[k] == e;
      assert EntryOk(i, i.entries[k]);
    }
  }

  lemma IssuedToEntry(i: Instance, id: WorkloadId, name: string)
    requires WellFormed(i) && IssuedTo(i, id, name)
    ensures forall e :: e in i.entries && e.id == id ==> e.uuid == name
  {
  }

  lemma PatchKeeps(i: Instance, id: WorkloadId, config: Payload, name: string)
    requires WellFormed(i) && IssuedTo(i, id, name)
    ensures WellFormed(Patch(i, id, config)) && OnlyFor(i, Patch(i, id, config), name)
    ensures Copies(Patch(i, id, config).entries, name) == Copies(i.entries, name)
  {
    PatchWellFormed(i, id, config);
    PatchedCopies(i.entries, id, config, name);
    IssuedToEntry(i, id, name);
    PatchedOthers(i.entries, id, config, name);
  }

  lemma {:induction false} WithoutOthers(entries: seq<Entry>, id: WorkloadId, name: string)
    requires forall e :: e in entries && e.id == id ==> e.uuid == name
    ensures Others(Without(entries, id), name) == Others(entries, name)
  {
    if entries != [] {
      assert entries[0] in entries;
      assert forall e :: e in entries[1..] ==> e in entries;
      WithoutOthers(entries[1..], id, name);
      OthersConcat(if entries[0].id == id then [] else [entries[0]], Without(entries[1..], id), name);
    }
  }

  lemma WithoutIndex(entries: seq<Entry>, id: WorkloadId, e: Entry)
    requires entries != [] && e in Without(entries[1..], id)
    ensures exists k :: 0 < k < |entries| && entries[k] == e
  {
  }

  lemma {:induction false} WithoutDistinctIds(entries: seq<Entry>, id: WorkloadId)
    requires DistinctIds(entries)
    ensures DistinctIds(Without(entries, id))
  {
    if entries != [] {
      WithoutDistinctIds(entries[1..], id);
      forall e | e in Without(entries[1..], id)
        ensures e.id != entries[0].id
      {
        WithoutIndex(entries, id, e);
      }
    }
  }

  lemma DeleteWellFormed(i: Instance, id: WorkloadId)
    requires WellFormed(i)
    ensures WellFormed(Delete(i, id))
  {
    WithoutDistinctIds(i.entries, id);
    forall e | e in Delete(i, id).entries
      ensures EntryOk(Delete(i, id), e)
    {
      assert EntryOk(i, e);
    }
  }

  lemma DeleteKeeps(i: Instance, id: WorkloadId, name: string)
    requires WellFormed(i) && IssuedTo(i, id, name)
    ensures WellFormed(Delete(i, id)) && OnlyFor(i, Delete(i, id), name)
    ensures Copies(Delete(i, id).entries, name) <= Copies(i.entries, name)
  {
    DeleteWellFormed(i, id);
    WithoutCopies(i.entries, id, name);
    IssuedToEntry(i, id, name);
    WithoutOthers(i.entries, id, name);
  }

  /* ---- what is found after a request ---- */

  lemma FindPosted(entries: seq<Entry>, e: Entry)
    requires forall f :: f in entries ==> f.uuid != e.uuid
    ensures FindWorkloadByName(entries + [e], e.uuid) == e
  {
  }

  lemma {:induction false} FindPatched(entries: seq<Entry>, id: WorkloadId, config: Payload, name: string)
    requires exists e :: e in entries && e.uuid == name
    ensures var found := FindWorkloadByName(entries, name);
            FindWorkloadByName(Patched(entries, id, config), name) ==
            if found.id == id then found.(config := config) else found
  {
    if entries[0].uuid != name {
      var e :| e in entries && e.uuid == name;
      assert e in entries[1..];
      FindPatched(entries[1..], id, config, name);
      assert Patched(entries, id, config)[1..] == Patched(entries[1..], id, config);
    }
  }

  /** Patching a workload with the configuration it has changes nothing. */
  lemma PatchIdentity(i: Instance, e: Entry)
    requires WellFormed(i) && e in i.entries
    ensures Patch(i, e.id, e.config) == i
  {
  }
}

/**
 The deletes of a pass under every tape of faults: those at nodes that are no longer wanted, and those for
 an object that was deleted.
 */
module DeletesUnderFaults {
  import opened Basics
  import opened RmdServer
  import opened Passes
  import opened UnderFaults

  /** One entry is gone, and the others stay in order. */
  ghost predicate EntryGone(i: Instance, j: Instance, id: WorkloadId) {
    && j.issued == i.issued && j.shareCpuLists == i.shareCpuLists
    && (!HasId(i, id) ==> j.entries == i.entries)
    && forall k :: 0 <= k < |i.entries| && i.entries[k].id == id ==> j.entries == i.entries[..k] + i.entries[k + 1..]
  }

  /** A DELETE takes effect unless it is refused, also when its answer is lost. */
  ghost predicate DeletedUnder(w: World, w': World, address: string, id: WorkloadId, k: nat) {
    if address !in w.rmd || FaultAt(w, k) == Before then w'.rmd == w.rmd
    else OnlyAt(w.rmd, w'.rmd, address) && EntryGone(w.rmd[address], w'.rmd[address], id)
  }

  ghost predicate DeleteSucceeds(w: World, address: string, id: WorkloadId, k: nat) {
    address in w.rmd && FaultAt(w, k) == NoFault && HasId(w.rmd[address], id)
  }

  lemma CutLater<T>(s: seq<T>, k: nat)
    requires 0 < k < |s|
    ensures [s[0]] + (s[1..][..k - 1] + s[1..][k..]) == s[..k] + s[k + 1..]
  {
  }

  lemma {:induction false} WithoutOne(entries: seq<Entry>, id: WorkloadId, k: nat)
    requires DistinctIds(entries) && k < |entries| && entries[k].id == id
    ensures Without(entries, id) == entries[..k] + entries[k + 1..]
  {
    var rest := entries[1..];
    if k == 0 {
      WithoutAbsent(rest, id);
      assert entries[..0] + rest == rest && [] + rest == rest;
    } else {
      WithoutOne(rest, id, k - 1);
      CutLater(entries, k);
    }
  }

  lemma DeleteIsGone(i: Instance, id: WorkloadId)
    requires WellFormed(i)
    ensures EntryGone(i, Delete(i, id), id)
  {
    if !HasId(i, id) {
      WithoutAbsent(i.entries, id);
    }
    forall k | 0 <= k < |i.entries| && i.entries[k].id == id
      ensures Delete(i, id).entries == i.entries[..k] + i.entries[k + 1..]
    {
      WithoutOne(i.entries, id, k);
    }
  }

  ghost predicate AllWellFormed(w: World) {
    forall a :: a in w.rmd ==> WellFormed(w.rmd[a])
  }

  lemma DeleteExactly(w: World, address: string, id: WorkloadId)
    requires AllWellFormed(w)
    ensures var (w', ok) := DeleteWorkload(w, address, id);
            && w' == w.(rmd := w'.rmd, faults := FaultsFrom(w, 1)) && AllWellFormed(w')
            && DeletedUnder(w, w', address, id, 0) && (ok <==> DeleteSucceeds(w, address, id, 0))
  {
    OneSpent(w);
    if address in w.rmd {
      DeleteIsGone(w.rmd[address], id);
      DeleteWellFormed(w.rmd[address], id);
      assert Live(w.rmd[address], id) <==> HasId(w.rmd[address], id);
    }
  }

  lemma StaysWellFormed(w: World, address: string, id: WorkloadId)
    requires AllWellFormed(w)
    ensures AllWellFormed(DeleteWorkload(w, address, id).0)
  {
    DeleteExactly(w, address, id);
  }

  /** A workload to delete. */
  datatype Doomed = Doomed(address: string, id: WorkloadId)

  ghost predicate DistinctDoomed(doomed: seq<Doomed>) {
    forall i, j :: 0 <= i < j < |doomed| ==> doomed[i].address != doomed[j].address
  }

  /**
   What is left when the first `m` deletes succeed and the one after them, if any, fails: it and its
   answer decide about its own instance, and no later one is made.
   */
  ghost predicate DeletedUntil(w: World, w': World, doomed: seq<Doomed>, m: nat) {
    && m <= |doomed| && w' == w.(rmd := w'.rmd, faults := FaultsFrom(w, if m < |doomed| then m + 1 else m))
    && w'.rmd.Keys == w.rmd.Keys
    && (forall i :: 0 <= i < m ==> SucceedsAt(w, doomed, i))
    && (m < |doomed| ==> !SucceedsAt(w, doomed, m))
    && (forall i :: 0 <= i < |doomed| ==> DoomedAt(w, w', doomed, m, i))
    && (forall a :: a in w.rmd && (forall i :: 0 <= i < |doomed| ==> doomed[i].address != a) ==> w'.rmd[a] == w.rmd[a])
  }

  ghost predicate SucceedsAt(w: World, doomed: seq<Doomed>, i: nat)
    requires i < |doomed|
  {
    DeleteSucceeds(w, doomed[i].address, doomed[i].id, i)
  }

  ghost predicate DoomedAt(w: World, w': World, doomed: seq<Doomed>, m: nat, i: nat)
    requires i < |doomed|
  {
    var a := doomed[i].address;
    a in w.rmd ==>
      && a in w'.rmd
      && if i < m || (i == m && FaultAt(w, m) != Before) then EntryGone(w.rmd[a], w'.rmd[a], doomed[i].id)
         else w'.rmd[a] == w.rmd[a]
  }

  lemma SucceedsLater(w: World, w1: World, doomed: seq<Doomed>, i: nat)
    requires 0 < i < |doomed| && DistinctDoomed(doomed) && w1 == w.(rmd := w1.rmd, faults := FaultsFrom(w, 1))
    requires DeletedUnder(w, w1, doomed[0].address, doomed[0].id, 0)
    ensures SucceedsAt(w1, doomed[1..], i - 1) <==> SucceedsAt(w, doomed, i)
  {
    FaultsLater(w, w1, 1);
    assert doomed[1..][i - 1] == doomed[i] && doomed[i].address != doomed[0].address;
  }

  lemma DoomedLater(w: World, w1: World, w': World, doomed: seq<Doomed>, m: nat, i: nat)
    requires i < |doomed| && DistinctDoomed(doomed) && w1 == w.(rmd := w1.rmd, faults := FaultsFrom(w, 1))
    requires DeletedUnder(w, w1, doomed[0].address, doomed[0].id, 0)
    requires DeleteSucceeds(w, doomed[0].address, doomed[0].id, 0)
    requires DeletedUntil(w1, w', doomed[1..], m)
    ensures DoomedAt(w, w', doomed, m + 1, i)
  {
    var rest := doomed[1..];
    FaultsLater(w, w1, 1);
    if i > 0 {
      assert rest[i - 1] == doomed[i] && DoomedAt(w1, w', rest, m, i - 1);
    } else {
      assert forall j :: 0 <= j < |rest| ==> rest[j] == doomed[j + 1];
    }
  }

  lemma DeletedFirst(w: World, w1: World, w': World, doomed: seq<Doomed>, m: nat)
    requires doomed != [] && DistinctDoomed(doomed) && w1 == w.(rmd := w1.rmd, faults := FaultsFrom(w, 1))
    requires DeletedUnder(w, w1, doomed[0].address, doomed[0].id, 0)
    requires DeleteSucceeds(w, doomed[0].address, doomed[0].id, 0)
    requires DeletedUntil(w1, w', doomed[1..], m)
    ensures DeletedUntil(w, w', doomed, m + 1)
  {
    var rest, n := doomed[1..], m + 1;
    FaultsLater(w, w1, 1);
    forall i | 0 <= i < n
      ensures SucceedsAt(w, doomed, i)
    {
      if i > 0 {
        SucceedsLater(w, w1, doomed, i);
      }
    }
    if m < |rest| {
      SucceedsLater(w, w1, doomed, m + 1);
    }
    forall i | 0 <= i < |doomed|
      ensures DoomedAt(w, w', doomed, n, i)
    {
      DoomedLater(w, w1, w', doomed, m, i);
    }
    forall a | a in w.rmd && (forall i :: 0 <= i < |doomed| ==> doomed[i].address != a)
      ensures w'.rmd[a] == w.rmd[a]
    {
      assert forall j :: 0 <= j < |rest| ==> rest[j] == doomed[j + 1];
    }
  }

  lemma FirstFails(w: World, w1: World, doomed: seq<Doomed>, m: nat)
    requires m == 0 && doomed != [] && DistinctDoomed(doomed) && w1 == w.(rmd := w1.rmd, faults := FaultsFrom(w, 1))
    requires DeletedUnder(w, w1, doomed[0].address, doomed[0].id, 0)
    requires !DeleteSucceeds(w, doomed[0].address, doomed[0].id, 0)
    ensures DeletedUntil(w, w1, doomed, m)
  {
    forall i | 0 <= i < |doomed|
      ensures DoomedAt(w, w1, doomed, m, i)
    {
      assert i > 0 ==> doomed[i].address != doomed[0].address;
    }
  }

  /** `w1` is where the deletes of the removals end; the status is stored after that, if all of them succeeded. */
  ghost predicate RemovedUntil(w: World, w1: World, s: Synced, name: string, states: States, removals: seq<Removal>,
                               m: nat)
  {
    && DeletedUntil(w, w1, ToDelete(removals), m)
    && s.states == states - (set r | r in removals[..m] :: r.node)
    && if m < |removals| then s.world == w1 && !s.ok
       else
         && s.world == w1.(objects := s.world.objects, faults := FaultsFrom(w, m + 1))
         && StoredUnder(w, s.world, name, s.states, m) && (s.ok <==> StoreSucceeds(w, name, m))
  }

  lemma StatesFirst(states: States, removals: seq<Removal>, m: nat)
    requires removals != [] && m < |removals|
    ensures states - {removals[0].node} - (set r | r in removals[1..][..m] :: r.node) ==
            states - (set r | r in removals[..m + 1] :: r.node)
  {
    assert removals[..m + 1] == [removals[0]] + removals[1..][..m];
  }

  lemma DoomedFirst(w: World, v: World, w1: World, removals: seq<Removal>, m: nat)
    requires removals != [] && DistinctDoomed(ToDelete(removals)) && v == w.(rmd := v.rmd, faults := FaultsFrom(w, 1))
    requires DeletedUnder(w, v, removals[0].address, removals[0].id, 0)
    requires DeleteSucceeds(w, removals[0].address, removals[0].id, 0)
    requires DeletedUntil(v, w1, ToDelete(removals[1..]), m)
    ensures DeletedUntil(w, w1, ToDelete(removals), m + 1)
  {
    assert ToDelete(removals)[1..] == ToDelete(removals[1..]);
    DeletedFirst(w, v, w1, ToDelete(removals), m);
  }

  lemma RemovedFirst(w: World, v: World, w1: World, s: Synced, name: string, states: States, removals: seq<Removal>,
                     m: nat)
    requires removals != [] && v == w.(rmd := v.rmd, faults := FaultsFrom(w, 1))
    requires RemovedUntil(v, w1, s, name, states - {removals[0].node}, removals[1..], m)
    requires DeletedUntil(w, w1, ToDelete(removals), m + 1)
    ensures RemovedUntil(w, w1, s, name, states, removals, m + 1)
  {
    StatesFirst(states, removals, m);
    FaultsLater(w, v, 1);
    if m == |removals[1..]| {
      StoredLater(w, v, s.world, name, s.states, 1, m);
    }
  }

  lemma NoneToRemove(w: World, name: string, states: States)
    ensures RemovedUntil(w, w, RemoveWorkload(w, name, states, []), name, states, [], 0)
  {
    assert w.faults == FaultsFrom(w, 0);
    StoreExactly(w, name, states);
    assert states - {} == states;
  }

  lemma RemovalGoesOn(w: World, v: World, w1: World, s: Synced, name: string, states: States, removals: seq<Removal>,
                      m: nat)
    requires AllWellFormed(w) && removals != [] && DistinctDoomed(ToDelete(removals))
    requires DeleteWorkload(w, removals[0].address, removals[0].id) == (v, true)
    requires RemovedUntil(v, w1, s, name, states - {removals[0].node}, removals[1..], m)
    ensures RemovedUntil(w, w1, s, name, states, removals, m + 1)
  {
    DeleteExactly(w, removals[0].address, removals[0].id);
    DoomedFirst(w, v, w1, removals, m);
    RemovedFirst(w, v, w1, s, name, states, removals, m);
  }

  lemma RemovalFails(w: World, v: World, name: string, states: States, removals: seq<Removal>)
    requires AllWellFormed(w) && removals != [] && DistinctDoomed(ToDelete(removals))
    requires DeleteWorkload(w, removals[0].address, removals[0].id) == (v, false)
    ensures RemovedUntil(w, v, Synced(v, states, false), name, states, removals, 0)
  {
    DeleteExactly(w, removals[0].address, removals[0].id);
    FirstFails(w, v, ToDelete(removals), 0);
    assert states - {} == states;
  }

  lemma DistinctRest(removals: seq<Removal>)
    requires removals != [] && DistinctDoomed(ToDelete(removals))
    ensures DistinctDoomed(ToDelete(removals[1..]))
  {
    assert ToDelete(removals)[1..] == ToDelete(removals[1..]);
  }

  /** The removals of a pass: once a delete fails the pass ends, nothing later is deleted and no status is stored. */
  lemma {:induction false} RemovalsExactly(w: World, name: string, states: States, removals: seq<Removal>)
    returns (m: nat, w1: World)
    requires AllWellFormed(w) && DistinctDoomed(ToDelete(removals))
    ensures RemovedUntil(w, w1, RemoveWorkload(w, name, states, removals), name, states, removals, m)
    decreases |removals|
  {
    m, w1 := 0, w;
    if removals == [] {
      NoneToRemove(w, name, states);
    } else {
      var (v, ok) := DeleteWorkload(w, removals[0].address, removals[0].id);
      if ok {
        StaysWellFormed(w, removals[0].address, removals[0].id);
        DistinctRest(removals);
        m, w1 := RemovalsExactly(v, name, states - {removals[0].node}, removals[1..]);
        RemovalGoesOn(w, v, w1, RemoveWorkload(w, name, states, removals), name, states, removals, m);
        m := m + 1;
      } else {
        w1 := v;
        RemovalFails(w, v, name, states, removals);
      }
    }
  }

  function ToDelete(removals: seq<Removal>): (doomed: seq<Doomed>)
    ensures |doomed| == |removals|
    ensures forall i :: 0 <= i < |doomed| ==> doomed[i] == Doomed(removals[i].address, removals[i].id)
  {
    seq(|removals|, i requires 0 <= i < |removals| => Doomed(removals[i].address, removals[i].id))
  }

  function ObsoleteToDelete(obsolete: map<string, WorkloadId>, order: seq<string>): (doomed: seq<Doomed>)
    requires forall a :: a in order ==> a in obsolete
    ensures |doomed| == |order|
    ensures forall i :: 0 <= i < |doomed| ==> doomed[i] == Doomed(order[i], obsolete[order[i]])
  {
    seq(|order|, i requires 0 <= i < |order| => Doomed(order[i], obsolete[order[i]]))
  }

  lemma ObsoleteFirst(w: World, v: World, w1: World, obsolete: map<string, WorkloadId>, order: seq<string>, m: nat)
    requires order != [] && NoDuplicates(order) && forall a :: a in order ==> a in obsolete
    requires v == w.(rmd := v.rmd, faults := FaultsFrom(w, 1))
    requires DeletedUnder(w, v, order[0], obsolete[order[0]], 0)
    requires DeleteSucceeds(w, order[0], obsolete[order[0]], 0)
    requires DeletedUntil(v, w1, ObsoleteToDelete(obsolete, order[1..]), m)
    ensures DeletedUntil(w, w1, ObsoleteToDelete(obsolete, order), m + 1)
  {
    assert ObsoleteToDelete(obsolete, order)[1..] == ObsoleteToDelete(obsolete, order[1..]);
    DeletedFirst(w, v, w1, ObsoleteToDelete(obsolete, order), m);
  }

  ghost predicate OrderOf(obsolete: map<string, WorkloadId>, order: seq<string>) {
    NoDuplicates(order) && forall a :: a in order ==> a in obsolete
  }

  /** The deletes lead to what `m` that succeed leave, and to a failure unless these are all. */
  ghost predicate ObsoleteUntil(w: World, obsolete: map<string, WorkloadId>, order: seq<string>, m: nat)
    requires OrderOf(obsolete, order)
  {
    var (w', ok) := DeleteObsolete(w, obsolete, order);
    DeletedUntil(w, w', ObsoleteToDelete(obsolete, order), m) && (ok <==> m == |order|)
  }

  lemma OrderRest(obsolete: map<string, WorkloadId>, order: seq<string>)
    requires order != [] && OrderOf(obsolete, order)
    ensures OrderOf(obsolete, order[1..])
  {
  }

  lemma ObsoleteGoesOn(w: World, obsolete: map<string, WorkloadId>, order: seq<string>, m: nat)
    requires AllWellFormed(w) && order != [] && OrderOf(obsolete, order) && OrderOf(obsolete, order[1..])
    requires DeleteWorkload(w, order[0], obsolete[order[0]]).1
    requires ObsoleteUntil(DeleteWorkload(w, order[0], obsolete[order[0]]).0, obsolete, order[1..], m)
    ensures ObsoleteUntil(w, obsolete, order, m + 1)
  {
    var v := DeleteWorkload(w, order[0], obsolete[order[0]]).0;
    DeleteExactly(w, order[0], obsolete[order[0]]);
    ObsoleteFirst(w, v, DeleteObsolete(v, obsolete, order[1..]).0, obsolete, order, m);
  }

  lemma ObsoleteFails(w: World, obsolete: map<string, WorkloadId>, order: seq<string>)
    requires AllWellFormed(w) && order != [] && OrderOf(obsolete, order)
    requires !DeleteWorkload(w, order[0], obsolete[order[0]]).1
    ensures ObsoleteUntil(w, obsolete, order, 0)
  {
    DeleteExactly(w, order[0], obsolete[order[0]]);
    FirstFails(w, DeleteWorkload(w, order[0], obsolete[order[0]]).0, ObsoleteToDelete(obsolete, order), 0);
  }

  lemma NoneObsolete(w: World, obsolete: map<string, WorkloadId>)
    ensures ObsoleteUntil(w, obsolete, [], 0)
  {
    assert w.faults == FaultsFrom(w, 0);
  }

  /** The deletes for a deleted object: likewise, the first that fails ends the pass. */
  lemma {:induction false} ObsoleteExactly(w: World, obsolete: map<string, WorkloadId>, order: seq<string>)
    returns (m: nat)
    requires AllWellFormed(w) && OrderOf(obsolete, order)
    ensures ObsoleteUntil(w, obsolete, order, m)
    decreases |order|
  {
    if order == [] {
      m := 0;
      NoneObsolete(w, obsolete);
    } else if DeleteWorkload(w, order[0], obsolete[order[0]]).1 {
      OrderRest(obsolete, order);
      StaysWellFormed(w, order[0], obsolete[order[0]]);
      var k := ObsoleteExactly(DeleteWorkload(w, order[0], obsolete[order[0]]).0, obsolete, order[1..]);
      ObsoleteGoesOn(w, obsolete, order, k);
      m := k + 1;
    } else {
      m := 0;
      ObsoleteFails(w, obsolete, order);
    }
  }
}

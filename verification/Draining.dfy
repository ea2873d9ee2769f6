/**
 Second copies of a workload, which an object leaves behind when it listed a node more than once: a
 clean pass deletes one of them at each unwanted node.
 */
module Draining {
  import opened RmdServer
  import opened Passes
  import opened CleanPass
  import opened Runs
  import opened Safety
  import opened RmdClient
  import opened Convergence

  /** An unwanted node is still unwanted after `k` passes exactly when it held more copies than that. */
  ghost predicate DrainedAt(w: World, w': World, name: string, spec: Spec, k: nat, n: string) {
    && (Unwanted(w', name, spec, n) ==> Unwanted(w, name, spec, n))
    && (Unwanted(w, name, spec, n) ==>
          var a := w.env.addresses[n];
          && a in w'.rmd
          && (Unwanted(w', name, spec, n) <==> Copies(w.rmd[a].entries, name) > k)
          && (Unwanted(w', name, spec, n) ==> Copies(w'.rmd[a].entries, name) == Copies(w.rmd[a].entries, name) - k))
  }

  ghost predicate Drained(w: World, w': World, name: string, k: nat) {
    && w'.env == w.env && name in w.objects && name in w'.objects && w'.objects[name].spec == w.objects[name].spec
    && forall n :: DrainedAt(w, w', name, w.objects[name].spec, k, n)
  }

  lemma NothingDrained(w: World, name: string)
    requires name in w.objects
    ensures Drained(w, w, name, 0)
  {
    var spec := w.objects[name].spec;
    forall n
      ensures DrainedAt(w, w, name, spec, 0, n)
    {
      if Unwanted(w, name, spec, n) {
        NoCopies(w.rmd[w.env.addresses[n]].entries, name);
      }
    }
  }

  lemma DrainStep(w: World, v: World, p: Pass, name: string, k: nat)
    requires Drained(w, v, name, k) && Orderly(v, name) && Ready(v, name) && CleanOutcome(v, p, name)
    ensures Drained(w, p.world, name, k + 1)
  {
    var spec, next := w.objects[name].spec, k + 1;
    forall n
      ensures DrainedAt(w, p.world, name, spec, next, n)
    {
      assert DrainedAt(w, v, name, spec, k, n);
      OutcomeUnwanted(v, p, name, n);
    }
  }

  /** What a series of clean passes starts from, and keeps. */
  ghost predicate Startable(home: map<string, string>, w: World, name: string) {
    Good(home, w) && Clean(w) && Ready(w, name) && ListsOnce(w, name)
  }

  lemma CleanStep(home: map<string, string>, w: World, v: World, v': World, name: string, k: nat)
    requires Startable(home, v, name) && PassOf(v, v', name) && Drained(w, v, name, k)
    ensures Startable(home, v', name) && Drained(w, v', name, k + 1)
    ensures Placed(v', name) <==> NoSpares(v, name)
  {
    var order :| PassStep(v, v', name, order);
    OnePassPlaces(home, v, name, order);
    GoodIsOrderly(home, v, name);
    DrainStep(w, v, Reconcile(v, name, order), name, k);
  }

  /** The last of some clean passes for one object, made one after the other. */
  ghost predicate CleanPasses(ws: seq<World>, name: string) {
    |ws| > 1 ==> PassOf(ws[|ws| - 2], ws[|ws| - 1], name) && CleanPasses(ws[..|ws| - 1], name)
  }

  lemma {:induction false} CopiesDrain(home: map<string, string>, ws: seq<World>, name: string)
    requires ws != [] && Startable(home, ws[0], name) && CleanPasses(ws, name)
    ensures Startable(home, ws[|ws| - 1], name) && Drained(ws[0], ws[|ws| - 1], name, |ws| - 1)
    decreases |ws|
  {
    var k := |ws| - 1;
    if k == 0 {
      NothingDrained(ws[0], name);
    } else {
      CopiesDrain(home, ws[..k], name);
      CleanStep(home, ws[0], ws[k - 1], ws[k], name, k - 1);
    }
  }

  lemma PlacedWhenDrained(w: World, v: World, name: string, k: nat)
    requires Drained(w, v, name, k)
    ensures NoSpares(v, name) <==>
            forall n :: Unwanted(w, name, w.objects[name].spec, n) ==>
              Copies(w.rmd[w.env.addresses[n]].entries, name) <= k + 1
  {
    var spec := w.objects[name].spec;
    forall n
      ensures (Unwanted(v, name, spec, n) ==> Copies(v.rmd[v.env.addresses[n]].entries, name) <= 1) <==>
              (Unwanted(w, name, spec, n) ==> Copies(w.rmd[w.env.addresses[n]].entries, name) <= k + 1)
    {
      assert DrainedAt(w, v, name, spec, k, n);
    }
  }

  lemma LastPass(home: map<string, string>, w: World, v: World, v': World, name: string, k: nat)
    requires Startable(home, v, name) && PassOf(v, v', name) && Drained(w, v, name, k)
    ensures Placed(v', name) <==>
            forall n :: Unwanted(w, name, w.objects[name].spec, n) ==>
              Copies(w.rmd[w.env.addresses[n]].entries, name) <= k + 1
  {
    CleanStep(home, w, v, v', name, k);
    PlacedWhenDrained(w, v, name, k);
  }

  /** After `k` clean passes the workload is placed if and only if no unwanted node held more than `k` copies. */
  lemma PlacedAfterExactly(home: map<string, string>, ws: seq<World>, name: string, k: nat)
    requires k > 0 && |ws| == k + 1 && Startable(home, ws[0], name) && CleanPasses(ws, name)
    ensures Placed(ws[k], name) <==>
            forall n :: Unwanted(ws[0], name, ws[0].objects[name].spec, n) ==>
              Copies(ws[0].rmd[ws[0].env.addresses[n]].entries, name) <= k
  {
    CopiesDrain(home, ws[..k], name);
    LastPass(home, ws[0], ws[k - 1], ws[k], name, k - 1);
  }
}

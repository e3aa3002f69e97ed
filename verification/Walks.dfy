/**
 Walks in a directed graph given by its set of edges, and shortest distances.
 Shared by the two breadth-first searches (the flow network's and the tree's).
 */
module Walks {

  type Edges = set<(int, int)>

  /** The i-th step of a walk. */
  ghost function Hop(w: seq<int>, i: nat): (int, int)
    requires i + 1 < |w|
  {
    (w[i], w[i + 1])
  }

  ghost predicate IsWalk(es: Edges, w: seq<int>) {
    |w| >= 1 && forall i: nat :: i + 1 < |w| ==> Hop(w, i) in es
  }

  ghost predicate Joins(es: Edges, s: int, v: int, w: seq<int>) {
    IsWalk(es, w) && w[0] == s && w[|w| - 1] == v
  }

  /** Some walk of exactly k edges leads from s to v. */
  ghost predicate Reaches(es: Edges, s: int, v: int, k: nat) {
    exists w :: Joins(es, s, v, w) && |w| == k + 1
  }

  /** d is the number of edges of a shortest walk from s to v. */
  ghost predicate IsDistance(es: Edges, s: int, v: int, d: nat) {
    Reaches(es, s, v, d) && forall k: nat :: Reaches(es, s, v, k) ==> d <= k
  }

  /** The i-th vertex of w is at distance i from s. */
  ghost predicate AtDistance(es: Edges, s: int, w: seq<int>, i: nat)
    requires i < |w|
  {
    IsDistance(es, s, w[i], i)
  }

  lemma ReachesSelf(es: Edges, s: int)
    ensures Reaches(es, s, s, 0)
  {
    assert Joins(es, s, s, [s]);
  }

  lemma ReachesNowhereElse(es: Edges, s: int, v: int)
    ensures Reaches(es, s, v, 0) ==> s == v
  {
  }

  lemma ReachesStep(es: Edges, s: int, u: int, v: int, k: nat)
    requires Reaches(es, s, u, k) && (u, v) in es
    ensures Reaches(es, s, v, k + 1)
  {
    var w :| Joins(es, s, u, w) && |w| == k + 1;
    var w' := w + [v];
    forall i: nat | i + 1 < |w'|
      ensures Hop(w', i) in es
    {
      if i + 1 < |w| {
        assert Hop(w', i) == Hop(w, i);
      }
    }
    assert Joins(es, s, v, w');
  }

  lemma LastStep(es: Edges, s: int, v: int, k: nat) returns (u: int)
    requires Reaches(es, s, v, k + 1)
    ensures Reaches(es, s, u, k) && (u, v) in es
  {
    var w :| Joins(es, s, v, w) && |w| == k + 2;
    u := w[k];
    var w' := w[..k + 1];
    forall i: nat | i + 1 < |w'|
      ensures Hop(w', i) in es
    {
      assert Hop(w', i) == Hop(w, i);
    }
    assert Joins(es, s, u, w');
    assert Hop(w, k) in es;
  }

  /** Shortest distance, cut off at n: n stands for "no walk shorter than n". */
  ghost function Dist(es: Edges, s: int, v: int, n: nat): (d: nat)
    ensures d <= n
    ensures d < n ==> Reaches(es, s, v, d)
    ensures forall k: nat :: k < d ==> !Reaches(es, s, v, k)
  {
    DistFrom(es, s, v, n, 0)
  }

  ghost function DistFrom(es: Edges, s: int, v: int, n: nat, k: nat): (d: nat)
    requires k <= n
    requires forall j: nat :: j < k ==> !Reaches(es, s, v, j)
    ensures k <= d <= n
    ensures d < n ==> Reaches(es, s, v, d)
    ensures forall j: nat :: j < d ==> !Reaches(es, s, v, j)
    decreases n - k
  {
    if k == n || Reaches(es, s, v, k) then k else DistFrom(es, s, v, n, k + 1)
  }

  lemma DistAlongEdge(es: Edges, s: int, u: int, v: int, n: nat)
    requires (u, v) in es
    ensures Dist(es, s, v, n) <= Dist(es, s, u, n) + 1
  {
    var k := Dist(es, s, u, n);
    if k < n {
      ReachesStep(es, s, u, v, k);
    }
  }

  lemma DistOfDistance(es: Edges, s: int, v: int, d: nat, n: nat)
    requires IsDistance(es, s, v, d)
    ensures Dist(es, s, v, n) == if d < n then d else n
  {
    var k := Dist(es, s, v, n);
    if k < n {
      assert d <= k;
    }
  }

  lemma {:induction false} DistBoundsWalks(es: Edges, es': Edges, s: int, v: int, n: nat, k: nat)
    requires forall e :: e in es' ==> Dist(es, s, e.1, n) <= Dist(es, s, e.0, n) + 1
    requires Reaches(es', s, v, k)
    ensures Dist(es, s, v, n) <= k
    decreases k
  {
    if k == 0 {
      var w :| Joins(es', s, v, w) && |w| == 1;
      ReachesSelf(es, s);
    } else {
      var u := LastStep(es', s, v, k - 1);
      DistBoundsWalks(es, es', s, u, n, k - 1);
      assert (u, v) in es';
    }
  }

  /** If old distances grow by at most one along every new edge, no distance falls. */
  lemma DistNeverFalls(es: Edges, es': Edges, s: int, v: int, n: nat)
    requires forall e :: e in es' ==> Dist(es, s, e.1, n) <= Dist(es, s, e.0, n) + 1
    ensures Dist(es, s, v, n) <= Dist(es', s, v, n)
  {
    var k := Dist(es', s, v, n);
    if k < n {
      DistBoundsWalks(es, es', s, v, n, k);
    }
  }

  /**
   The breadth-first argument: if everything closer than d is finished, and finished vertices
   label their successors at most one higher, then every walk of at most d edges ends in a
   vertex already labelled with at most its length.
   */
  lemma {:induction false} FinishedLevels(es: Edges, s: int, depth: map<int, nat>, done: set<int>, d: nat,
                                          v: int, k: nat)
    requires s in depth && depth[s] == 0
    requires forall e :: e in es && e.0 in done ==> e.1 in depth && (e.0 in depth ==> depth[e.1] <= depth[e.0] + 1)
    requires forall x :: x in depth && depth[x] < d ==> x in done
    requires Reaches(es, s, v, k) && k <= d
    ensures v in depth && depth[v] <= k
    decreases k
  {
    if k == 0 {
      var w :| Joins(es, s, v, w) && |w| == 1;
    } else {
      var u := LastStep(es, s, v, k - 1);
      FinishedLevels(es, s, depth, done, d, u, k - 1);
      assert (u, v) in es;
    }
  }
}

/**
 Breadth-first search over a set of edges: the tree of paths found so far, the queue of
 unfinished vertices, and the two steps that keep both right.
 */
module BreadthFirst {
  import opened Walks

  type Paths = map<int, seq<int>>

  /** Every recorded path is a walk from s to its key, and no shorter walk exists. */
  ghost predicate Shortest(es: Edges, s: int, paths: Paths) {
    && s in paths && paths[s] == [s]
    && (forall v :: v in paths ==> Joins(es, s, v, paths[v]))
    && (forall v, k: nat :: v in paths && Reaches(es, s, v, k) ==> |paths[v]| <= k + 1)
  }

  /** The unfinished vertices are queued by distance, at most one level apart. */
  ghost predicate Queued(paths: Paths, queue: seq<int>) {
    && (forall i :: 0 <= i < |queue| ==> queue[i] in paths)
    && (forall i, j :: 0 <= i <= j < |queue| ==>
          |paths[queue[i]]| <= |paths[queue[j]]| <= |paths[queue[0]]| + 1)
  }

  /** The successors of finished vertices are recorded. */
  ghost predicate Finished(es: Edges, paths: Paths, done: set<int>) {
    forall a, b :: (a, b) in es && a in done ==> a in paths && b in paths
  }

  ghost predicate InSearch(es: Edges, s: int, paths: Paths, done: set<int>, queue: seq<int>) {
    && Shortest(es, s, paths) && Queued(paths, queue) && Finished(es, paths, done)
    && forall v :: v in paths ==> v in done || v in queue
  }

  /** InSearch, hidden behind a dummy quantifier: loops that only pass it on need not unfold it. */
  ghost predicate Frontier(es: Edges, s: int, paths: Paths, done: set<int>, queue: seq<int>) {
    forall k: nat :: HiddenSearch(es, s, paths, done, queue, k)
  }

  ghost predicate HiddenSearch(es: Edges, s: int, paths: Paths, done: set<int>, queue: seq<int>, k: nat) {
    InSearch(es, s, paths, done, queue)
  }

  lemma OpenFrontier(es: Edges, s: int, paths: Paths, done: set<int>, queue: seq<int>)
    requires Frontier(es, s, paths, done, queue)
    ensures InSearch(es, s, paths, done, queue)
  {
    assert HiddenSearch(es, s, paths, done, queue, 0);
  }

  lemma FrontOfQueue(es: Edges, s: int, paths: Paths, done: set<int>, u: int, queue: seq<int>)
    requires Frontier(es, s, paths, done, [u] + queue)
    ensures u in paths
  {
    OpenFrontier(es, s, paths, done, [u] + queue);
    assert ([u] + queue)[0] == u;
  }

  lemma Start(es: Edges, s: int)
    ensures Frontier(es, s, map[s := [s]], {}, [s])
  {
    assert Joins(es, s, s, [s]);
    assert InSearch(es, s, map[s := [s]], {}, [s]);
  }

  /** An edge leads at most one level further away. */
  lemma EdgeLevel(es: Edges, s: int, paths: Paths, u: int, v: int)
    requires Shortest(es, s, paths) && u in paths && v in paths && (u, v) in es
    ensures |paths[v]| <= |paths[u]| + 1
  {
    assert Joins(es, s, u, paths[u]);
    ReachesStep(es, s, u, v, |paths[u]| - 1);
  }

  lemma NoShorterWalk(es: Edges, s: int, paths: Paths, done: set<int>, queue: seq<int>, v: int, k: nat)
    requires InSearch(es, s, paths, done, queue) && |queue| > 0
    requires v !in paths && Reaches(es, s, v, k)
    ensures |paths[queue[0]]| <= k
  {
    var d := |paths[queue[0]]| - 1;
    if k <= d {
      var depth := map x | x in paths :: (if |paths[x]| > 0 then |paths[x]| - 1 else 0);
      forall x | x in paths && depth[x] < d
        ensures x in done
      {
      }
      forall e | e in es && e.0 in done
        ensures e.1 in depth && (e.0 in depth ==> depth[e.1] <= depth[e.0] + 1)
      {
        var (a, b) := e;
        assert (a, b) in es;
        EdgeLevel(es, s, paths, a, b);
      }
      FinishedLevels(es, s, depth, done, d, v, k);
    }
  }

  lemma ExtendWalk(es: Edges, s: int, u: int, v: int, w: seq<int>)
    requires Joins(es, s, u, w) && (u, v) in es
    ensures Joins(es, s, v, w + [v])
  {
    var w' := w + [v];
    forall i: nat | i + 1 < |w'|
      ensures Hop(w', i) in es
    {
      if i + 1 < |w| {
        assert Hop(w', i) == Hop(w, i);
      }
    }
  }

  /** Recording a new successor of the queue's first vertex, at the end of the queue. */
  lemma Discover(es: Edges, s: int, paths: Paths, done: set<int>, queue: seq<int>, v: int)
    requires InSearch(es, s, paths, done, queue) && |queue| > 0
    requires (queue[0], v) in es && v !in paths
    ensures InSearch(es, s, paths[v := paths[queue[0]] + [v]], done, queue + [v])
  {
    var u := queue[0];
    var paths' := paths[v := paths[u] + [v]];
    ExtendWalk(es, s, u, v, paths[u]);
    forall x, k: nat | x in paths' && Reaches(es, s, x, k)
      ensures |paths'[x]| <= k + 1
    {
      if x == v {
        NoShorterWalk(es, s, paths, done, queue, v, k);
      }
    }
    var queue' := queue + [v];
    assert queue'[|queue|] == v;
    forall x | x in paths'
      ensures x in done || x in queue'
    {
    }
  }

  /** Finishing the queue's first vertex once all its successors are recorded. */
  lemma Finish(es: Edges, s: int, paths: Paths, done: set<int>, queue: seq<int>)
    requires InSearch(es, s, paths, done, queue) && |queue| > 0
    requires forall b :: (queue[0], b) in es ==> b in paths
    ensures InSearch(es, s, paths, done + {queue[0]}, queue[1..])
  {
    var rest := queue[1..];
    forall x | x in paths
      ensures x in done + {queue[0]} || x in rest
    {
      if x !in done && x != queue[0] {
        var i :| 0 <= i < |queue| && queue[i] == x;
        assert rest[i - 1] == x;
      }
    }
  }

  /** The same two steps with the front of the queue named. */
  lemma DiscoverFrom(es: Edges, s: int, paths: Paths, done: set<int>, u: int, queue: seq<int>, v: int)
    requires Frontier(es, s, paths, done, [u] + queue) && (u, v) in es && v !in paths
    ensures u in paths && Frontier(es, s, paths[v := paths[u] + [v]], done, [u] + (queue + [v]))
  {
    FrontOfQueue(es, s, paths, done, u, queue);
    OpenFrontier(es, s, paths, done, [u] + queue);
    Discover(es, s, paths, done, [u] + queue, v);
    assert [u] + queue + [v] == [u] + (queue + [v]);
  }

  lemma FinishFrom(es: Edges, s: int, paths: Paths, done: set<int>, u: int, queue: seq<int>)
    requires Frontier(es, s, paths, done, [u] + queue) && forall b :: (u, b) in es ==> b in paths
    ensures Frontier(es, s, paths, done + {u}, queue)
  {
    OpenFrontier(es, s, paths, done, [u] + queue);
    Finish(es, s, paths, done, [u] + queue);
    assert ([u] + queue)[1..] == queue;
  }

  /** With the queue empty, exactly the reachable vertices are recorded. */
  lemma {:induction false} Exhausted(es: Edges, s: int, paths: Paths, done: set<int>, v: int, k: nat)
    requires InSearch(es, s, paths, done, []) && Reaches(es, s, v, k)
    ensures v in paths && |paths[v]| <= k + 1
    decreases k
  {
    if k > 0 {
      var u := LastStep(es, s, v, k - 1);
      Exhausted(es, s, paths, done, u, k - 1);
      assert (u, v) in es;
      EdgeLevel(es, s, paths, u, v);
    } else {
      var w :| Joins(es, s, v, w) && |w| == 1;
    }
  }

  /** Every vertex on a recorded path is at its position's distance. */
  lemma DistancesOnPath(es: Edges, s: int, paths: Paths, v: int, i: nat)
    requires Shortest(es, s, paths) && v in paths && i < |paths[v]|
    ensures IsDistance(es, s, paths[v][i], i)
  {
    var w := paths[v];
    var front := w[..i + 1];
    forall j: nat | j + 1 < |front|
      ensures Hop(front, j) in es
    {
      assert Hop(front, j) == Hop(w, j);
    }
    assert Joins(es, s, w[i], front);
    forall k: nat | Reaches(es, s, w[i], k)
      ensures i <= k
    {
      Detour(es, s, v, w, i, k);
    }
  }

  /** Replacing the first i steps of a walk by a walk of k steps. */
  lemma Detour(es: Edges, s: int, v: int, w: seq<int>, i: nat, k: nat)
    requires Joins(es, s, v, w) && i < |w| && Reaches(es, s, w[i], k)
    ensures Reaches(es, s, v, k + |w| - 1 - i)
  {
    var x :| Joins(es, s, w[i], x) && |x| == k + 1;
    var y := x + w[i + 1..];
    forall j: nat | j + 1 < |y|
      ensures Hop(y, j) in es
    {
      if j + 1 < |x| {
        assert Hop(y, j) == Hop(x, j);
      } else {
        assert Hop(y, j) == Hop(w, j - k + i);
      }
    }
    assert Joins(es, s, v, y);
  }
}

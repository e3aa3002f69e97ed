/**
 The flow network as a mutable object: adjacency lists of edges, a separate residual
 network, the breadth-first path finder and the Edmonds-Karp loop.
 */
module FlowNetworks {
  import opened Totals
  import opened Walks
  import opened BreadthFirst
  import opened FlowTheory
  import opened ShortestAugmentation

  const NONE := -1

  class Edge {
    const destination: int
    var capacity: int
    var flow: int
    ghost const owner: int     // the vertex whose adjacency list the edge was added to
    ghost const position: int  // and its position there

    constructor (destination: int, capacity: int, ghost owner: int, ghost position: int)
      ensures this.destination == destination && this.capacity == capacity && flow == 0
      ensures this.owner == owner && this.position == position
    {
      this.destination := destination;
      this.capacity := capacity;
      this.flow := 0;
      this.owner, this.position := owner, position;
    }
  }

  /** The a-th edge in the adjacency list of vertex i. */
  ghost function Item(lists: seq<seq<Edge>>, i: int, a: int): Edge
    requires 0 <= i < |lists| && 0 <= a < |lists[i]|
  {
    lists[i][a]
  }

  /** The adjacency lists and the index describe each other, over the given edge objects. */
  ghost predicate Listed(nodes: nat, lists: seq<seq<Edge>>, index: map<Arc, nat>, edges: set<Edge>) {
    && |lists| == nodes
    && (forall i, a :: 0 <= i < nodes && 0 <= a < |lists[i]| ==>
          && Item(lists, i, a) in edges
          && Item(lists, i, a).owner == i && Item(lists, i, a).position == a
          && 0 <= Item(lists, i, a).destination < nodes
          && (i, Item(lists, i, a).destination) in index
          && index[(i, Item(lists, i, a).destination)] <= a)
    && (forall u, v {:trigger (u, v) in index} :: (u, v) in index ==>
          && 0 <= u < nodes && 0 <= v < nodes
          && index[(u, v)] < |lists[u]|
          && lists[u][index[(u, v)]] in edges
          && lists[u][index[(u, v)]].owner == u && lists[u][index[(u, v)]].position == index[(u, v)]
          && lists[u][index[(u, v)]].destination == v)
  }

  /** The first edge from u to v, the only one the update methods touch. */
  ghost function First(nodes: nat, lists: seq<seq<Edge>>, index: map<Arc, nat>, edges: set<Edge>, u: int,
                       v: int): (e: Edge)
    requires Listed(nodes, lists, index, edges) && (u, v) in index
  {
    lists[u][index[(u, v)]]
  }

  ghost predicate IsFirst(index: map<Arc, nat>, e: Edge) {
    (e.owner, e.destination) in index && index[(e.owner, e.destination)] == e.position
  }

  /** The maps record what the first edges hold. */
  ghost predicate Synced(lists: seq<seq<Edge>>, index: map<Arc, nat>, cap: map<Arc, int>, flow: Flow, edges: set<Edge>)
    reads edges
  {
    && cap.Keys == index.Keys && flow.Keys == index.Keys
    && forall u, v {:trigger (u, v) in index} :: (u, v) in index ==>
        && 0 <= u < |lists| && index[(u, v)] < |lists[u]| && Item(lists, u, index[(u, v)]) in edges
        && Item(lists, u, index[(u, v)]).capacity == cap[(u, v)]
        && Item(lists, u, index[(u, v)]).flow == flow[(u, v)]
  }

  /** Further edges between the same two vertices carry nothing, and those with room are recorded. */
  ghost predicate Spare(lists: seq<seq<Edge>>, index: map<Arc, nat>, repeated: set<Arc>, edges: set<Edge>)
    reads edges
  {
    forall i, a :: 0 <= i < |lists| && 0 <= a < |lists[i]| && !IsFirst(index, Item(lists, i, a)) ==>
      var e := Item(lists, i, a);
      e in edges && e.flow == 0 && (e.capacity > 0 ==> (i, e.destination) in repeated)
  }

  ghost predicate Whole(nodes: nat, lists: seq<seq<Edge>>, index: map<Arc, nat>, cap: map<Arc, int>, flow: Flow,
                        repeated: set<Arc>, edges: set<Edge>)
    reads edges
  {
    // one expression, so that the verifier need not prove its parts one by one
    var whole := Listed(nodes, lists, index, edges) && Synced(lists, index, cap, flow, edges)
      && Spare(lists, index, repeated, edges);
    whole
  }

  /** Whole, hidden behind a dummy quantifier: what only passes a network on need not unfold it. */
  ghost predicate Consistent(nodes: nat, lists: seq<seq<Edge>>, index: map<Arc, nat>, cap: map<Arc, int>, flow: Flow,
                             repeated: set<Arc>, edges: set<Edge>)
    reads edges
  {
    forall k: nat :: Hidden(nodes, lists, index, cap, flow, repeated, edges, k)
  }

  ghost predicate Hidden(nodes: nat, lists: seq<seq<Edge>>, index: map<Arc, nat>, cap: map<Arc, int>, flow: Flow,
                         repeated: set<Arc>, edges: set<Edge>, k: nat)
    reads edges
  {
    Whole(nodes, lists, index, cap, flow, repeated, edges)
  }

  /** What the first edge between two vertices holds stays. */
  ghost function Added(m: map<Arc, int>, k: Arc, x: int): map<Arc, int> { if k in m then m else m[k := x] }

  lemma AppendConsistent(nodes: nat, lists: seq<seq<Edge>>, index: map<Arc, nat>, cap: map<Arc, int>, flow: Flow,
                         repeated: set<Arc>, edges: set<Edge>, u: int, e: Edge) returns (index': map<Arc, nat>)
    requires Consistent(nodes, lists, index, cap, flow, repeated, edges) && 0 <= u < nodes && e.flow == 0
    requires |lists| == nodes && e.owner == u && e.position == |lists[u]| && 0 <= e.destination < nodes
    ensures var k := (u, e.destination);
      && index'.Keys == index.Keys + {k}
      && Consistent(nodes, lists[u := lists[u] + [e]], index', Added(cap, k, e.capacity), Added(flow, k, 0),
                    if k in cap && e.capacity > 0 then repeated + {k} else repeated, edges + {e})
  {
    assert Hidden(nodes, lists, index, cap, flow, repeated, edges, 0);
    var lists';
    lists', index' := AppendListed(nodes, lists, index, edges, u, e);
    AppendSynced(nodes, lists, index, cap, flow, repeated, edges, u, e, lists', index');
  }

  lemma AppendSynced(nodes: nat, lists: seq<seq<Edge>>, index: map<Arc, nat>, cap: map<Arc, int>, flow: Flow,
                     repeated: set<Arc>, edges: set<Edge>, u: int, e: Edge, lists': seq<seq<Edge>>,
                     index': map<Arc, nat>)
    requires Listed(nodes, lists, index, edges) && 0 <= u < nodes && e.owner == u && e.position == |lists[u]|
    requires Synced(lists, index, cap, flow, edges) && Spare(lists, index, repeated, edges) && e.flow == 0
    requires lists' == lists[u := lists[u] + [e]]
    requires index' == if (u, e.destination) in index then index else index[(u, e.destination) := |lists[u]|]
    ensures var k := (u, e.destination);
      && Synced(lists', index', Added(cap, k, e.capacity), Added(flow, k, 0), edges + {e})
      && Spare(lists', index', if k in cap && e.capacity > 0 then repeated + {k} else repeated, edges + {e})
  {
    forall i, a | 0 <= i < nodes && 0 <= a < |lists'[i]|
      ensures Item(lists', i, a) == if i == u && a == |lists[u]| then e else Item(lists, i, a)
    {
    }
  }

  lemma AppendListed(nodes: nat, lists: seq<seq<Edge>>, index: map<Arc, nat>, edges: set<Edge>,
                     u: int, e: Edge)
    returns (lists': seq<seq<Edge>>, index': map<Arc, nat>)
    requires Listed(nodes, lists, index, edges) && 0 <= u < nodes
    requires e.owner == u && e.position == |lists[u]| && 0 <= e.destination < nodes
    ensures lists' == lists[u := lists[u] + [e]]
    ensures index' == if (u, e.destination) in index then index else index[(u, e.destination) := |lists[u]|]
    ensures Listed(nodes, lists', index', edges + {e})
    ensures forall i, a :: 0 <= i < nodes && 0 <= a < |lists'[i]| ==>
      Item(lists', i, a) == if i == u && a == |lists[u]| then e else Item(lists, i, a)
    ensures forall x, y :: (x, y) in index ==>
      First(nodes, lists', index', edges + {e}, x, y) == First(nodes, lists, index, edges, x, y)
    ensures (u, e.destination) !in index ==> First(nodes, lists', index', edges + {e}, u, e.destination) == e
  {
    lists' := lists[u := lists[u] + [e]];
    index' := if (u, e.destination) in index then index else index[(u, e.destination) := |lists[u]|];
    forall i, b | 0 <= i < nodes && 0 <= b < |lists'[i]|
      ensures Item(lists', i, b) == if i == u && b == |lists[u]| then e else Item(lists, i, b)
    {
    }
  }

  /** The edge from u to v comes before position (i, a) of the adjacency lists. */
  ghost predicate Before(index: map<Arc, nat>, u: int, v: int, i: int, a: int) {
    (u, v) in index && (u < i || (u == i && index[(u, v)] < a))
  }

  /** The residual capacities rcap cover the edges before (i, a), in both directions. */
  ghost predicate Copied(index: map<Arc, nat>, cap: map<Arc, int>, flow: Flow, rcap: map<Arc, int>, i: int, a: int)
  {
    && (forall u, v :: (u, v) in rcap <==> Before(index, u, v, i, a) || Before(index, v, u, i, a))
    && (forall u, v :: (u, v) in rcap ==>
          rcap[(u, v)] == BothWays(cap, flow, u, v))
  }

  /** Full capacity along an edge, flow against it. */
  ghost function BothWays(cap: map<Arc, int>, flow: Flow, u: int, v: int): int {
    if (u, v) in cap then cap[(u, v)] else if (v, u) in flow then flow[(v, u)] else 0
  }

  lemma CopyStep(index: map<Arc, nat>, cap: map<Arc, int>, flow: Flow, rcap: map<Arc, int>, i: int, a: int, d: int)
    requires cap.Keys == index.Keys && flow.Keys == index.Keys
    requires Copied(index, cap, flow, rcap, i, a)
    requires (i, d) in index && index[(i, d)] == a && (d, i) !in index
    requires forall v :: (i, v) in index && index[(i, v)] == a ==> v == d
    ensures (i, d) !in rcap && (d, i) !in rcap
    ensures Copied(index, cap, flow, rcap[(i, d) := cap[(i, d)]][(d, i) := flow[(i, d)]], i, a + 1)
  {
    forall u, v
      ensures Before(index, u, v, i, a + 1) <==> Before(index, u, v, i, a) || (u, v) == (i, d)
    {
    }
  }

  lemma CopyAgain(index: map<Arc, nat>, cap: map<Arc, int>, flow: Flow, rcap: map<Arc, int>, i: int, a: int, d: int)
    requires Copied(index, cap, flow, rcap, i, a) && (i, d) in index && index[(i, d)] < a
    requires forall v :: (i, v) in index ==> index[(i, v)] != a
    ensures (i, d) in rcap && (d, i) in rcap && Copied(index, cap, flow, rcap, i, a + 1)
  {
    assert Before(index, i, d, i, a);
    forall u, v
      ensures Before(index, u, v, i, a + 1) <==> Before(index, u, v, i, a)
    {
    }
  }

  lemma NextList(index: map<Arc, nat>, cap: map<Arc, int>, flow: Flow, rcap: map<Arc, int>, i: int, a: int)
    requires Copied(index, cap, flow, rcap, i, a)
    requires forall v :: (i, v) in index ==> index[(i, v)] < a
    ensures Copied(index, cap, flow, rcap, i + 1, 0)
  {
    forall u, v
      ensures Before(index, u, v, i + 1, 0) <==> Before(index, u, v, i, a)
    {
    }
  }

  lemma CopiedAll(index: map<Arc, nat>, cap: map<Arc, int>, flow: Flow, rcap: map<Arc, int>, n: nat)
    requires Copied(index, cap, flow, rcap, n, 0)
    requires forall u, v :: (u, v) in index ==> u < n
    ensures forall u, v :: (u, v) in rcap <==> (u, v) in index || (v, u) in index
  {
    forall u, v
      ensures Before(index, u, v, n, 0) <==> (u, v) in index
    {
    }
  }

  /** A capacity changed where there is an edge. */
  ghost function Reset(cap: map<Arc, int>, u: int, v: int, capacity: int): map<Arc, int> {
    if (u, v) in cap then cap[(u, v) := capacity] else cap
  }

  function Min(a: int, b: int): int { if a < b then a else b }

  ghost function Positive(cap: map<Arc, int>): Edges { set e | e in cap && cap[e] > 0 }

  /** cf[v] is positive exactly for the vertices found, and p[v] is the vertex each was found from. */
  ghost predicate SearchTree(cap: map<Arc, int>, s: int, cf: seq<int>, p: seq<int>, paths: Paths) {
    && |cf| == |p| && s in paths && 0 <= s < |p| && p[s] == NONE && cf[s] == MAX_INT
    && (forall v :: v in paths ==> 0 <= v < |cf| && cf[v] > 0)
    && (forall v :: 0 <= v < |cf| && v !in paths ==> cf[v] == 0)
    && (forall v :: v in paths && v != s ==>
          && p[v] in paths && paths[v] == paths[p[v]] + [v]
          && (p[v], v) in cap && cf[v] == Min(cf[p[v]], cap[(p[v], v)]))
  }

  lemma SearchStart(cap: map<Arc, int>, s: int, n: nat, cf: seq<int>, p: seq<int>)
    requires |cf| == |p| && 0 <= s < |p|
    requires forall v :: 0 <= v < |p| ==> p[v] == NONE && cf[v] == if v == s then MAX_INT else 0
    ensures SearchTree(cap, s, cf, p, map[s := [s]])
  {
  }

  lemma SearchStep(cap: map<Arc, int>, s: int, cf: seq<int>, p: seq<int>, paths: Paths, u: int, v: int)
    requires SearchTree(cap, s, cf, p, paths)
    requires u in paths && v !in paths && 0 <= v < |cf| && (u, v) in cap && cap[(u, v)] > 0
    ensures SearchTree(cap, s, cf[v := Min(cf[u], cap[(u, v)])], p[v := u], paths[v := paths[u] + [v]])
  {
  }

  /** cf[v] is the least capacity on the path to v. */
  lemma {:induction false} PathCapacity(cap: map<Arc, int>, s: int, cf: seq<int>, p: seq<int>, paths: Paths, v: int)
    requires SearchTree(cap, s, cf, p, paths) && Shortest(Positive(cap), s, paths)
    requires v in paths && forall a, b :: (a, b) in cap ==> cap[(a, b)] <= MAX_INT
    ensures forall i: nat :: i + 1 < |paths[v]| ==> Hop(paths[v], i) in cap && cf[v] <= cap[Hop(paths[v], i)]
    ensures v != s ==> exists i: nat :: i + 1 < |paths[v]| && Hop(paths[v], i) in cap && cap[Hop(paths[v], i)] == cf[v]
    decreases |paths[v]|
  {
    if v != s {
      var u, w := p[v], paths[v];
      PathCapacity(cap, s, cf, p, paths, u);
      var last := |paths[u]| - 1;
      assert Hop(w, last) == (u, v);
      forall i: nat | i + 1 < |w|
        ensures Hop(w, i) in cap && cf[v] <= cap[Hop(w, i)]
      {
        if i < last {
          assert Hop(w, i) == Hop(paths[u], i);
        }
      }
      if u != s && cf[u] < cap[(u, v)] {
        var i: nat :| i + 1 < |paths[u]| && Hop(paths[u], i) in cap && cap[Hop(paths[u], i)] == cf[u];
        assert Hop(w, i) == Hop(paths[u], i);
      } else {
        assert cap[Hop(w, last)] == cf[v];
      }
    }
  }

  lemma {:induction false} PathLinks(cap: map<Arc, int>, s: int, cf: seq<int>, p: seq<int>, paths: Paths, v: int)
    requires SearchTree(cap, s, cf, p, paths) && Shortest(Positive(cap), s, paths) && v in paths
    ensures Links(p, paths[v])
    decreases |paths[v]|
  {
    if v != s {
      var u, w := p[v], paths[v];
      PathLinks(cap, s, cf, p, paths, u);
      forall i: nat | i + 1 < |w|
        ensures p[Hop(w, i).1] == Hop(w, i).0
      {
        if i + 1 < |paths[u]| {
          assert Hop(w, i) == Hop(paths[u], i);
        }
      }
    }
  }

  /** The predecessor array p leads back along the path from its last vertex to NONE. */
  ghost predicate Links(p: seq<int>, path: seq<int>) {
    && |path| >= 1 && (forall i :: 0 <= i < |path| ==> 0 <= path[i] < |p|)
    && p[path[0]] == NONE
    && (forall i: nat :: i + 1 < |path| ==> p[Hop(path, i).1] == Hop(path, i).0)
  }

  lemma LinkAt(p: seq<int>, path: seq<int>, k: nat)
    requires Links(p, path) && k < |path|
    ensures p[path[k]] == if k == 0 then NONE else path[k - 1]
  {
    if k > 0 {
      assert p[Hop(path, k - 1).1] == Hop(path, k - 1).0;
    }
  }

  /** A shortest path of positive capacities from s to t, recorded in p, whose least capacity is inc. */
  ghost predicate PathFound(cap: map<Arc, int>, s: int, t: int, p: seq<int>, inc: int, path: seq<int>) {
    // one expression, so that the verifier need not prove its parts one by one
    var found :=
      && |path| >= 2 && path[0] == s && path[|path| - 1] == t && Distinct(path) && Links(p, path)
      && inc > 0
      && (forall i: nat :: i + 1 < |path| ==> Hop(path, i) in cap && inc <= cap[Hop(path, i)])
      && (exists i: nat :: i + 1 < |path| && Hop(path, i) in cap && cap[Hop(path, i)] == inc)
      && (forall i: nat :: i < |path| ==> AtDistance(Positive(cap), s, path, i));
    found
  }

  /** The edges from u before position a lead to vertices already recorded, if their capacity is positive. */
  ghost predicate Scanned(cap: map<Arc, int>, index: map<Arc, nat>, u: int, a: int, paths: Paths) {
    forall v {:trigger (u, v) in cap} :: (u, v) in cap && cap[(u, v)] > 0 && (u, v) in index && index[(u, v)] < a ==>
      v in paths
  }

  lemma ScannedNext(cap: map<Arc, int>, index: map<Arc, nat>, u: int, a: int, v: int, paths: Paths, paths': Paths)
    requires Scanned(cap, index, u, a, paths) && paths.Keys <= paths'.Keys
    requires forall w :: (u, w) in index && index[(u, w)] == a ==> w == v
    requires (u, v) in cap && cap[(u, v)] > 0 ==> v in paths'
    ensures Scanned(cap, index, u, a + 1, paths')
  {
  }

  ghost predicate Reachable(es: Edges, s: int, v: int) { exists k: nat :: Reaches(es, s, v, k) }

  /** reached holds what s reaches over positive capacities, no positive capacity leaves it, and t is not in it. */
  ghost predicate Separates(cap: map<Arc, int>, s: int, t: int, reached: set<int>) {
    // one expression, so that the verifier need not prove its parts one by one
    var separates := s in reached && t !in reached &&
      (forall u, v {:trigger (u, v) in cap} :: (u, v) in cap && cap[(u, v)] > 0 && u in reached ==> v in reached) &&
      (forall v :: v in reached ==> Reachable(Positive(cap), s, v));
    separates
  }

  /** The vertices found by a search. */
  ghost function Found(cf: seq<int>): set<int> { set v | 0 <= v < |cf| && cf[v] > 0 }

  /** Where an edge has room beside a first edge without any, its tail can only have been found from its head. */
  ghost predicate Idle(cap: map<Arc, int>, s: int, repeated: set<Arc>) {
    forall u, v {:trigger (u, v) in repeated} :: (u, v) in repeated && (u, v) in cap && cap[(u, v)] <= 0 ==>
      u != s && forall w {:trigger (w, u) in cap} :: (w, u) in cap && cap[(w, u)] > 0 ==> w == v
  }

  /** Scanning an edge over which nothing new is found, though it has room. */
  lemma FoundBefore(cap: map<Arc, int>, s: int, cf: seq<int>, p: seq<int>, paths: Paths, repeated: set<Arc>, u: int,
                    v: int)
    requires SearchTree(cap, s, cf, p, paths) && Idle(cap, s, repeated)
    requires u in paths && (u, v) in repeated && (u, v) in cap && cap[(u, v)] <= 0
    ensures v in paths
  {
    assert (p[u], u) in cap && cap[(p[u], u)] > 0;
  }

  lemma TreePath(cap: map<Arc, int>, s: int, t: int, cf: seq<int>, p: seq<int>, paths: Paths)
    requires SearchTree(cap, s, cf, p, paths) && Shortest(Positive(cap), s, paths)
    requires t in paths && t != s && forall a, b :: (a, b) in cap ==> cap[(a, b)] <= MAX_INT
    ensures PathFound(cap, s, t, p, cf[t], paths[t])
  {
    var w := paths[t];
    PathCapacity(cap, s, cf, p, paths, t);
    PathLinks(cap, s, cf, p, paths, t);
    forall i: nat | i < |w|
      ensures AtDistance(Positive(cap), s, w, i)
    {
      DistancesOnPath(Positive(cap), s, paths, t, i);
    }
    forall i, j | 0 <= i < j < |w|
      ensures w[i] != w[j]
    {
      DistancesOnPath(Positive(cap), s, paths, t, i);
      DistancesOnPath(Positive(cap), s, paths, t, j);
    }
  }

  lemma TreeClosed(cap: map<Arc, int>, s: int, t: int, cf: seq<int>, p: seq<int>, paths: Paths, done: set<int>)
    requires SearchTree(cap, s, cf, p, paths) && Frontier(Positive(cap), s, paths, done, [])
    requires t !in paths
    ensures Separates(cap, s, t, Found(cf))
  {
    OpenFrontier(Positive(cap), s, paths, done, []);
    assert Found(cf) == paths.Keys;
    forall u, v | (u, v) in cap && cap[(u, v)] > 0 && u in paths.Keys
      ensures v in paths.Keys
    {
      assert (u, v) in Positive(cap);
    }
    forall v | v in paths
      ensures Reachable(Positive(cap), s, v)
    {
      assert Reaches(Positive(cap), s, v, |paths[v]| - 1);
    }
  }

  /** A separating set is exactly what the source reaches. */
  lemma SeparatesExactly(cap: map<Arc, int>, s: int, t: int, reached: set<int>)
    requires Separates(cap, s, t, reached)
    ensures forall v :: v in reached <==> Reachable(Positive(cap), s, v)
  {
    forall v, k: nat | Reaches(Positive(cap), s, v, k)
      ensures v in reached
    {
      NeverLeaves(cap, s, t, reached, v, k);
    }
  }

  lemma {:induction false} NeverLeaves(cap: map<Arc, int>, s: int, t: int, reached: set<int>, v: int, k: nat)
    requires Separates(cap, s, t, reached) && Reaches(Positive(cap), s, v, k)
    ensures v in reached
    decreases k
  {
    if k == 0 {
      ReachesNowhereElse(Positive(cap), s, v);
    } else {
      var u := LastStep(Positive(cap), s, v, k - 1);
      NeverLeaves(cap, s, t, reached, u, k - 1);
      assert (u, v) in cap;
    }
  }

  lemma AtMostAllVertices(paths: Paths, n: nat)
    requires forall v :: v in paths ==> 0 <= v < n
    ensures |paths| <= n
  {
    SubsetSize(paths.Keys, Below(n));
  }

  /** Every step of the path is an edge of the network in exactly one direction. */
  ghost predicate Oriented(cap: map<Arc, int>, path: seq<int>) {
    forall i: nat :: i + 1 < |path| ==> (Hop(path, i) in cap) != (Reverse(Hop(path, i)) in cap)
  }

  lemma OrientedAt(cap: map<Arc, int>, path: seq<int>, k: nat)
    requires Oriented(cap, path) && k + 1 < |path|
    ensures ((path[k], path[k + 1]) in cap) != ((path[k + 1], path[k]) in cap)
  {
    assert Hop(path, k) == (path[k], path[k + 1]);
  }

  /** Following the predecessors from v meets j vertices, joined by edges of the network, and ends. */
  ghost predicate Chain(cap: map<Arc, int>, p: seq<int>, v: int, j: nat)
    decreases j
  {
    0 <= v < |p| && j > 0 &&
    if p[v] == NONE then j == 1
    else ((p[v], v) in cap) != ((v, p[v]) in cap) && Chain(cap, p, p[v], j - 1)
  }

  /** Push over the edges met when following the predecessors of v. */
  ghost function PushBack(f: Flow, p: seq<int>, v: int, j: nat, inc: int): Flow
    decreases j
  {
    if j < 2 || !(0 <= v < |p|) then f else PushBack(Push(f, p[v], v, inc), p, p[v], j - 1, inc)
  }

  /** The predecessors of the path's j-th vertex lead back along the path. */
  lemma {:induction false} FollowsPath(f: Flow, cap: map<Arc, int>, p: seq<int>, path: seq<int>, j: nat, inc: int)
    requires Links(p, path) && Oriented(cap, path) && 0 < j <= |path|
    ensures Chain(cap, p, path[j - 1], j)
    ensures PushBack(f, p, path[j - 1], j, inc) == PushPath(f, path[..j], inc)
    decreases j
  {
    LinkAt(p, path, j - 1);
    if j >= 2 {
      OrientedAt(cap, path, j - 2);
      FollowsPath(Push(f, path[j - 2], path[j - 1], inc), cap, p, path, j - 1, inc);
      assert path[..j][..j - 1] == path[..j - 1];
    }
  }

  class FlowNetwork {
    const nodes: nat
    const source: int
    const sink: int
    var adjacents: seq<seq<Edge>>
    ghost var index: map<Arc, nat>  // position of the first edge between two vertices
    ghost var cap: map<Arc, int>    // its capacity
    ghost var flow: Flow            // its flow
    ghost var repeated: set<Arc>    // where a further edge with room was added
    ghost var Repr: set<Edge>

    ghost predicate Indexed()
      reads this, Repr
    {
      && 0 <= source < nodes && 0 <= sink < nodes && source != sink
      && Listed(nodes, adjacents, index, Repr)
    }

    /** The lists and the ghost maps describe each other. */
    ghost predicate Sound()
      reads this, Repr
    {
      && 0 <= source < nodes && 0 <= sink < nodes && source != sink
      && Whole(nodes, adjacents, index, cap, flow, repeated, Repr)
    }

    ghost predicate Valid()
      reads this, Repr
    {
      && 0 <= source < nodes && 0 <= sink < nodes && source != sink
      && |adjacents| == nodes && cap.Keys == index.Keys && flow.Keys == index.Keys
      && Consistent(nodes, adjacents, index, cap, flow, repeated, Repr)
    }

    lemma Unfold()
      requires Valid()
      ensures Sound()
    {
      assert Hidden(nodes, adjacents, index, cap, flow, repeated, Repr, 0);
    }

    ghost function Net(): Network
      reads this
    {
      Network(nodes, source, sink, cap)
    }

    constructor (nodes: nat, source: int, sink: int)
      requires 0 <= source < nodes && 0 <= sink < nodes && source != sink
      ensures Valid() && repeated == {} && fresh(Repr)
      ensures this.nodes == nodes && this.source == source && this.sink == sink
      ensures cap == map[] && flow == map[]
    {
      this.nodes, this.source, this.sink := nodes, source, sink;
      this.adjacents := seq(nodes, _ => []);
      this.index, this.cap, this.flow := map[], map[], map[];
      this.repeated, this.Repr := {}, {};
    }

    /** Appends an edge with flow 0; only the first edge between two vertices shows in cap and flow. */
    method AddEdge(vertex1: int, vertex2: int, capacity: int)
      requires Valid() && 0 <= vertex1 < nodes && 0 <= vertex2 < nodes
      modifies this
      ensures Valid() && fresh(Repr - old(Repr))
      ensures var k := (vertex1, vertex2);
        && cap == Added(old(cap), k, capacity) && flow == Added(old(flow), k, 0)
        && repeated == if k in old(cap) && capacity > 0 then old(repeated) + {k} else old(repeated)
    {
      var e := new Edge(vertex2, capacity, vertex1, |adjacents[vertex1]|);
      ghost var k := (vertex1, vertex2);
      ghost var index' := AppendConsistent(nodes, adjacents, index, cap, flow, repeated, Repr, vertex1, e);
      ghost var again := if k in cap && capacity > 0 then repeated + {k} else repeated;
      SetLists(adjacents[vertex1 := adjacents[vertex1] + [e]], index', Added(cap, k, capacity), Added(flow, k, 0),
               again, Repr + {e});
    }

    /** Takes over lists with what is known of them. */
    method SetLists(lists: seq<seq<Edge>>, ghost index': map<Arc, nat>, ghost cap': map<Arc, int>, ghost flow': Flow,
                    ghost repeated': set<Arc>, ghost edges: set<Edge>)
      requires Consistent(nodes, lists, index', cap', flow', repeated', edges)
      modifies this
      ensures adjacents == lists && index == index' && cap == cap' && flow == flow'
      ensures repeated == repeated' && Repr == edges
      ensures Consistent(nodes, adjacents, index, cap, flow, repeated, Repr)
    {
      adjacents := lists;
      index, cap, flow, repeated, Repr := index', cap', flow', repeated', edges;
    }

    /** First edge from one vertex to another, in list order. */
    method FindEdge(from: int, to: int) returns (e: Edge?)
      requires Indexed() && 0 <= from < nodes
      ensures e == null <==> (from, to) !in index
      ensures e != null ==> e == First(nodes, adjacents, index, Repr, from, to) && e in Repr
    {
      var list := adjacents[from];
      var a := 0;
      while a < |list|
        invariant 0 <= a <= |list|
        invariant forall b :: 0 <= b < a ==> list[b].destination != to
      {
        assert Item(adjacents, from, a) == list[a];
        if list[a].destination == to {
          return list[a];
        }
        a := a + 1;
      }
      return null;
    }

    method SetFirstCapacity(from: int, to: int, capacity: int)
      requires Valid() && 0 <= from < nodes
      modifies `cap, Repr`capacity
      ensures Valid()
      ensures cap == Reset(old(cap), from, to, capacity)
      ensures forall e :: e in Repr && !IsFirst(index, e) ==> e.capacity == old(e.capacity)
    {
      Unfold();
      var e := FindEdge(from, to);
      if e != null {
        e.capacity := capacity;
        cap := cap[(from, to) := capacity];
      }
    }

    /** Residual capacities of (from, to) and (to, from), for an edge with this capacity and flow. */
    method UpdateResidualCapacity(from: int, to: int, capacity: int, flow: int)
      requires Valid() && 0 <= from < nodes && 0 <= to < nodes
      modifies `cap, Repr`capacity
      ensures Valid()
      ensures cap == Reset(Reset(old(cap), from, to, capacity - flow), to, from, flow)
      ensures forall e :: e in Repr && !IsFirst(index, e) ==> e.capacity == old(e.capacity)
    {
      SetFirstCapacity(from, to, capacity - flow);
      SetFirstCapacity(to, from, flow);
    }

    /** For every edge, its full capacity forwards and its flow backwards. */
    method BuildResidualNetwork() returns (r: FlowNetwork)
      requires Valid() && WellFormed(Net())
      ensures fresh(r) && fresh(r.Repr) && r.Valid() && r.repeated <= repeated
      ensures r.nodes == nodes && r.source == source && r.sink == sink
      ensures r.cap.Keys == ResidualKeys(Net())
      ensures forall u, v :: (u, v) in r.cap ==> r.cap[(u, v)] == BothWays(cap, flow, u, v)
    {
      Unfold();
      r := new FlowNetwork(nodes, source, sink);
      var i := 0;
      while i < nodes
        invariant 0 <= i <= nodes
        invariant fresh(r) && fresh(r.Repr) && r.Valid() && r.repeated <= repeated
        invariant r.nodes == nodes && r.source == source && r.sink == sink
        invariant Copied(index, cap, flow, r.cap, i, 0)
      {
        CopyList(r, i);
        i := i + 1;
      }
      CopiedAll(index, cap, flow, r.cap, nodes);
      ResidualKeysOf(r.cap.Keys);
    }

    method CopyList(r: FlowNetwork, i: int)
      requires Valid() && WellFormed(Net())
      requires r.Valid() && r.repeated <= repeated && r.nodes == nodes && r != this
      requires 0 <= i < nodes && Copied(index, cap, flow, r.cap, i, 0)
      modifies r
      ensures r.Valid() && r.repeated <= repeated && fresh(r.Repr - old(r.Repr))
      ensures Copied(index, cap, flow, r.cap, i + 1, 0)
    {
      var a := 0;
      while a < |adjacents[i]|
        invariant 0 <= a <= |adjacents[i]|
        invariant r.Valid() && r.repeated <= repeated && fresh(r.Repr - old(r.Repr))
        invariant Copied(index, cap, flow, r.cap, i, a)
      {
        CopyEdge(r, i, a);
        a := a + 1;
      }
      Unfold();
      NextList(index, cap, flow, r.cap, i, |adjacents[i]|);
    }

    method CopyEdge(r: FlowNetwork, i: int, a: int)
      requires Valid() && WellFormed(Net())
      requires r.Valid() && r.repeated <= repeated && r.nodes == nodes && r != this
      requires 0 <= i < nodes && 0 <= a < |adjacents[i]| && Copied(index, cap, flow, r.cap, i, a)
      modifies r
      ensures r.Valid() && r.repeated <= repeated && fresh(r.Repr - old(r.Repr))
      ensures Copied(index, cap, flow, r.cap, i, a + 1)
    {
      Unfold();
      var e := adjacents[i][a];
      var d := e.destination;
      assert Item(adjacents, i, a) == e;
      if index[(i, d)] == a {
        assert First(nodes, adjacents, index, Repr, i, d) == e;
        CopyStep(index, cap, flow, r.cap, i, a, d);
      } else {
        CopyAgain(index, cap, flow, r.cap, i, a, d);
      }
      r.AddEdge(i, d, e.capacity);
      r.AddEdge(d, i, e.flow);
    }

    lemma ResidualKeysOf(keys: set<Arc>)
      requires Sound() && forall u, v :: (u, v) in keys <==> (u, v) in index || (v, u) in index
      ensures keys == ResidualKeys(Net())
    {
      forall k
        ensures k in keys <==> k in ResidualKeys(Net())
      {
        var u, v := k.0, k.1;
        ResidualKeysMember(Net(), (u, v));
      }
    }

    /** Flow forwards on the edge (u, v) if there is one, otherwise backwards on (v, u). */
    method PushEdge(u: int, v: int, increment: int, r: FlowNetwork)
      requires Valid() && 0 <= u < nodes && 0 <= v < nodes
      requires r.Valid() && r != this && Repr !! r.Repr && r.nodes == nodes
      requires Mirrors(r.cap, cap, flow)
      requires ((u, v) in cap) != ((v, u) in cap)
      modifies `flow, Repr`flow, r`cap, r.Repr`capacity
      ensures Valid() && r.Valid()
      ensures flow == Push(old(flow), u, v, increment)
      ensures Mirrors(r.cap, cap, flow)
    {
      Unfold();
      var e := FindEdge(u, v);
      if e != null {
        AddFlow(e, u, v, increment, r);
      } else {
        e := FindEdge(v, u);
        AddFlow(e, v, u, -increment, r);
      }
    }

    /** Changes the flow of the edge e from u to v, and its two residual capacities with it. */
    method AddFlow(e: Edge, u: int, v: int, delta: int, r: FlowNetwork)
      requires Sound() && (u, v) in index && (v, u) !in cap && e == First(nodes, adjacents, index, Repr, u, v)
      requires r.Valid() && r != this && Repr !! r.Repr && r.nodes == nodes && 0 <= v < nodes
      requires Mirrors(r.cap, cap, flow)
      modifies `flow, Repr`flow, r`cap, r.Repr`capacity
      ensures Valid() && r.Valid()
      ensures flow == old(flow)[(u, v) := old(flow)[(u, v)] + delta]
      ensures Mirrors(r.cap, cap, flow)
    {
      RecordFlow(e, u, v, delta);
      var c, x := e.capacity, e.flow;
      MirrorStep(r.cap, cap, old(flow), flow, u, v, c, x);
      r.UpdateResidualCapacity(u, v, c, x);
    }

    method RecordFlow(e: Edge, u: int, v: int, delta: int)
      requires Sound() && (u, v) in index && e == First(nodes, adjacents, index, Repr, u, v)
      modifies `flow, e`flow
      ensures Sound() && flow == old(flow)[(u, v) := old(flow)[(u, v)] + delta]
      ensures e.flow == flow[(u, v)] && e.capacity == cap[(u, v)]
    {
      e.flow := e.flow + delta;
      flow := flow[(u, v) := flow[(u, v)] + delta];
    }

    /** Follows the predecessors from the sink and pushes the increment over each of the edges met. */
    method IncrementFlow(p: array<int>, increment: int, r: FlowNetwork, ghost vertices: nat)
      requires Valid() && Partner(r)
      requires Mirrors(r.cap, cap, flow)
      requires p.Length == nodes && Chain(cap, p[..], sink, vertices)
      modifies `flow, Repr`flow, r`cap, r.Repr`capacity
      ensures Valid() && Partner(r)
      ensures Mirrors(r.cap, cap, flow)
      ensures flow == PushBack(old(flow), p[..], sink, vertices, increment)
    {
      ghost var links := p[..];
      ghost var goal := PushBack(flow, links, sink, vertices, increment);
      ghost var j := vertices;
      var v := sink;
      var u := p[v];
      while u != NONE
        invariant 0 <= v < p.Length && u == p[v]
        invariant p[..] == links
        invariant Chain(cap, links, v, j)
        invariant Valid() && r.Valid() && Mirrors(r.cap, cap, flow)
        invariant PushBack(flow, links, v, j, increment) == goal
        decreases j
      {
        PushStep(links, j, u, v, increment, r);
        v := u;
        u := p[v];
        j := j - 1;
      }
    }

    method PushStep(ghost links: seq<int>, ghost j: nat, u: int, v: int, increment: int, r: FlowNetwork)
      requires Valid() && r.Valid() && r != this && Repr !! r.Repr && r.nodes == nodes
      requires Mirrors(r.cap, cap, flow)
      requires |links| == nodes && Chain(cap, links, v, j) && u == links[v] && u != NONE
      modifies `flow, Repr`flow, r`cap, r.Repr`capacity
      ensures Valid() && r.Valid()
      ensures Mirrors(r.cap, cap, flow)
      ensures j > 1 && Chain(cap, links, u, j - 1)
      ensures PushBack(flow, links, u, j - 1, increment) == PushBack(old(flow), links, v, j, increment)
    {
      PushEdge(u, v, increment, r);
    }

    /**
     Breadth-first search from the source over positive capacities. A positive increment comes
     with a shortest path of that bottleneck capacity; 0 with the vertices reached, those of positive cf.
     */
    method FindPath(p: array<int>) returns (increment: int, ghost found: seq<int>, ghost path: seq<int>)
      requires Valid() && Idle(cap, source, repeated) && p.Length == nodes
      requires forall u, v :: (u, v) in cap ==> cap[(u, v)] <= MAX_INT
      modifies p
      ensures |found| == nodes && increment == found[sink] >= 0
      ensures increment == 0 ==> Separates(cap, source, sink, Found(found))
      ensures increment > 0 ==> PathFound(cap, source, sink, p[..], increment, path)
    {
      var cf := StartSearch(p);
      var q := [source];
      ghost var paths: Paths, done: set<int> := map[source := [source]], {};
      Start(Positive(cap), source);
      while q != []
        invariant SearchTree(cap, source, cf[..], p[..], paths)
        invariant Frontier(Positive(cap), source, paths, done, q)
        decreases nodes - |paths|, |q|
      {
        var u := q[0];
        assert q == [u] + q[1..];
        FrontOfQueue(Positive(cap), source, paths, done, u, q[1..]);
        if u == sink {
          break;
        }
        q, paths := ScanEdges(u, q[1..], cf, p, paths, done);
        AtMostAllVertices(paths, nodes);
        done := done + {u};
      }
      increment := cf[sink];
      found := cf[..];
      path := SearchResult(found, p[..], paths, done, q);
    }

    /** What the search shows when it stops. */
    lemma SearchResult(cf: seq<int>, p: seq<int>, paths: Paths, done: set<int>, q: seq<int>) returns (path: seq<int>)
      requires Valid() && SearchTree(cap, source, cf, p, paths) && |cf| == nodes
      requires Frontier(Positive(cap), source, paths, done, q) && (sink in paths || q == [])
      requires forall u, v :: (u, v) in cap ==> cap[(u, v)] <= MAX_INT
      ensures cf[sink] >= 0
      ensures cf[sink] == 0 ==> Separates(cap, source, sink, Found(cf))
      ensures cf[sink] > 0 ==> PathFound(cap, source, sink, p, cf[sink], path)
    {
      path := [];
      OpenFrontier(Positive(cap), source, paths, done, q);
      if sink in paths {
        path := paths[sink];
        TreePath(cap, source, sink, cf, p, paths);
      } else {
        TreeClosed(cap, source, sink, cf, p, paths, done);
      }
    }

    method StartSearch(p: array<int>) returns (cf: array<int>)
      requires Valid() && p.Length == nodes
      modifies p
      ensures fresh(cf) && cf.Length == nodes
      ensures SearchTree(cap, source, cf[..], p[..], map[source := [source]])
    {
      cf := new int[nodes](_ => 0);
      for u := 0 to nodes
        invariant forall v :: 0 <= v < u ==> p[v] == NONE
        invariant forall v :: 0 <= v < nodes ==> cf[v] == 0
      {
        p[u] := NONE;
      }
      cf[source] := MAX_INT;
      SearchStart(cap, source, nodes, cf[..], p[..]);
    }

    /** Records every vertex newly reached over an edge from u. */
    method ScanEdges(u: int, queue: seq<int>, cf: array<int>, p: array<int>, ghost paths: Paths, ghost done: set<int>)
      returns (q: seq<int>, ghost paths': Paths)
      requires Valid() && Idle(cap, source, repeated)
      requires p.Length == nodes && cf.Length == nodes && p != cf
      requires SearchTree(cap, source, cf[..], p[..], paths)
      requires Frontier(Positive(cap), source, paths, done, [u] + queue)
      modifies p, cf
      ensures SearchTree(cap, source, cf[..], p[..], paths')
      ensures Frontier(Positive(cap), source, paths', done + {u}, q)
      ensures |paths'| > |paths| || (paths' == paths && q == queue)
    {
      q, paths' := queue, paths;
      FrontOfQueue(Positive(cap), source, paths, done, u, queue);
      var list := adjacents[u];
      var a := 0;
      while a < |list|
        invariant 0 <= a <= |list|
        invariant SearchTree(cap, source, cf[..], p[..], paths')
        invariant Frontier(Positive(cap), source, paths', done, [u] + q)
        invariant Scanned(cap, index, u, a, paths')
        invariant |paths'| > |paths| || (paths' == paths && q == queue)
      {
        q, paths' := ScanEdge(u, a, q, cf, p, paths', done);
        a := a + 1;
      }
      FinishScan(u, paths', done, q);
    }

    lemma FinishScan(u: int, paths: Paths, done: set<int>, q: seq<int>)
      requires Valid() && 0 <= u < nodes && Scanned(cap, index, u, |adjacents[u]|, paths)
      requires Frontier(Positive(cap), source, paths, done, [u] + q)
      ensures Frontier(Positive(cap), source, paths, done + {u}, q)
    {
      Unfold();
      FinishFrom(Positive(cap), source, paths, done, u, q);
    }

    method ScanEdge(u: int, a: int, queue: seq<int>, cf: array<int>, p: array<int>, ghost paths: Paths,
                    ghost done: set<int>)
      returns (q: seq<int>, ghost paths': Paths)
      requires Valid() && Idle(cap, source, repeated)
      requires p.Length == nodes && cf.Length == nodes && p != cf
      requires 0 <= u < nodes && 0 <= a < |adjacents[u]| && Scanned(cap, index, u, a, paths)
      requires SearchTree(cap, source, cf[..], p[..], paths)
      requires Frontier(Positive(cap), source, paths, done, [u] + queue)
      modifies p, cf
      ensures SearchTree(cap, source, cf[..], p[..], paths')
      ensures Frontier(Positive(cap), source, paths', done, [u] + q)
      ensures Scanned(cap, index, u, a + 1, paths')
      ensures |paths'| > |paths| || (paths' == paths && q == queue)
    {
      Unfold();
      q, paths' := queue, paths;
      var e := adjacents[u][a];
      var v := e.destination;
      assert e == Item(adjacents, u, a);
      FrontOfQueue(Positive(cap), source, paths, done, u, queue);
      if e.capacity > 0 && cf[v] == 0 {
        NewlyFound(u, a, cf[..], p[..], paths);
        q, paths' := Record(u, v, e.capacity, queue, cf, p, paths, done);
      }
      ScannedNext(cap, index, u, a, v, paths, paths');
    }

    /** An edge with room to a vertex not found yet is the first one between its ends. */
    lemma NewlyFound(u: int, a: int, cf: seq<int>, p: seq<int>, paths: Paths)
      requires Sound() && Idle(cap, source, repeated)
      requires 0 <= u < nodes && 0 <= a < |adjacents[u]| && Scanned(cap, index, u, a, paths) && u in paths
      requires SearchTree(cap, source, cf, p, paths) && |cf| == nodes
      requires var e := Item(adjacents, u, a); e.capacity > 0 && cf[e.destination] == 0
      ensures var e := Item(adjacents, u, a);
        (u, e.destination) in cap && cap[(u, e.destination)] == e.capacity && e.destination !in paths
    {
      var e := Item(adjacents, u, a);
      if !IsFirst(index, e) && cap[(u, e.destination)] <= 0 {
        FoundBefore(cap, source, cf, p, paths, repeated, u, e.destination);
      }
    }

    /** The vertex v is reached from u over capacity c: set its predecessor and queue it. */
    method Record(u: int, v: int, c: int, queue: seq<int>, cf: array<int>, p: array<int>, ghost paths: Paths,
                  ghost done: set<int>)
      returns (q: seq<int>, ghost paths': Paths)
      requires p.Length == cf.Length && p != cf && 0 <= v < cf.Length && v !in paths
      requires (u, v) in cap && c == cap[(u, v)] && c > 0
      requires SearchTree(cap, source, cf[..], p[..], paths)
      requires Frontier(Positive(cap), source, paths, done, [u] + queue)
      modifies p, cf
      ensures SearchTree(cap, source, cf[..], p[..], paths')
      ensures Frontier(Positive(cap), source, paths', done, [u] + q)
      ensures v in paths' && paths.Keys <= paths'.Keys && |paths'| > |paths|
    {
      DiscoverFrom(Positive(cap), source, paths, done, u, queue, v);
      SearchStep(cap, source, cf[..], p[..], paths, u, v);
      cf[v] := Min(cf[u], c);
      p[v] := u;
      q := queue + [v];
      paths' := paths[v := paths[u] + [v]];
    }

    /**
     Edmonds-Karp from a zero flow: the flow left on the edges is feasible and maximum, the
     result is its value and the capacity of the cut found last, which is what the source reaches in
     the residual network, and the flow was reached by shortest augmentations only, at most nodes
     times edges of them.
     */
    method EdmondsKarp() returns (flowValue: int, ghost cut: set<int>, ghost history: History)
      requires Valid() && WellFormed(Net()) && Harmless(Net(), repeated)
      requires forall e :: e in flow ==> flow[e] == 0
      modifies `flow, Repr`flow
      ensures Valid() && Feasible(Net(), flow) && flowValue == Value(Net(), flow)
      ensures forall g :: Feasible(Net(), g) ==> Value(Net(), g) <= flowValue
      ensures IsCut(Net(), cut) && CutCapacity(Net(), cut) == flowValue
      ensures forall v :: v in cut <==> Reachable(ResidualEdges(Net(), flow), source, v)
      ensures IsRun(Net(), history) && flow == FlowAfter(Net(), history)
      ensures Rounds(history) <= nodes * |cap|
    {
      ghost var n, rcap := Net(), map[];
      flowValue, cut, history, rcap := RunToEnd(n);
      RunIsMaximum(n, history, rcap, cut);
    }

    /** A run of augmentations from the zero flow, ending when nothing leaves the vertices found. */
    method RunToEnd(ghost n: Network)
      returns (flowValue: int, ghost cut: set<int>, ghost history: History, ghost rcap: map<Arc, int>)
      requires Valid() && n == Net() && WellFormed(n) && Harmless(n, repeated)
      requires forall e :: e in flow ==> flow[e] == 0
      modifies `flow, Repr`flow
      ensures Valid() && n == Net() && Mirrors(rcap, n.cap, flow) && Separates(rcap, n.source, n.sink, cut)
      ensures IsRun(n, history) && flow == FlowAfter(n, history) && flowValue == Pushed(history)
    {
      var r := ResidualAtZero();
      var p := new int[nodes];
      flowValue, cut, history := Maximize(n, r, p);
      assert CoupledAt(n, r, history, 0);
      rcap := r.cap;
    }

    method ResidualAtZero() returns (r: FlowNetwork)
      requires Valid() && WellFormed(Net()) && Harmless(Net(), repeated) && forall e :: e in flow ==> flow[e] == 0
      ensures fresh(r) && fresh(r.Repr) && Coupled(Net(), r, Fresh)
    {
      r := BuildResidualNetwork();
      CoupledAtZero(Net(), r);
    }

    lemma CoupledAtZero(n: Network, r: FlowNetwork)
      requires Valid() && n == Net() && WellFormed(n) && Harmless(n, repeated) && forall e :: e in flow ==> flow[e] == 0
      requires Partner(r) && r.cap.Keys == ResidualKeys(n)
      requires forall u, v :: (u, v) in r.cap ==> r.cap[(u, v)] == BothWays(cap, flow, u, v)
      ensures Coupled(n, r, Fresh)
    {
      ResidualOfZero(n, flow, r.cap);
      assert Suitable(n, repeated);
      ZeroFlow(n, flow);
      CoupledAgain(n, r, Fresh);
    }

    /** The flow follows the run, and the residual network r follows the flow; behind a dummy quantifier. */
    ghost predicate Coupled(n: Network, r: FlowNetwork, history: History)
      reads this, Repr, r, r.Repr
    {
      forall k: nat :: CoupledAt(n, r, history, k)
    }

    ghost predicate CoupledAt(n: Network, r: FlowNetwork, history: History, k: nat)
      reads this, Repr, r, r.Repr
    {
      && Valid() && n == Net() && Suitable(n, repeated)
      && Partner(r) && Mirrors(r.cap, cap, flow) && IsRun(n, history) && flow == FlowAfter(n, history)
    }

    /** The augmentation loop, ending when nothing leaves the vertices found. */
    method Maximize(ghost n: Network, r: FlowNetwork, p: array<int>)
      returns (flowValue: int, ghost cut: set<int>, ghost history: History)
      requires Coupled(n, r, Fresh) && p.Length == nodes
      modifies `flow, Repr`flow, r`cap, r.Repr`capacity, p
      ensures Coupled(n, r, history) && flowValue == Pushed(history) && Separates(r.cap, n.source, n.sink, cut)
    {
      flowValue := 0;
      history := Fresh;
      var increment: int;
      ghost var next, vertices;
      increment, cut, next, vertices := NextPath(n, r, p, history);
      while increment > 0
        invariant Coupled(n, r, history) && flowValue == Pushed(history)
        invariant increment >= 0
        invariant increment == 0 ==> Separates(r.cap, n.source, n.sink, cut)
        invariant increment > 0 ==> Extends(n, history, next, p[..], vertices, increment)
        decreases n.nodes * |n.cap| - Rounds(history)
      {
        Augment(n, p, increment, r, vertices, history, next);
        flowValue := flowValue + increment;
        history := next;
        increment, cut, next, vertices := NextPath(n, r, p, history);
      }
    }

    /** r is a network of its own over the same vertices. */
    ghost predicate Partner(r: FlowNetwork)
      reads this, r, r.Repr
    {
      // one expression, so that the verifier need not prove its parts one by one
      var partner := r.Valid() && r.repeated <= repeated && r != this && Repr !! r.Repr
        && r.nodes == nodes && r.source == source && r.sink == sink;
      partner
    }

    /** One pass of the loop: the flow follows the run, and the residual network follows the flow. */
    method Augment(ghost n: Network, p: array<int>, increment: int, r: FlowNetwork, ghost vertices: nat,
                   ghost history: History, ghost next: History)
      requires Coupled(n, r, history) && p.Length == nodes && IsRun(n, next)
      requires Pushes(n, history, next, p[..], vertices, increment)
      modifies `flow, Repr`flow, r`cap, r.Repr`capacity
      ensures Coupled(n, r, next)
    {
      assert CoupledAt(n, r, history, 0);
      assert Chain(cap, p[..], sink, vertices);
      IncrementFlow(p, increment, r, vertices);
      assert flow == FlowAfter(n, next);
      CoupledAgain(n, r, next);
    }

    lemma CoupledAgain(n: Network, r: FlowNetwork, history: History)
      requires Valid() && n == Net() && Suitable(n, repeated)
      requires Partner(r) && Mirrors(r.cap, cap, flow) && IsRun(n, history) && flow == FlowAfter(n, history)
      ensures Coupled(n, r, history)
    {
    }

    /** The search changes nothing but p. */
    method SearchResidual(r: FlowNetwork, p: array<int>)
      returns (increment: int, ghost cut: set<int>, ghost path: seq<int>)
      requires Valid() && Partner(r) && p.Length == nodes && Idle(r.cap, source, r.repeated)
      requires forall u, v :: (u, v) in r.cap ==> r.cap[(u, v)] <= MAX_INT
      modifies p
      ensures Valid() && Partner(r)
      ensures increment >= 0
      ensures increment == 0 ==> Separates(r.cap, source, sink, cut)
      ensures increment > 0 ==> PathFound(r.cap, source, sink, p[..], increment, path)
    {
      ghost var cf;
      increment, cf, path := r.FindPath(p);
      cut := Found(cf);
    }

    /** Searches the residual network: either nothing leaves the cut, or p extends the run. */
    method NextPath(ghost n: Network, r: FlowNetwork, p: array<int>, ghost history: History)
      returns (increment: int, ghost cut: set<int>, ghost next: History, ghost vertices: nat)
      requires Coupled(n, r, history) && p.Length == nodes
      modifies p
      ensures Coupled(n, r, history) && increment >= 0
      ensures increment == 0 ==> Separates(r.cap, n.source, n.sink, cut)
      ensures increment > 0 ==> Extends(n, history, next, p[..], vertices, increment)
    {
      assert CoupledAt(n, r, history, 0) && SuitableAt(n, repeated, 0);
      RunBoundsResidual(n, history, r.cap);
      StillIdle(n, history, r.cap, repeated, r.repeated);
      ghost var path;
      increment, cut, path := SearchResidual(r, p);
      next, vertices := history, 0;
      if increment > 0 {
        next := ExtendHistory(n, history, r.cap, p[..], path, increment);
        vertices := |path|;
      }
    }
  }

  /** A run that ends with nothing leaving a cut has reached a maximum flow. */
  lemma RunIsMaximum(n: Network, history: History, rcap: map<Arc, int>, cut: set<int>)
    requires WellFormed(n) && IsRun(n, history) && Mirrors(rcap, n.cap, FlowAfter(n, history))
    requires Separates(rcap, n.source, n.sink, cut)
    ensures var f := FlowAfter(n, history);
      && Feasible(n, f) && Value(n, f) == Pushed(history)
      && (forall g :: Feasible(n, g) ==> Value(n, g) <= Pushed(history))
      && IsCut(n, cut) && CutCapacity(n, cut) == Pushed(history)
      && (forall v :: v in cut <==> Reachable(ResidualEdges(n, f), n.source, v))
    ensures Rounds(history) <= n.nodes * |n.cap|
  {
    RunBounded(n, history);
    RunFeasible(n, history);
    CutIsMaximum(n, FlowAfter(n, history), rcap, cut);
    SeparatesExactly(rcap, n.source, n.sink, cut);
    PositiveIsResidual(n, FlowAfter(n, history), rcap);
  }

  /** Following p from the sink pushes what the run's next augmentation does. */
  ghost predicate Extends(n: Network, history: History, next: History, p: seq<int>, vertices: nat, inc: int) {
    && IsRun(n, next) && Pushed(next) == Pushed(history) + inc
    && Rounds(history) < Rounds(next) <= n.nodes * |n.cap|
    && Pushes(n, history, next, p, vertices, inc)
  }

  ghost predicate Pushes(n: Network, history: History, next: History, p: seq<int>, vertices: nat, inc: int) {
    && Chain(n.cap, p, n.sink, vertices)
    && FlowAfter(n, next) == PushBack(FlowAfter(n, history), p, n.sink, vertices, inc)
  }

  /** The predecessors found describe an augmenting path, and following them pushes along it. */
  lemma PathToFollow(n: Network, f: Flow, rcap: map<Arc, int>, p: seq<int>, path: seq<int>, inc: int)
    requires WellFormed(n) && f.Keys == n.cap.Keys && Mirrors(rcap, n.cap, f)
    requires PathFound(rcap, n.source, n.sink, p, inc, path)
    ensures CanAugment(n, f, path, inc)
    ensures Chain(n.cap, p, n.sink, |path|)
    ensures PushBack(f, p, n.sink, |path|, inc) == PushPath(f, path, inc)
  {
    FoundIsAugmenting(n, f, rcap, p, path, inc);
    FoundIsLinked(rcap, n.source, n.sink, p, inc, path);
    FollowsWholePath(f, n.cap, p, path, n.sink, inc);
  }

  lemma FoundIsLinked(cap: map<Arc, int>, s: int, t: int, p: seq<int>, inc: int, path: seq<int>)
    requires PathFound(cap, s, t, p, inc, path)
    ensures |path| > 0 && path[|path| - 1] == t && Links(p, path)
  {
  }

  lemma FollowsWholePath(f: Flow, cap: map<Arc, int>, p: seq<int>, path: seq<int>, t: int, inc: int)
    requires Links(p, path) && Oriented(cap, path) && |path| > 0 && path[|path| - 1] == t
    ensures Chain(cap, p, t, |path|)
    ensures PushBack(f, p, t, |path|, inc) == PushPath(f, path, inc)
  {
    FollowsPath(f, cap, p, path, |path|, inc);
    assert path[..|path|] == path;
  }

  /** The path found extends the run by one augmentation. */
  lemma ExtendHistory(n: Network, history: History, rcap: map<Arc, int>, p: seq<int>, path: seq<int>, inc: int)
    returns (history': History)
    requires WellFormed(n) && IsRun(n, history) && Mirrors(rcap, n.cap, FlowAfter(n, history))
    requires PathFound(rcap, n.source, n.sink, p, inc, path)
    ensures Extends(n, history, history', p, |path|, inc)
  {
    history' := Augmented(history, path, inc);
    PathToFollow(n, FlowAfter(n, history), rcap, p, path, inc);
    RunExtend(n, history, path, inc);
    RunBounded(n, history');
  }

  lemma ResidualOfZero(n: Network, f: Flow, rcap: map<Arc, int>)
    requires WellFormed(n) && f.Keys == n.cap.Keys && forall e :: e in f ==> f[e] == 0
    requires rcap.Keys == ResidualKeys(n)
    requires forall u, v :: (u, v) in rcap ==> rcap[(u, v)] == BothWays(n.cap, f, u, v)
    ensures Mirrors(rcap, n.cap, f)
  {
    forall u, v
      ensures (u, v) in rcap <==> (u, v) in n.cap || (v, u) in n.cap
    {
      ResidualKeysMember(n, (u, v));
    }
  }

  lemma ZeroFlow(n: Network, f: Flow)
    requires f.Keys == n.cap.Keys && forall e :: e in f ==> f[e] == 0
    ensures f == FlowAfter(n, Fresh) && IsRun(n, Fresh)
  {
  }

  lemma RunBoundsResidual(n: Network, history: History, rcap: map<Arc, int>)
    requires WellFormed(n) && IsRun(n, history) && Mirrors(rcap, n.cap, FlowAfter(n, history))
    ensures forall u, v :: (u, v) in rcap ==> rcap[(u, v)] <= MAX_INT
  {
    RunFeasible(n, history);
    assert WithinCapacity(n, FlowAfter(n, history));
  }

  /** A second edge from u to v changes nothing: while the first is full, u is reached from v alone. */
  ghost predicate Blocked(n: Network, u: int, v: int) {
    (u, v) in n.cap && u != n.source &&
    forall f, w {:trigger Residual(n, f, (w, u))} ::
      Feasible(n, f) && f[(u, v)] == n.cap[(u, v)] && Residual(n, f, (w, u)) > 0 ==> w == v
  }

  ghost predicate Harmless(n: Network, repeated: set<Arc>) {
    forall u, v :: (u, v) in repeated ==> Blocked(n, u, v)
  }

  /** What the algorithm asks of the network; behind a dummy quantifier. */
  ghost predicate Suitable(n: Network, repeated: set<Arc>) { forall k: nat :: SuitableAt(n, repeated, k) }

  ghost predicate SuitableAt(n: Network, repeated: set<Arc>, k: nat) { WellFormed(n) && Harmless(n, repeated) }

  /** Along a run, edges repeated in the network lead the search nowhere new. */
  lemma StillIdle(n: Network, history: History, rcap: map<Arc, int>, repeated: set<Arc>, some: set<Arc>)
    requires WellFormed(n) && IsRun(n, history) && Mirrors(rcap, n.cap, FlowAfter(n, history))
    requires Harmless(n, repeated) && some <= repeated
    ensures Idle(rcap, n.source, some)
  {
    var f := FlowAfter(n, history);
    RunFeasible(n, history);
    forall u, v | (u, v) in some && (u, v) in rcap && rcap[(u, v)] <= 0
      ensures u != n.source && forall w :: (w, u) in rcap && rcap[(w, u)] > 0 ==> w == v
    {
      assert Blocked(n, u, v);
      FullEdge(n, f, rcap, u, v);
    }
  }

  lemma FullEdge(n: Network, f: Flow, rcap: map<Arc, int>, u: int, v: int)
    requires WellFormed(n) && Feasible(n, f) && Mirrors(rcap, n.cap, f) && Blocked(n, u, v)
    requires (u, v) in rcap && rcap[(u, v)] <= 0
    ensures forall w :: (w, u) in rcap && rcap[(w, u)] > 0 ==> w == v
  {
    MirrorsResidual(n, f, rcap);
    assert rcap[(u, v)] == Residual(n, f, (u, v));
    forall w | (w, u) in rcap && rcap[(w, u)] > 0
      ensures w == v
    {
      assert rcap[(w, u)] == Residual(n, f, (w, u));
    }
  }

  /** Positive residual capacities are exactly the residual edges. */
  lemma PositiveIsResidual(n: Network, f: Flow, rcap: map<Arc, int>)
    requires WellFormed(n) && f.Keys == n.cap.Keys && Mirrors(rcap, n.cap, f)
    ensures Positive(rcap) == ResidualEdges(n, f)
  {
    MirrorsResidual(n, f, rcap);
  }

  lemma FoundIsAugmenting(n: Network, f: Flow, rcap: map<Arc, int>, p: seq<int>, path: seq<int>, inc: int)
    requires WellFormed(n) && f.Keys == n.cap.Keys && Mirrors(rcap, n.cap, f)
    requires PathFound(rcap, n.source, n.sink, p, inc, path)
    ensures CanAugment(n, f, path, inc) && Oriented(n.cap, path)
  {
    PositiveIsResidual(n, f, rcap);
    MirrorsResidual(n, f, rcap);
    AugmentingOnEdges(n, f, path, inc);
    forall i: nat | i + 1 < |path|
      ensures (Hop(path, i) in n.cap) != (Reverse(Hop(path, i)) in n.cap)
    {
      var (u, v) := Hop(path, i);
      assert (u, v) in rcap;
    }
  }

  lemma CutIsMaximum(n: Network, f: Flow, rcap: map<Arc, int>, cut: set<int>)
    requires WellFormed(n) && Feasible(n, f) && Mirrors(rcap, n.cap, f)
    requires Separates(rcap, n.source, n.sink, cut)
    ensures IsCut(n, cut) && CutCapacity(n, cut) == Value(n, f)
    ensures forall g :: Feasible(n, g) ==> Value(n, g) <= Value(n, f)
  {
    MirrorsResidual(n, f, rcap);
    forall e | e in ResidualKeys(n) && e.0 in cut && Residual(n, f, e) > 0
      ensures e.1 in cut
    {
      var (u, v) := e;
      assert (u, v) in rcap;
    }
    NoResidualEdgeMeansMaximum(n, f, cut);
  }
}

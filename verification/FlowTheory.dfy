/**
 Flow networks as values: feasible flows, residual capacities, cuts, pushing flow along
 a path, and max-flow/min-cut optimality.
 */
module FlowTheory {
  import opened Totals
  import opened Walks

  type Arc = (int, int)
  type Flow = map<Arc, int>

  const MAX_INT := 0x7FFF_FFFF

  datatype Network = Network(nodes: nat, source: int, sink: int, cap: map<Arc, int>)

  function Reverse(e: Arc): Arc { (e.1, e.0) }

  /** At most one edge between two vertices, no loops, non-negative Java ints as capacities. */
  ghost predicate WellFormed(n: Network) {
    && 0 <= n.source < n.nodes && 0 <= n.sink < n.nodes && n.source != n.sink
    && forall u, v {:trigger (u, v) in n.cap} :: (u, v) in n.cap ==>
        && 0 <= u < n.nodes && 0 <= v < n.nodes && u != v
        && 0 <= n.cap[(u, v)] <= MAX_INT
        && (v, u) !in n.cap
  }

  lemma ArcBounds(n: Network, e: Arc)
    requires WellFormed(n) && e in n.cap
    ensures 0 <= e.0 < n.nodes && 0 <= e.1 < n.nodes && e.0 != e.1
    ensures 0 <= n.cap[e] <= MAX_INT && Reverse(e) !in n.cap
  {
    var (u, v) := e;
    assert (u, v) in n.cap;
  }

  ghost function EdgesFrom(f: Flow, s: set<int>): set<Arc> { set e | e in f && e.0 in s }

  ghost function EdgesInto(f: Flow, s: set<int>): set<Arc> { set e | e in f && e.1 in s }

  /** Flow out of a vertex minus flow into it. */
  ghost function Excess(f: Flow, v: int): int {
    Total(f, EdgesFrom(f, {v})) - Total(f, EdgesInto(f, {v}))
  }

  ghost predicate WithinCapacity(n: Network, f: Flow) {
    f.Keys == n.cap.Keys && forall e :: e in f ==> 0 <= f[e] <= n.cap[e]
  }

  /** Capacity bounds on every edge and conservation at every inner vertex. */
  ghost predicate Feasible(n: Network, f: Flow) {
    // one expression, so that the verifier need not prove its parts one by one
    var feasible := WithinCapacity(n, f) && forall v :: v != n.source && v != n.sink ==> Excess(f, v) == 0;
    feasible
  }

  ghost function Value(n: Network, f: Flow): int { Excess(f, n.source) }

  /** What can still be sent from e.0 to e.1: unused capacity, or flow that can be taken back. */
  ghost function Residual(n: Network, f: Flow, e: Arc): int
    requires f.Keys == n.cap.Keys
  {
    if e in n.cap then n.cap[e] - f[e]
    else if Reverse(e) in n.cap then f[Reverse(e)]
    else 0
  }

  ghost function ReverseAll(s: set<Arc>): (r: set<Arc>)
    ensures forall e :: e in r <==> Reverse(e) in s
    ensures |r| == |s|
    decreases |s|
  {
    if s == {} then {}
    else
      var e := Pick(s);
      ReverseAll(s - {e}) + {Reverse(e)}
  }

  ghost function ResidualKeys(n: Network): set<Arc> { n.cap.Keys + ReverseAll(n.cap.Keys) }

  /** The residual network: one entry for every edge and one for its reverse. */
  ghost function ResidualMap(n: Network, f: Flow): map<Arc, int>
    requires f.Keys == n.cap.Keys
  {
    map e | e in ResidualKeys(n) :: Residual(n, f, e)
  }

  lemma ResidualKeysMember(n: Network, e: Arc)
    ensures e in ResidualKeys(n) <==> e in n.cap || Reverse(e) in n.cap
  {
  }

  // ---------- Cuts ----------

  ghost predicate IsCut(n: Network, s: set<int>) { n.source in s && n.sink !in s }

  ghost function Crossing(f: Flow, s: set<int>): set<Arc> { set e | e in f && e.0 in s && e.1 !in s }

  ghost function Returning(f: Flow, s: set<int>): set<Arc> { set e | e in f && e.0 !in s && e.1 in s }

  ghost function CutCapacity(n: Network, s: set<int>): int { Total(n.cap, Crossing(n.cap, s)) }

  lemma ExcessSplit(f: Flow, s: set<int>, v: int)
    requires v in s
    ensures Total(f, EdgesFrom(f, s)) == Total(f, EdgesFrom(f, s - {v})) + Total(f, EdgesFrom(f, {v}))
    ensures Total(f, EdgesInto(f, s)) == Total(f, EdgesInto(f, s - {v})) + Total(f, EdgesInto(f, {v}))
  {
    assert EdgesFrom(f, s) == EdgesFrom(f, s - {v}) + EdgesFrom(f, {v});
    Disjoint(f, EdgesFrom(f, s - {v}), EdgesFrom(f, {v}));
    assert EdgesInto(f, s) == EdgesInto(f, s - {v}) + EdgesInto(f, {v});
    Disjoint(f, EdgesInto(f, s - {v}), EdgesInto(f, {v}));
  }

  lemma {:induction false} ExcessOfSet(n: Network, f: Flow, s: set<int>)
    requires Feasible(n, f) && n.sink !in s
    ensures Total(f, EdgesFrom(f, s)) - Total(f, EdgesInto(f, s)) == if n.source in s then Value(n, f) else 0
    decreases |s|
  {
    if s == {} {
      assert EdgesFrom(f, s) == {} && EdgesInto(f, s) == {};
    } else {
      var v := Pick(s);
      ExcessOfSet(n, f, s - {v});
      ExcessSplit(f, s, v);
      assert v != n.source ==> Excess(f, v) == 0;
    }
  }

  /** The flow across any cut, forward minus backward, is the value of the flow. */
  lemma FlowAcrossCut(n: Network, f: Flow, s: set<int>)
    requires Feasible(n, f) && IsCut(n, s)
    ensures Total(f, Crossing(f, s)) - Total(f, Returning(f, s)) == Value(n, f)
  {
    ExcessOfSet(n, f, s);
    var inside := set e | e in f && e.0 in s && e.1 in s;
    assert EdgesFrom(f, s) == Crossing(f, s) + inside;
    assert EdgesInto(f, s) == Returning(f, s) + inside;
    Disjoint(f, Crossing(f, s), inside);
    Disjoint(f, Returning(f, s), inside);
  }

  /** Weak duality: no feasible flow exceeds any cut. */
  lemma FlowBelowCut(n: Network, f: Flow, s: set<int>)
    requires Feasible(n, f) && IsCut(n, s)
    ensures Value(n, f) <= CutCapacity(n, s)
  {
    FlowAcrossCut(n, f, s);
    assert Crossing(n.cap, s) == Crossing(f, s);
    Monotone(f, n.cap, Crossing(f, s));
    Bounded(f, Returning(f, s), 0);
  }

  lemma SaturatedCut(n: Network, f: Flow, s: set<int>)
    requires WellFormed(n) && Feasible(n, f) && IsCut(n, s)
    requires forall e :: e in ResidualKeys(n) && e.0 in s && Residual(n, f, e) > 0 ==> e.1 in s
    ensures Value(n, f) == CutCapacity(n, s)
  {
    FlowAcrossCut(n, f, s);
    assert Crossing(n.cap, s) == Crossing(f, s);
    forall e | e in Crossing(f, s)
      ensures f[e] == n.cap[e]
    {
      ResidualKeysMember(n, e);
    }
    Agree(f, n.cap, Crossing(f, s));
    forall e | e in Returning(f, s)
      ensures f[e] == 0
    {
      NothingReturns(n, f, s, e);
    }
    Bounded(f, Returning(f, s), 0);
  }

  lemma NothingReturns(n: Network, f: Flow, s: set<int>, e: Arc)
    requires WellFormed(n) && Feasible(n, f) && e in Returning(f, s)
    requires forall k :: k in ResidualKeys(n) && k.0 in s && Residual(n, f, k) > 0 ==> k.1 in s
    ensures f[e] == 0
  {
    ArcBounds(n, e);
    ResidualKeysMember(n, Reverse(e));
    assert Reverse(Reverse(e)) == e;
    assert Residual(n, f, Reverse(e)) == f[e];
  }

  /** Max-flow/min-cut: when no residual edge leaves s, the flow is maximum and s is a minimum cut. */
  lemma NoResidualEdgeMeansMaximum(n: Network, f: Flow, s: set<int>)
    requires WellFormed(n) && Feasible(n, f) && IsCut(n, s)
    requires forall e :: e in ResidualKeys(n) && e.0 in s && Residual(n, f, e) > 0 ==> e.1 in s
    ensures Value(n, f) == CutCapacity(n, s)
    ensures forall g :: Feasible(n, g) ==> Value(n, g) <= Value(n, f)
    ensures forall t :: IsCut(n, t) ==> CutCapacity(n, s) <= CutCapacity(n, t)
  {
    SaturatedCut(n, f, s);
    forall g | Feasible(n, g)
      ensures Value(n, g) <= Value(n, f)
    {
      FlowBelowCut(n, g, s);
    }
    forall t | IsCut(n, t)
      ensures CutCapacity(n, s) <= CutCapacity(n, t)
    {
      FlowBelowCut(n, f, t);
    }
  }

  // ---------- Pushing flow ----------

  /** Send inc from u to v: on the edge (u, v) if the network has it, otherwise back along (v, u). */
  ghost function Push(f: Flow, u: int, v: int, inc: int): (g: Flow)
    ensures g.Keys == f.Keys
  {
    if (u, v) in f then f[(u, v) := f[(u, v)] + inc]
    else if (v, u) in f then f[(v, u) := f[(v, u)] + (-inc)]
    else f
  }

  ghost predicate OnEdges(f: Flow, path: seq<int>) {
    |path| >= 1 && forall i: nat :: i + 1 < |path| ==> Hop(path, i) in f || Reverse(Hop(path, i)) in f
  }

  /** Push along a whole path, last edge first. */
  ghost function PushPath(f: Flow, path: seq<int>, inc: int): (g: Flow)
    ensures g.Keys == f.Keys
    decreases |path|
  {
    if |path| < 2 then f
    else PushPath(Push(f, path[|path| - 2], path[|path| - 1], inc), path[..|path| - 1], inc)
  }

  lemma OnEdgesPrefix(f: Flow, g: Flow, path: seq<int>)
    requires OnEdges(f, path) && |path| > 1 && f.Keys == g.Keys
    ensures OnEdges(g, path[..|path| - 1])
  {
    var short := path[..|path| - 1];
    forall i: nat | i + 1 < |short|
      ensures Hop(short, i) in g || Reverse(Hop(short, i)) in g
    {
      assert Hop(short, i) == Hop(path, i);
    }
  }

  ghost function At(b: bool, x: int): int { if b then x else 0 }

  lemma PushExcess(f: Flow, u: int, v: int, inc: int, w: int)
    requires (u, v) in f || (v, u) in f
    requires u != v
    ensures Excess(Push(f, u, v, inc), w) == Excess(f, w) + At(w == u, inc) - At(w == v, inc)
  {
    var g := Push(f, u, v, inc);
    var e := if (u, v) in f then (u, v) else (v, u);
    assert EdgesFrom(g, {w}) == EdgesFrom(f, {w});
    assert EdgesInto(g, {w}) == EdgesInto(f, {w});
    Update(f, EdgesFrom(f, {w}), e, g[e]);
    Update(f, EdgesInto(f, {w}), e, g[e]);
  }

  /** Only the two ends of the path feel the push: inner vertices pass it on. */
  lemma {:induction false} PushPathExcess(f: Flow, path: seq<int>, inc: int, w: int)
    requires OnEdges(f, path) && Distinct(path)
    ensures Excess(PushPath(f, path, inc), w)
         == Excess(f, w) + At(w == path[0], inc) - At(w == path[|path| - 1], inc)
    decreases |path|
  {
    if |path| > 1 {
      var u, v := path[|path| - 2], path[|path| - 1];
      assert Hop(path, |path| - 2) == (u, v);
      OnEdgesPrefix(f, Push(f, u, v, inc), path);
      PushExcess(f, u, v, inc, w);
      PushPathExcess(Push(f, u, v, inc), path[..|path| - 1], inc, w);
    }
  }

  ghost predicate Distinct(path: seq<int>) {
    forall i, j :: 0 <= i < j < |path| ==> path[i] != path[j]
  }

  /** The edge e lies on the path, in the path's direction. */
  ghost predicate OnPath(path: seq<int>, e: Arc) {
    exists i: nat :: i + 1 < |path| && Hop(path, i) == e
  }

  lemma PushResidual(n: Network, f: Flow, u: int, v: int, inc: int, e: Arc)
    requires WellFormed(n) && f.Keys == n.cap.Keys
    requires (u, v) in f || (v, u) in f
    requires u != v
    ensures Residual(n, Push(f, u, v, inc), e)
         == Residual(n, f, e) - At(e == (u, v), inc) + At(e == (v, u), inc)
  {
  }

  lemma OnPathPrefix(path: seq<int>, e: Arc)
    requires |path| > 1 && Distinct(path)
    ensures OnPath(path, e) <==> OnPath(path[..|path| - 1], e) || e == (path[|path| - 2], path[|path| - 1])
    ensures OnPath(path[..|path| - 1], e) ==> e.1 != path[|path| - 1] && e.0 != path[|path| - 1]
  {
    var short, last := path[..|path| - 1], |path| - 2;
    if OnPath(path, e) {
      var i: nat :| i + 1 < |path| && Hop(path, i) == e;
      if i < last {
        assert Hop(short, i) == e;
      }
    }
    if OnPath(short, e) {
      var i: nat :| i + 1 < |short| && Hop(short, i) == e;
      assert Hop(path, i) == e;
    }
    assert Hop(path, last) == (path[last], path[last + 1]);
  }

  /** Residual capacity falls along the path, rises against it and stays the same elsewhere. */
  lemma {:induction false} PushPathResidual(n: Network, f: Flow, path: seq<int>, inc: int, e: Arc)
    requires WellFormed(n) && f.Keys == n.cap.Keys
    requires OnEdges(f, path) && Distinct(path)
    ensures Residual(n, PushPath(f, path, inc), e)
         == Residual(n, f, e) - At(OnPath(path, e), inc) + At(OnPath(path, Reverse(e)), inc)
    decreases |path|
  {
    if |path| > 1 {
      var u, v := path[|path| - 2], path[|path| - 1];
      assert Hop(path, |path| - 2) == (u, v);
      OnEdgesPrefix(f, Push(f, u, v, inc), path);
      var g := Push(f, u, v, inc);
      PushResidual(n, f, u, v, inc, e);
      PushPathResidual(n, g, path[..|path| - 1], inc, e);
      OnPathPrefix(path, e);
      OnPathPrefix(path, Reverse(e));
    }
  }

  /** No edge is on a path with distinct vertices in both directions. */
  lemma OneDirection(path: seq<int>, e: Arc)
    requires Distinct(path) && OnPath(path, e)
    ensures !OnPath(path, Reverse(e))
  {
    var i: nat :| i + 1 < |path| && Hop(path, i) == e;
    forall j: nat | j + 1 < |path|
      ensures Hop(path, j) != Reverse(e)
    {
    }
  }

  /** A path from source to sink on which every edge has residual capacity at least inc. */
  ghost predicate Augmenting(n: Network, f: Flow, path: seq<int>, inc: int)
    requires f.Keys == n.cap.Keys
  {
    && |path| >= 2 && path[0] == n.source && path[|path| - 1] == n.sink && Distinct(path)
    && inc > 0
    && forall i: nat :: i + 1 < |path| ==>
        Hop(path, i) in ResidualKeys(n) && inc <= Residual(n, f, Hop(path, i))
  }

  lemma AugmentingOnEdges(n: Network, f: Flow, path: seq<int>, inc: int)
    requires f.Keys == n.cap.Keys && Augmenting(n, f, path, inc)
    ensures OnEdges(f, path)
  {
    forall i: nat | i + 1 < |path|
      ensures Hop(path, i) in f || Reverse(Hop(path, i)) in f
    {
      ResidualKeysMember(n, Hop(path, i));
    }
  }

  lemma OnPathResidual(n: Network, f: Flow, path: seq<int>, inc: int, e: Arc)
    requires f.Keys == n.cap.Keys && Augmenting(n, f, path, inc) && OnPath(path, e)
    ensures inc <= Residual(n, f, e)
  {
    var i: nat :| i + 1 < |path| && Hop(path, i) == e;
  }

  lemma AugmentKeepsBounds(n: Network, f: Flow, path: seq<int>, inc: int, e: Arc)
    requires WellFormed(n) && WithinCapacity(n, f) && Augmenting(n, f, path, inc)
    requires OnEdges(f, path)
    requires e in f
    ensures 0 <= PushPath(f, path, inc)[e] <= n.cap[e]
  {
    PushPathResidual(n, f, path, inc, e);
    if OnPath(path, e) {
      OneDirection(path, e);
      OnPathResidual(n, f, path, inc, e);
    } else if OnPath(path, Reverse(e)) {
      OnPathResidual(n, f, path, inc, Reverse(e));
    }
  }

  /** Augmenting keeps the flow feasible and raises its value by exactly the increment. */
  lemma AugmentFeasible(n: Network, f: Flow, path: seq<int>, inc: int)
    requires WellFormed(n) && Feasible(n, f) && Augmenting(n, f, path, inc)
    requires OnEdges(f, path)
    ensures Feasible(n, PushPath(f, path, inc))
    ensures Value(n, PushPath(f, path, inc)) == Value(n, f) + inc
  {
    var g := PushPath(f, path, inc);
    forall e | e in g
      ensures 0 <= g[e] <= n.cap[e]
    {
      AugmentKeepsBounds(n, f, path, inc, e);
    }
    forall v | v != n.sink
      ensures Excess(g, v) == Excess(f, v) + At(v == n.source, inc)
    {
      PushPathExcess(f, path, inc, v);
    }
  }

  /** The zero flow is feasible and has value 0. */
  lemma ZeroFlowFeasible(n: Network, f: Flow)
    requires WellFormed(n) && f.Keys == n.cap.Keys && forall e :: e in f ==> f[e] == 0
    ensures Feasible(n, f) && Value(n, f) == 0
  {
    forall e | e in f
      ensures 0 <= f[e] <= n.cap[e]
    {
      ArcBounds(n, e);
    }
    forall v
      ensures Excess(f, v) == 0
    {
      Bounded(f, EdgesFrom(f, {v}), 0);
      Bounded(f, EdgesInto(f, {v}), 0);
    }
  }

  /** The map rcap holds exactly capacity minus flow forwards and flow backwards, for every edge. */
  ghost predicate Mirrors(rcap: map<Arc, int>, cap: map<Arc, int>, f: Flow) {
    && (forall u, v {:trigger (u, v) in rcap} {:trigger (u, v) in cap} ::
          ((u, v) in rcap <==> (u, v) in cap || (v, u) in cap))
    && (forall u, v {:trigger (u, v) in cap} :: (u, v) in cap && (u, v) in f && (u, v) in rcap && (v, u) in rcap ==>
          rcap[(u, v)] == cap[(u, v)] - f[(u, v)] && rcap[(v, u)] == f[(u, v)])
  }

  /** Resetting the residual entries of one edge keeps the mirror exact. */
  lemma MirrorStep(rcap: map<Arc, int>, cap: map<Arc, int>, f: Flow, g: Flow, u: int, v: int, c: int, x: int)
    requires Mirrors(rcap, cap, f) && f.Keys == cap.Keys
    requires (u, v) in cap && (v, u) !in cap && g.Keys == f.Keys
    requires forall i, j :: (i, j) in f && (i, j) != (u, v) ==> g[(i, j)] == f[(i, j)]
    requires c == cap[(u, v)] && x == g[(u, v)]
    ensures Mirrors(rcap[(u, v) := c - x][(v, u) := x], cap, g)
  {
  }

  lemma MirrorsResidual(n: Network, f: Flow, rcap: map<Arc, int>)
    requires WellFormed(n) && f.Keys == n.cap.Keys && Mirrors(rcap, n.cap, f)
    ensures rcap == ResidualMap(n, f)
  {
    forall e
      ensures e in rcap <==> e in ResidualKeys(n)
      ensures e in rcap ==> rcap[e] == Residual(n, f, e)
    {
      MirrorsAt(n, f, rcap, e.0, e.1);
    }
  }

  lemma MirrorsAt(n: Network, f: Flow, rcap: map<Arc, int>, u: int, v: int)
    requires WellFormed(n) && f.Keys == n.cap.Keys && Mirrors(rcap, n.cap, f)
    ensures (u, v) in rcap <==> (u, v) in ResidualKeys(n)
    ensures (u, v) in rcap ==> rcap[(u, v)] == Residual(n, f, (u, v))
  {
    ResidualKeysMember(n, (u, v));
    assert (v, u) in n.cap ==> (u, v) !in n.cap;
  }
}

/**
 Augmenting along shortest residual paths: residual distances from the source never
 fall, and the number of augmentations is bounded by nodes times edges, whatever the
 capacities are.
 */
module ShortestAugmentation {
  import opened Totals
  import opened Walks
  import opened FlowTheory

  ghost function ResidualEdges(n: Network, f: Flow): Edges
    requires f.Keys == n.cap.Keys
  {
    set e | e in ResidualKeys(n) && Residual(n, f, e) > 0
  }

  /** Distance from the source in the residual network; n.nodes when unreachable. */
  ghost function Depth(n: Network, f: Flow, v: int): nat
    requires f.Keys == n.cap.Keys
  {
    Dist(ResidualEdges(n, f), n.source, v, n.nodes)
  }

  /** An augmenting path whose i-th vertex is at distance i, with a bottleneck equal to inc. */
  ghost predicate ShortestAugmenting(n: Network, f: Flow, path: seq<int>, inc: int)
    requires f.Keys == n.cap.Keys
  {
    && Augmenting(n, f, path, inc)
    && (forall i: nat :: i < |path| ==> AtDistance(ResidualEdges(n, f), n.source, path, i))
    && (exists i: nat :: i + 1 < |path| && Residual(n, f, Hop(path, i)) == inc)
  }

  lemma {:induction false} DistinctBelow(path: seq<int>, n: nat)
    requires Distinct(path) && forall i :: 0 <= i < |path| ==> 0 <= path[i] < n
    ensures |path| <= n
  {
    Elements(path, Below(n));
  }

  lemma {:induction false} Elements(path: seq<int>, all: set<int>)
    requires Distinct(path) && forall i :: 0 <= i < |path| ==> path[i] in all
    ensures |path| <= |all|
    decreases |path|
  {
    if |path| > 0 {
      var k := |path| - 1;
      Elements(path[..k], all - {path[k]});
    }
  }

  ghost predicate CanAugment(n: Network, f: Flow, path: seq<int>, inc: int) {
    WellFormed(n) && f.Keys == n.cap.Keys && ShortestAugmenting(n, f, path, inc) && OnEdges(f, path)
  }

  lemma PathInRange(n: Network, f: Flow, path: seq<int>, inc: int)
    requires WellFormed(n) && f.Keys == n.cap.Keys && Augmenting(n, f, path, inc)
    ensures |path| <= n.nodes
  {
    forall i | 0 <= i < |path|
      ensures 0 <= path[i] < n.nodes
    {
      if i > 0 {
        assert Hop(path, i - 1) in ResidualKeys(n);
        ResidualKeysMember(n, Hop(path, i - 1));
      }
    }
    DistinctBelow(path, n.nodes);
  }

  lemma DepthOnPath(n: Network, f: Flow, path: seq<int>, inc: int, i: nat)
    requires WellFormed(n) && f.Keys == n.cap.Keys && ShortestAugmenting(n, f, path, inc)
    requires i < |path|
    ensures Depth(n, f, path[i]) == i
  {
    PathInRange(n, f, path, inc);
    assert AtDistance(ResidualEdges(n, f), n.source, path, i);
    DistOfDistance(ResidualEdges(n, f), n.source, path[i], i, n.nodes);
  }

  /** An edge on the path goes down by exactly one level. */
  lemma DepthOfPathEdge(n: Network, f: Flow, path: seq<int>, inc: int, e: Arc)
    requires WellFormed(n) && f.Keys == n.cap.Keys && ShortestAugmenting(n, f, path, inc)
    requires OnPath(path, e)
    ensures Depth(n, f, e.1) == Depth(n, f, e.0) + 1 < n.nodes
  {
    var i: nat :| i + 1 < |path| && Hop(path, i) == e;
    DepthOnPath(n, f, path, inc, i);
    DepthOnPath(n, f, path, inc, i + 1);
    PathInRange(n, f, path, inc);
  }

  /** New residual edges are reversals of path edges; only path edges can disappear. */
  lemma EdgeChange(n: Network, f: Flow, path: seq<int>, inc: int, e: Arc)
    requires WellFormed(n) && f.Keys == n.cap.Keys && Augmenting(n, f, path, inc)
    requires OnEdges(f, path)
    ensures var g := PushPath(f, path, inc);
      && (e in ResidualEdges(n, g) ==> e in ResidualEdges(n, f) || OnPath(path, Reverse(e)))
      && (e in ResidualEdges(n, f) ==> e in ResidualEdges(n, g) || OnPath(path, e))
  {
    PushPathResidual(n, f, path, inc, e);
  }

  /** Old depths still grow by at most one along every new residual edge. */
  lemma DepthOverNewEdge(n: Network, f: Flow, path: seq<int>, inc: int, e: Arc)
    requires CanAugment(n, f, path, inc)
    requires e in ResidualEdges(n, PushPath(f, path, inc))
    ensures Depth(n, f, e.1) <= Depth(n, f, e.0) + 1
  {
    EdgeChange(n, f, path, inc, e);
    if e in ResidualEdges(n, f) {
      DistAlongEdge(ResidualEdges(n, f), n.source, e.0, e.1, n.nodes);
    } else {
      DepthOfPathEdge(n, f, path, inc, Reverse(e));
    }
  }

  /** Residual distances never fall from one augmentation to the next. */
  lemma DepthNeverFalls(n: Network, f: Flow, path: seq<int>, inc: int, v: int)
    requires CanAugment(n, f, path, inc)
    ensures Depth(n, f, v) <= Depth(n, PushPath(f, path, inc), v)
  {
    var es, es' := ResidualEdges(n, f), ResidualEdges(n, PushPath(f, path, inc));
    forall e | e in es'
      ensures Dist(es, n.source, e.1, n.nodes) <= Dist(es, n.source, e.0, n.nodes) + 1
    {
      DepthOverNewEdge(n, f, path, inc, e);
    }
    DistNeverFalls(es, es', n.source, v, n.nodes);
  }

  // ---------- The number of augmentations ----------

  /**
   How often each residual edge was the bottleneck: an edge that is present has been one at
   most half its tail's depth, an absent one at most half of one more than its head's depth.
   */
  ghost predicate CountOk(n: Network, f: Flow, e: Arc, k: int)
    requires f.Keys == n.cap.Keys
  {
    && 0 <= 2 * k <= n.nodes
    && 2 * k <= (if e in ResidualEdges(n, f) then Depth(n, f, e.0) else Depth(n, f, e.1) + 1)
  }

  ghost predicate BottleneckCount(n: Network, f: Flow, count: map<Arc, int>)
    requires f.Keys == n.cap.Keys
  {
    count.Keys == ResidualKeys(n) && CountsOk(n, f, count)
  }

  ghost predicate CountsOk(n: Network, f: Flow, count: map<Arc, int>)
    requires f.Keys == n.cap.Keys
  {
    forall e :: e in count ==> CountOk(n, f, e, count[e])
  }

  lemma CountOkAfter(n: Network, f: Flow, path: seq<int>, inc: int, e: Arc, k: int)
    requires CanAugment(n, f, path, inc)
    requires CountOk(n, f, e, k)
    ensures CountOk(n, PushPath(f, path, inc), e, k)
  {
    EdgeChange(n, f, path, inc, e);
    DepthNeverFalls(n, f, path, inc, e.0);
    DepthNeverFalls(n, f, path, inc, e.1);
    if OnPath(path, e) {
      DepthOfPathEdge(n, f, path, inc, e);
    }
    if OnPath(path, Reverse(e)) {
      DepthOfPathEdge(n, f, path, inc, Reverse(e));
    }
  }

  /** A bottleneck disappears, so it may be counted once more. */
  lemma BottleneckVanishes(n: Network, f: Flow, path: seq<int>, inc: int, c: Arc, k: int)
    requires CanAugment(n, f, path, inc)
    requires OnPath(path, c) && Residual(n, f, c) == inc
    requires CountOk(n, f, c, k)
    ensures c !in ResidualEdges(n, PushPath(f, path, inc))
    ensures CountOk(n, PushPath(f, path, inc), c, k + 1)
  {
    OneDirection(path, c);
    PushPathResidual(n, f, path, inc, c);
    DepthOfPathEdge(n, f, path, inc, c);
    DepthNeverFalls(n, f, path, inc, c.1);
  }

  lemma BottleneckEdge(n: Network, f: Flow, path: seq<int>, inc: int) returns (c: Arc)
    requires f.Keys == n.cap.Keys && ShortestAugmenting(n, f, path, inc)
    ensures c in ResidualKeys(n) && OnPath(path, c) && Residual(n, f, c) == inc
  {
    var i: nat :| i + 1 < |path| && Residual(n, f, Hop(path, i)) == inc;
    c := Hop(path, i);
  }

  lemma CountsOkAfter(n: Network, f: Flow, path: seq<int>, inc: int, count: map<Arc, int>)
    requires CanAugment(n, f, path, inc) && CountsOk(n, f, count)
    ensures CountsOk(n, PushPath(f, path, inc), count)
  {
    forall e | e in count
      ensures CountOk(n, PushPath(f, path, inc), e, count[e])
    {
      CountOkAfter(n, f, path, inc, e, count[e]);
    }
  }

  lemma CountsOkBump(n: Network, g: Flow, count: map<Arc, int>, c: Arc)
    requires g.Keys == n.cap.Keys && CountsOk(n, g, count)
    requires c in count && CountOk(n, g, c, count[c] + 1)
    ensures CountsOk(n, g, count[c := count[c] + 1])
  {
  }

  lemma Charge(n: Network, f: Flow, path: seq<int>, inc: int, count: map<Arc, int>) returns (c: Arc)
    requires CanAugment(n, f, path, inc) && BottleneckCount(n, f, count)
    ensures c in count && CountsOk(n, PushPath(f, path, inc), count[c := count[c] + 1])
  {
    c := BottleneckEdge(n, f, path, inc);
    CountsOkAfter(n, f, path, inc, count);
    BottleneckVanishes(n, f, path, inc, c, count[c]);
    CountsOkBump(n, PushPath(f, path, inc), count, c);
  }

  /** Every augmentation can be charged to one bottleneck edge. */
  lemma BottleneckStep(n: Network, f: Flow, path: seq<int>, inc: int, count: map<Arc, int>)
    returns (count': map<Arc, int>)
    requires CanAugment(n, f, path, inc) && BottleneckCount(n, f, count)
    ensures BottleneckCount(n, PushPath(f, path, inc), count')
    ensures Total(count', count'.Keys) == Total(count, count.Keys) + 1
  {
    var c := Charge(n, f, path, inc, count);
    count' := Bump(count, c);
  }

  lemma Bump(count: map<Arc, int>, c: Arc) returns (count': map<Arc, int>)
    requires c in count
    ensures count' == count[c := count[c] + 1] && count'.Keys == count.Keys
    ensures Total(count', count'.Keys) == Total(count, count.Keys) + 1
  {
    count' := count[c := count[c] + 1];
    assert count'.Keys == count.Keys;
    Update(count, count.Keys, c, count[c] + 1);
  }

  lemma TotalOfZeros(count: map<Arc, int>, keys: set<Arc>)
    requires count.Keys == keys && forall e :: e in count ==> count[e] == 0
    ensures Total(count, keys) == 0
  {
    Bounded(count, keys, 0);
  }

  lemma BottleneckStart(n: Network, f: Flow) returns (count: map<Arc, int>)
    requires f.Keys == n.cap.Keys
    ensures BottleneckCount(n, f, count) && Total(count, count.Keys) == 0
  {
    var keys := ResidualKeys(n);
    count := map e | e in keys :: 0;
    TotalOfZeros(count, keys);
  }

  /** The charges, hence the augmentations, number at most nodes times edges. */
  lemma BottleneckBound(n: Network, f: Flow, count: map<Arc, int>)
    requires f.Keys == n.cap.Keys && BottleneckCount(n, f, count)
    ensures Total(count, count.Keys) <= n.nodes * |n.cap|
  {
    var half := n.nodes / 2;
    ResidualKeysSize(n);
    forall e | e in count
      ensures count[e] <= half
    {
      assert CountOk(n, f, e, count[e]);
    }
    Bounded(count, ResidualKeys(n), half);
    HalfBound(|ResidualKeys(n)|, |n.cap|, n.nodes);
  }

  lemma ResidualKeysSize(n: Network)
    ensures |ResidualKeys(n)| <= 2 * |n.cap|
  {
    assert |n.cap.Keys| == |n.cap|;
  }

  lemma ProductGrows(x: nat, y: nat, z: nat)
    requires x <= y
    ensures x * z <= y * z && z * x <= z * y
  {
    assert (y - x) * z >= 0;
  }

  lemma TwiceHalf(x: nat, half: nat)
    ensures 2 * x * half == 2 * half * x
  {
  }

  lemma HalfBound(keys: nat, edges: nat, nodes: nat)
    requires keys <= 2 * edges
    ensures keys * (nodes / 2) <= nodes * edges
  {
    var half := nodes / 2;
    ProductGrows(keys, 2 * edges, half);
    TwiceHalf(edges, half);
    ProductGrows(2 * half, nodes, edges);
  }

  // ---------- Runs of the augmentation loop ----------

  /** The augmentations made so far, the latest outermost. */
  datatype History = Fresh | Augmented(before: History, path: seq<int>, inc: int)

  ghost function Rounds(h: History): nat {
    match h
    case Fresh => 0
    case Augmented(b, _, _) => Rounds(b) + 1
  }

  ghost function Pushed(h: History): int {
    match h
    case Fresh => 0
    case Augmented(b, _, inc) => Pushed(b) + inc
  }

  /** The flow a history leads to from the zero flow. */
  ghost function FlowAfter(n: Network, h: History): (f: Flow)
    ensures f.Keys == n.cap.Keys
  {
    match h
    case Fresh => map e | e in n.cap :: 0
    case Augmented(b, path, inc) => PushPath(FlowAfter(n, b), path, inc)
  }

  /** b is an earlier stage of h, or h itself. */
  ghost predicate Stage(b: History, h: History) {
    b == h || (h.Augmented? && Stage(b, h.before))
  }

  /** Every augmentation used a shortest augmenting path and its bottleneck. */
  ghost predicate IsRun(n: Network, h: History) {
    forall b, path, inc :: Stage(Augmented(b, path, inc), h) ==> CanAugment(n, FlowAfter(n, b), path, inc)
  }

  lemma RunBefore(n: Network, h: History)
    requires IsRun(n, h) && h.Augmented?
    ensures IsRun(n, h.before) && CanAugment(n, FlowAfter(n, h.before), h.path, h.inc)
  {
    assert Stage(Augmented(h.before, h.path, h.inc), h);
    forall b, path, inc | Stage(Augmented(b, path, inc), h.before)
      ensures CanAugment(n, FlowAfter(n, b), path, inc)
    {
      assert Stage(Augmented(b, path, inc), h);
    }
  }

  lemma RunExtend(n: Network, b: History, path: seq<int>, inc: int)
    requires IsRun(n, b) && CanAugment(n, FlowAfter(n, b), path, inc)
    ensures IsRun(n, Augmented(b, path, inc))
  {
  }

  /** Every flow a run reaches is feasible, and its value is the sum of the increments. */
  lemma {:induction false} RunFeasible(n: Network, h: History)
    requires WellFormed(n) && IsRun(n, h)
    ensures Feasible(n, FlowAfter(n, h)) && Value(n, FlowAfter(n, h)) == Pushed(h)
  {
    match h
    case Fresh =>
      ZeroFlowFeasible(n, FlowAfter(n, h));
    case Augmented(b, path, inc) =>
      RunBefore(n, h);
      RunFeasible(n, b);
      AugmentFeasible(n, FlowAfter(n, b), path, inc);
  }

  lemma {:induction false} RunCount(n: Network, h: History) returns (count: map<Arc, int>)
    requires WellFormed(n) && IsRun(n, h)
    ensures BottleneckCount(n, FlowAfter(n, h), count) && Total(count, count.Keys) == Rounds(h)
  {
    match h
    case Fresh =>
      count := BottleneckStart(n, FlowAfter(n, h));
    case Augmented(b, path, inc) =>
      RunBefore(n, h);
      count := RunCount(n, b);
      count := BottleneckStep(n, FlowAfter(n, b), path, inc, count);
  }

  /** No run makes more than nodes times edges augmentations, whatever the capacities. */
  lemma RunBounded(n: Network, h: History)
    requires WellFormed(n) && IsRun(n, h)
    ensures Rounds(h) <= n.nodes * |n.cap|
  {
    var count := RunCount(n, h);
    BottleneckBound(n, FlowAfter(n, h), count);
  }

  /** Over a whole run, no vertex ever gets closer to the source in the residual network. */
  lemma {:induction false} RunDepths(n: Network, b: History, h: History, v: int)
    requires WellFormed(n) && IsRun(n, h) && Stage(b, h)
    ensures Depth(n, FlowAfter(n, b), v) <= Depth(n, FlowAfter(n, h), v)
  {
    if b != h {
      RunBefore(n, h);
      RunDepths(n, b, h.before, v);
      DepthNeverFalls(n, FlowAfter(n, h.before), h.path, h.inc, v);
    }
  }
}

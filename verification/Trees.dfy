/**
 Trees as connected graphs with one edge fewer than vertices: a leaf can always be removed,
 distances satisfy the four-point condition, and a vertex farthest from anywhere ends a
 longest path.
 */
module Trees {
  import opened Totals
  import opened Walks

  ghost predicate Connected(vs: set<int>, es: Edges) {
    forall u, v :: u in vs && v in vs ==> exists k: nat :: Reaches(es, u, v, k)
  }

  ghost predicate Symmetric(es: Edges) {
    forall u, v {:trigger (u, v) in es} :: (u, v) in es ==> (v, u) in es
  }

  /** Undirected edges appear in both directions, so a tree has 2 (|vs| - 1) directed ones. */
  ghost predicate IsTree(vs: set<int>, es: Edges) {
    && vs != {} && Symmetric(es) && Connected(vs, es)
    && (forall u, v {:trigger (u, v) in es} :: (u, v) in es ==> u in vs && v in vs)
    && |es| == 2 * (|vs| - 1)
  }

  /** The number of edges of a shortest walk, and 0 when there is none. */
  ghost function Distance(es: Edges, s: int, v: int): (d: nat)
    ensures forall k: nat :: Reaches(es, s, v, k) ==> IsDistance(es, s, v, d)
  {
    if k: nat :| Reaches(es, s, v, k) then Dist(es, s, v, k + 1) else 0
  }

  lemma DistanceReached(vs: set<int>, es: Edges, s: int, v: int)
    requires Connected(vs, es) && s in vs && v in vs
    ensures IsDistance(es, s, v, Distance(es, s, v))
  {
  }

  lemma SameDistance(es: Edges, s: int, v: int, d: nat)
    requires IsDistance(es, s, v, d)
    ensures Distance(es, s, v) == d
  {
    assert IsDistance(es, s, v, Distance(es, s, v));
  }

  // ---------- Reversing and shortening walks ----------

  ghost function Backwards(w: seq<int>): (r: seq<int>)
    ensures |r| == |w| && forall i :: 0 <= i < |w| ==> r[i] == w[|w| - 1 - i]
  {
    seq(|w|, i requires 0 <= i < |w| => w[|w| - 1 - i])
  }

  lemma ReachesBack(es: Edges, s: int, v: int, k: nat)
    requires Symmetric(es) && Reaches(es, s, v, k)
    ensures Reaches(es, v, s, k)
  {
    var w :| Joins(es, s, v, w) && |w| == k + 1;
    var r := Backwards(w);
    forall i: nat | i + 1 < |r|
      ensures Hop(r, i) in es
    {
      var j := |w| - 2 - i;
      assert Hop(w, j) in es && Hop(w, j) == (w[j], w[j + 1]);
      assert Hop(r, i) == (w[j + 1], w[j]);
    }
    assert Joins(es, v, s, r);
  }

  lemma DistanceSymmetric(vs: set<int>, es: Edges, s: int, v: int)
    requires Connected(vs, es) && Symmetric(es) && s in vs && v in vs
    ensures Distance(es, s, v) == Distance(es, v, s)
  {
    DistanceReached(vs, es, s, v);
    DistanceReached(vs, es, v, s);
    ReachesBack(es, s, v, Distance(es, s, v));
    ReachesBack(es, v, s, Distance(es, v, s));
  }

  lemma ReachesVia(es: Edges, s: int, u: int, v: int, j: nat, k: nat)
    requires Reaches(es, s, u, j) && Reaches(es, u, v, k)
    ensures Reaches(es, s, v, j + k)
  {
    var w :| Joins(es, s, u, w) && |w| == j + 1;
    var x :| Joins(es, u, v, x) && |x| == k + 1;
    var y := w + x[1..];
    forall i: nat | i + 1 < |y|
      ensures Hop(y, i) in es
    {
      if i + 1 < |w| {
        assert Hop(y, i) == Hop(w, i);
      } else {
        assert Hop(y, i) == Hop(x, i - j);
      }
    }
    assert Joins(es, s, v, y);
  }

  /** l hangs on p: the only edges at l lead to and from p. */
  ghost predicate IsLeaf(es: Edges, l: int, p: int) {
    && l != p && (l, p) in es && (p, l) in es
    && (forall v {:trigger (l, v) in es} :: (l, v) in es ==> v == p)
    && (forall v {:trigger (v, l) in es} :: (v, l) in es ==> v == p)
  }

  ghost function Without(es: Edges, l: int, p: int): Edges { es - {(l, p), (p, l)} }

  /** A walk between other vertices need not visit a leaf. */
  lemma {:induction false} AvoidLeaf(es: Edges, l: int, p: int, s: int, v: int, k: nat)
    requires IsLeaf(es, l, p) && s != l && v != l && Reaches(es, s, v, k)
    ensures exists j: nat :: j <= k && Reaches(Without(es, l, p), s, v, j)
    decreases k
  {
    var w :| Joins(es, s, v, w) && |w| == k + 1;
    if i :| 0 <= i < |w| && w[i] == l {
      assert Hop(w, i - 1) == (w[i - 1], l) && Hop(w, i) == (l, w[i + 1]);
      assert w[i - 1] == p && w[i + 1] == p;
      var x := w[..i] + w[i + 2..];
      forall j: nat | j + 1 < |x|
        ensures Hop(x, j) in es
      {
        if j + 1 < i {
          assert Hop(x, j) == Hop(w, j);
        } else {
          assert Hop(x, j) == Hop(w, j + 2);
        }
      }
      assert Joins(es, s, v, x) && |x| == k - 1;
      AvoidLeaf(es, l, p, s, v, k - 2);
    } else {
      forall i: nat | i + 1 < |w|
        ensures Hop(w, i) in Without(es, l, p)
      {
        assert Hop(w, i) == (w[i], w[i + 1]);
      }
      assert Joins(Without(es, l, p), s, v, w);
      assert Reaches(Without(es, l, p), s, v, k);
    }
  }

  lemma ReachesInMore(es: Edges, es': Edges, s: int, v: int, k: nat)
    requires es <= es' && Reaches(es, s, v, k)
    ensures Reaches(es', s, v, k)
  {
    var w :| Joins(es, s, v, w) && |w| == k + 1;
    forall i: nat | i + 1 < |w|
      ensures Hop(w, i) in es'
    {
      assert Hop(w, i) in es;
    }
    assert Joins(es', s, v, w);
  }

  /** Removing a leaf changes no distance between the other vertices. */
  lemma DistanceWithoutLeaf(es: Edges, l: int, p: int, s: int, v: int, d: nat)
    requires IsLeaf(es, l, p) && s != l && v != l && IsDistance(es, s, v, d)
    ensures IsDistance(Without(es, l, p), s, v, d)
  {
    AvoidLeaf(es, l, p, s, v, d);
    var j: nat :| j <= d && Reaches(Without(es, l, p), s, v, j);
    forall k: nat | Reaches(Without(es, l, p), s, v, k)
      ensures d <= k
    {
      ReachesInMore(Without(es, l, p), es, s, v, k);
    }
  }

  /** A leaf is one step further away than the vertex it hangs on. */
  lemma DistanceToLeaf(es: Edges, l: int, p: int, s: int, d: nat)
    requires IsLeaf(es, l, p) && s != l && IsDistance(es, s, l, d)
    ensures d > 0 && IsDistance(es, s, p, d - 1)
  {
    ReachesNowhereElse(es, s, l);
    var u := LastStep(es, s, l, d - 1);
    assert u == p;
    forall k: nat | Reaches(es, s, p, k)
      ensures d - 1 <= k
    {
      ReachesStep(es, s, p, l, k);
    }
  }

  // ---------- Every tree has a leaf ----------

  ghost function From(es: Edges, s: set<int>): Edges { set e | e in es && e.0 in s }

  lemma {:induction false} DegreeSum(es: Edges, s: set<int>, degree: map<int, int>)
    requires degree.Keys == s && forall v :: v in s ==> degree[v] == |From(es, {v})|
    ensures Total(degree, s) == |From(es, s)|
    decreases |s|
  {
    if s == {} {
      assert From(es, s) == {};
    } else {
      var v := Pick(s);
      SplitKey(degree, s, v);
      var rest := degree - {v};
      DegreeSum(es, s - {v}, rest);
      Agree(degree, rest, s - {v});
      assert From(es, s) == From(es, s - {v}) + From(es, {v});
    }
  }

  /** Twice as many edges as vertices would be needed for every vertex to have two. */
  lemma SmallDegree(vs: set<int>, es: Edges) returns (v: int)
    requires IsTree(vs, es)
    ensures v in vs && |From(es, {v})| <= 1
  {
    var degree := map u | u in vs :: |From(es, {u})|;
    DegreeSum(es, vs, degree);
    assert From(es, vs) == es by {
      forall e | e in es
        ensures e.0 in vs
      {
        var (a, b) := e;
        assert (a, b) in es;
      }
    }
    v := SomeBelow(degree, vs, 2);
  }

  lemma HasNeighbour(vs: set<int>, es: Edges, v: int) returns (p: int)
    requires IsTree(vs, es) && v in vs && |vs| > 1
    ensures (v, p) in es && p != v
  {
    assert |vs - {v}| == |vs| - 1;
    var u := Pick(vs - {v});
    p := LeavesItself(es, v, u, Distance(es, u, v));
  }

  lemma {:induction false} LeavesItself(es: Edges, v: int, u: int, k: nat) returns (p: int)
    requires Symmetric(es) && u != v && Reaches(es, u, v, k)
    ensures (v, p) in es && p != v
    decreases k
  {
    var w :| Joins(es, u, v, w) && |w| == k + 1;
    var x := LastStep(es, u, v, k - 1);
    if x != v {
      p := x;
    } else {
      p := LeavesItself(es, v, u, k - 1);
    }
  }

  lemma TreeHasLeaf(vs: set<int>, es: Edges) returns (l: int, p: int)
    requires IsTree(vs, es) && |vs| > 1
    ensures l in vs && p in vs && IsLeaf(es, l, p)
  {
    l := SmallDegree(vs, es);
    p := HasNeighbour(vs, es, l);
    assert (l, p) in From(es, {l});
    forall v | (l, v) in es
      ensures v == p
    {
      assert (l, v) in From(es, {l});
      if v != p {
        assert {(l, v), (l, p)} <= From(es, {l});
        SubsetSize({(l, v), (l, p)}, From(es, {l}));
      }
    }
  }

  lemma RemoveLeaf(vs: set<int>, es: Edges, l: int, p: int)
    requires IsTree(vs, es) && IsLeaf(es, l, p) && l in vs && p in vs
    ensures IsTree(vs - {l}, Without(es, l, p))
  {
    var es' := Without(es, l, p);
    forall u, v | u in vs - {l} && v in vs - {l}
      ensures exists k: nat :: Reaches(es', u, v, k)
    {
      DistanceWithoutLeaf(es, l, p, u, v, Distance(es, u, v));
    }
    assert |es'| == |es| - 2;
  }

  // ---------- The four-point condition ----------

  lemma DistanceToSelf(es: Edges, s: int)
    ensures Distance(es, s, s) == 0
  {
    ReachesSelf(es, s);
  }

  lemma Triangle(vs: set<int>, es: Edges, x: int, y: int, z: int)
    requires Connected(vs, es) && x in vs && y in vs && z in vs
    ensures Distance(es, x, z) <= Distance(es, x, y) + Distance(es, y, z)
  {
    DistanceReached(vs, es, x, y);
    DistanceReached(vs, es, y, z);
    ReachesVia(es, x, y, z, Distance(es, x, y), Distance(es, y, z));
  }

  /** The vertex a leaf hangs on stands for the leaf in the smaller tree. */
  ghost function Anchor(l: int, p: int, x: int): int { if x == l then p else x }

  ghost function Hanging(l: int, x: int): int { if x == l then 1 else 0 }

  lemma DistanceByAnchor(vs: set<int>, es: Edges, l: int, p: int, x: int, y: int)
    requires IsTree(vs, es) && IsLeaf(es, l, p) && p in vs && x in vs && y in vs && x != y
    ensures Distance(es, x, y)
         == Distance(Without(es, l, p), Anchor(l, p, x), Anchor(l, p, y)) + Hanging(l, x) + Hanging(l, y)
    decreases Hanging(l, x)
  {
    if x == l {
      DistanceSymmetric(vs, es, x, y);
      DistanceByAnchor(vs, es, l, p, y, x);
      RemoveLeaf(vs, es, l, p);
      DistanceSymmetric(vs - {l}, Without(es, l, p), p, y);
    } else {
      DistanceReached(vs, es, x, y);
      var d := Distance(es, x, y);
      if y == l {
        DistanceToLeaf(es, l, p, x, d);
        DistanceWithoutLeaf(es, l, p, x, p, d - 1);
        SameDistance(Without(es, l, p), x, p, d - 1);
      } else {
        DistanceWithoutLeaf(es, l, p, x, y, d);
        SameDistance(Without(es, l, p), x, y, d);
      }
    }
  }

  ghost predicate FourPoint(es: Edges, x: int, y: int, z: int, w: int) {
    || Distance(es, x, y) + Distance(es, z, w) <= Distance(es, x, z) + Distance(es, y, w)
    || Distance(es, x, y) + Distance(es, z, w) <= Distance(es, x, w) + Distance(es, y, z)
  }

  lemma FourPointCoinciding(vs: set<int>, es: Edges, x: int, y: int, z: int, w: int)
    requires IsTree(vs, es) && {x, y, z, w} <= vs
    requires x == y || x == z || x == w || y == z || y == w || z == w
    ensures FourPoint(es, x, y, z, w)
  {
    DistanceToSelf(es, x);
    DistanceToSelf(es, z);
    DistanceSymmetric(vs, es, x, y);
    DistanceSymmetric(vs, es, x, z);
    DistanceSymmetric(vs, es, y, z);
    DistanceSymmetric(vs, es, y, w);
    DistanceSymmetric(vs, es, x, w);
    DistanceSymmetric(vs, es, z, w);
    Triangle(vs, es, z, x, w);
    Triangle(vs, es, x, z, y);
  }

  /** In a tree, of the three ways to pair four vertices, no one is longer than both others. */
  lemma {:induction false} FourPoints(vs: set<int>, es: Edges, x: int, y: int, z: int, w: int)
    requires IsTree(vs, es) && {x, y, z, w} <= vs
    ensures FourPoint(es, x, y, z, w)
    decreases |vs|
  {
    if x == y || x == z || x == w || y == z || y == w || z == w {
      FourPointCoinciding(vs, es, x, y, z, w);
    } else {
      SubsetSize({x, y}, vs);
      var l, p := TreeHasLeaf(vs, es);
      RemoveLeaf(vs, es, l, p);
      FourPoints(vs - {l}, Without(es, l, p), Anchor(l, p, x), Anchor(l, p, y), Anchor(l, p, z), Anchor(l, p, w));
      DistanceByAnchor(vs, es, l, p, x, y);
      DistanceByAnchor(vs, es, l, p, z, w);
      DistanceByAnchor(vs, es, l, p, x, z);
      DistanceByAnchor(vs, es, l, p, y, w);
      DistanceByAnchor(vs, es, l, p, x, w);
      DistanceByAnchor(vs, es, l, p, y, z);
    }
  }

  /** A vertex farthest from s ends a longest path: no two vertices are further apart than u and one of them. */
  lemma FarthestEndsLongest(vs: set<int>, es: Edges, s: int, u: int, x: int, y: int)
    requires IsTree(vs, es) && {s, u, x, y} <= vs
    requires forall v :: v in vs ==> Distance(es, s, v) <= Distance(es, s, u)
    ensures Distance(es, x, y) <= Distance(es, u, x) || Distance(es, x, y) <= Distance(es, u, y)
  {
    FourPoints(vs, es, x, y, s, u);
    DistanceSymmetric(vs, es, x, s);
    DistanceSymmetric(vs, es, y, s);
    DistanceSymmetric(vs, es, x, u);
    DistanceSymmetric(vs, es, y, u);
  }
}

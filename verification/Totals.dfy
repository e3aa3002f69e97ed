/**
 Totals of an integer map over a finite set of its keys, and lists without repetition, with the few
 laws that the flow and counting arguments need.
 */
module Totals {

  ghost function Total<K>(m: map<K, int>, s: set<K>): int
    requires s <= m.Keys
  {
    if s == {} then 0
    else
      var k :| k in s;
      m[k] + Total(m, s - {k})
  }

  ghost function Below(n: nat): (s: set<int>)
    ensures forall i :: i in s <==> 0 <= i < n
    ensures |s| == n
  {
    if n == 0 then {} else Below(n - 1) + {n - 1}
  }

  ghost function Pick<K>(s: set<K>): (k: K)
    requires s != {}
    ensures k in s
  {
    var k :| k in s;
    k
  }

  /** Any key may be split off first. */
  lemma {:induction false} SplitKey<K>(m: map<K, int>, s: set<K>, k: K)
    requires s <= m.Keys && k in s
    ensures Total(m, s) == m[k] + Total(m, s - {k})
    decreases |s|
  {
    var j :| j in s && Total(m, s) == m[j] + Total(m, s - {j});
    if j != k {
      SplitKey(m, s - {j}, k);
      SplitKey(m, s - {k}, j);
      assert s - {j} - {k} == s - {k} - {j};
    }
  }

  /** Totals over disjoint sets add up. */
  lemma {:induction false} Disjoint<K>(m: map<K, int>, s: set<K>, t: set<K>)
    requires s <= m.Keys && t <= m.Keys && s !! t
    ensures Total(m, s + t) == Total(m, s) + Total(m, t)
    decreases |t|
  {
    if t == {} {
      assert s + t == s;
    } else {
      var k :| k in t;
      SplitKey(m, t, k);
      SplitKey(m, s + t, k);
      assert s + t - {k} == s + (t - {k});
      Disjoint(m, s, t - {k});
    }
  }

  /** A total depends only on the values at its keys. */
  lemma {:induction false} Agree<K>(m: map<K, int>, n: map<K, int>, s: set<K>)
    requires s <= m.Keys && s <= n.Keys
    requires forall k :: k in s ==> m[k] == n[k]
    ensures Total(m, s) == Total(n, s)
    decreases |s|
  {
    if s != {} {
      var k :| k in s;
      SplitKey(m, s, k);
      SplitKey(n, s, k);
      Agree(m, n, s - {k});
    }
  }

  /** Changing one value changes the total by the difference, if the key takes part. */
  lemma {:induction false} Update<K>(m: map<K, int>, s: set<K>, k: K, x: int)
    requires s <= m.Keys && k in m
    ensures Total(m[k := x], s) == Total(m, s) + (if k in s then x - m[k] else 0)
  {
    var n := m[k := x];
    if k in s {
      SplitKey(m, s, k);
      SplitKey(n, s, k);
      Agree(m, n, s - {k});
    } else {
      Agree(m, n, s);
    }
  }

  /** Pointwise order carries over to totals; equal totals force equal values. */
  lemma {:induction false} Monotone<K>(m: map<K, int>, n: map<K, int>, s: set<K>)
    requires s <= m.Keys && s <= n.Keys
    requires forall k :: k in s ==> m[k] <= n[k]
    ensures Total(m, s) <= Total(n, s)
    ensures Total(m, s) == Total(n, s) ==> forall k :: k in s ==> m[k] == n[k]
    decreases |s|
  {
    if s != {} {
      var k :| k in s;
      SplitKey(m, s, k);
      SplitKey(n, s, k);
      Monotone(m, n, s - {k});
    }
  }

  lemma OneFewer<K>(s: set<K>, k: K, b: int)
    requires k in s
    ensures |s| * b == |s - {k}| * b + b
  {
    var n := |s - {k}|;
    assert |s| == n + 1;
    assert (n + 1) * b == n * b + b;
  }

  /** A total of values no larger than b is at most b for every key; of ones, the number of keys. */
  lemma {:induction false} Bounded<K>(m: map<K, int>, s: set<K>, b: int)
    requires s <= m.Keys
    ensures (forall k :: k in s ==> m[k] <= b) ==> Total(m, s) <= |s| * b
    ensures (forall k :: k in s ==> m[k] >= b) ==> Total(m, s) >= |s| * b
    decreases |s|
  {
    if s != {} {
      var k :| k in s;
      SplitKey(m, s, k);
      Bounded(m, s - {k}, b);
      OneFewer(s, k, b);
    }
  }

  /** A total below the average leaves some value below it. */
  lemma {:induction false} SomeBelow<K>(m: map<K, int>, s: set<K>, b: int) returns (k: K)
    requires s <= m.Keys && Total(m, s) < |s| * b
    ensures k in s && m[k] < b
    decreases |s|
  {
    k := Pick(s);
    if m[k] >= b {
      SplitKey(m, s, k);
      OneFewer(s, k, b);
      k := SomeBelow(m, s - {k}, b);
    }
  }

  /** With zeros everywhere else, the total is the one value. */
  lemma OnlyOne<K>(m: map<K, int>, s: set<K>, k: K)
    requires s <= m.Keys && k in s && forall j :: j in s && j != k ==> m[j] == 0
    ensures Total(m, s) == m[k]
  {
    SplitKey(m, s, k);
    Bounded(m, s - {k}, 0);
  }

  /** Two values cannot exceed a total of non-negative values. */
  lemma OneOf<K>(m: map<K, int>, s: set<K>, k: K)
    requires s <= m.Keys && k in s && forall i :: i in s ==> m[i] >= 0
    ensures Total(m, s) >= m[k]
  {
    SplitKey(m, s, k);
    Bounded(m, s - {k}, 0);
  }

  lemma TwoOf<K>(m: map<K, int>, s: set<K>, j: K, k: K)
    requires s <= m.Keys && j in s && k in s && j != k && forall i :: i in s ==> m[i] >= 0
    ensures Total(m, s) >= m[j] + m[k]
  {
    SplitKey(m, s, j);
    SplitKey(m, s - {j}, k);
    Bounded(m, s - {j} - {k}, 0);
  }

  lemma SubsetSize<K>(s: set<K>, t: set<K>)
    requires s <= t
    ensures |s| <= |t|
  {
    assert t == s + (t - s);
  }

  // ---------- Lists without repetition ----------

  predicate NoDuplicates(list: seq<int>) { forall i, j :: 0 <= i < j < |list| ==> list[i] != list[j] }

  lemma FrontLeaves(list: seq<int>)
    requires NoDuplicates(list) && list != []
    ensures NoDuplicates(list[1..]) && forall x :: x in list[1..] <==> x in list && x != list[0]
  {
    assert list == [list[0]] + list[1..];
  }

  lemma {:induction false} DistinctElements(list: seq<int>)
    requires NoDuplicates(list)
    ensures |set x | x in list| == |list|
  {
    if list != [] {
      FrontLeaves(list);
      DistinctElements(list[1..]);
      assert (set x | x in list) == (set x | x in list[1..]) + {list[0]};
    }
  }

  lemma NoDuplicatesSize(list: seq<int>, s: set<int>)
    requires NoDuplicates(list) && forall x :: x in list ==> x in s
    ensures |list| <= |s|
  {
    DistinctElements(list);
    SubsetSize((set x | x in list), s);
  }
}

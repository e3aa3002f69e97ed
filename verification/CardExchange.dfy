/**
 The card-exchange decision: participants who declare to whom they would give their card,
 the bipartite network built from the declarations, and what its maximum flow decides.
 */
module CardExchange {
  import opened Totals
  import opened FlowTheory
  import opened FlowNetworks

  /** giver would hand the card to receiver. */
  datatype Declaration = Declaration(giver: int, receiver: int)

  ghost predicate InRange(n: nat, declared: set<Declaration>) {
    forall d :: d in declared ==> 0 <= d.giver < n && 0 <= d.receiver < n
  }

  /** Nobody gives twice and nobody receives twice. */
  ghost predicate IsExchange(declared: set<Declaration>, m: set<Declaration>) {
    m <= declared && forall c, d :: c in m && d in m ==> (c.giver == d.giver <==> c.receiver == d.receiver)
  }

  ghost predicate IsPermutation(p: seq<int>, n: nat) {
    |p| == n && (forall i :: 0 <= i < n ==> 0 <= p[i] < n) && (forall i, j :: 0 <= i < j < n ==> p[i] != p[j])
  }

  /** Every participant i gives to p[i], as declared. */
  ghost predicate Uses(declared: set<Declaration>, p: seq<int>) {
    forall i :: 0 <= i < |p| ==> Declaration(i, p[i]) in declared
  }

  // Vertices: participant i as giver is i, as receiver n + i; the source is 2n, the sink 2n + 1.
  ghost predicate IsEdge(n: nat, declared: set<Declaration>, u: int, v: int) {
    || (u == 2 * n && 0 <= v < n)
    || (v == 2 * n + 1 && n <= u < 2 * n)
    || (0 <= u < n && n <= v < 2 * n && Declaration(u, v - n) in declared)
  }

  /** The network built from the declarations: exactly those edges, all of capacity 1. */
  ghost predicate IsExchangeNet(net: Network, n: nat, declared: set<Declaration>) {
    && InRange(n, declared)
    && net.nodes == 2 * n + 2 && net.source == 2 * n && net.sink == 2 * n + 1
    && (forall u, v {:trigger (u, v) in net.cap} :: (u, v) in net.cap <==> IsEdge(n, declared, u, v))
    && (forall e :: e in net.cap ==> net.cap[e] == 1)
  }

  lemma ExchangeNetWellFormed(net: Network, n: nat, declared: set<Declaration>)
    requires IsExchangeNet(net, n, declared)
    ensures WellFormed(net)
  {
  }

  ghost function Give(n: nat, d: Declaration): Arc { (d.giver, n + d.receiver) }

  /** The declarations whose edge carries flow. */
  ghost function Matched(n: nat, declared: set<Declaration>, f: Flow): set<Declaration> {
    set d | d in declared && Give(n, d) in f && f[Give(n, d)] > 0
  }

  ghost predicate IsExchangeFlow(net: Network, n: nat, declared: set<Declaration>, f: Flow) {
    IsExchangeNet(net, n, declared) && Feasible(net, f)
  }

  lemma EdgeFlow(net: Network, n: nat, declared: set<Declaration>, f: Flow, u: int, v: int)
    requires IsExchangeFlow(net, n, declared, f)
    ensures (u, v) in f <==> IsEdge(n, declared, u, v)
    ensures (u, v) in f ==> 0 <= f[(u, v)] <= 1
  {
  }

  ghost predicate OnNet(net: Network, n: nat, declared: set<Declaration>, f: Flow) {
    IsExchangeNet(net, n, declared) && f.Keys == net.cap.Keys
  }

  lemma IntoGiver(net: Network, n: nat, declared: set<Declaration>, f: Flow, a: int)
    requires OnNet(net, n, declared, f) && 0 <= a < n
    ensures (2 * n, a) in f && EdgesInto(f, {a}) == {(2 * n, a)}
  {
    assert IsEdge(n, declared, 2 * n, a);
    forall e | e in f && e.1 == a
      ensures e.0 == 2 * n
    {
      var (u, v) := e;
      assert (u, v) in net.cap;
    }
  }

  lemma FromReceiver(net: Network, n: nat, declared: set<Declaration>, f: Flow, b: int)
    requires OnNet(net, n, declared, f) && n <= b < 2 * n
    ensures (b, 2 * n + 1) in f && EdgesFrom(f, {b}) == {(b, 2 * n + 1)}
  {
    assert IsEdge(n, declared, b, 2 * n + 1);
    forall e | e in f && e.0 == b
      ensures e.1 == 2 * n + 1
    {
      var (u, v) := e;
      assert (u, v) in net.cap;
    }
  }

  lemma AcrossTheMiddle(net: Network, n: nat, declared: set<Declaration>, f: Flow)
    requires OnNet(net, n, declared, f)
    ensures Crossing(f, Below(n) + {2 * n}) == Gives(n, declared)
    ensures Returning(f, Below(n) + {2 * n}) == {}
  {
    var s := Below(n) + {2 * n};
    forall e | e in f
      ensures e !in Returning(f, s)
      ensures e in Crossing(f, s) ==> e in Gives(n, declared)
    {
      ArcSides(net, n, declared, f, e);
    }
    forall d | d in declared
      ensures Give(n, d) in Crossing(f, s)
    {
      assert IsEdge(n, declared, d.giver, n + d.receiver);
    }
  }

  lemma ArcSides(net: Network, n: nat, declared: set<Declaration>, f: Flow, e: Arc)
    requires OnNet(net, n, declared, f) && e in f
    ensures e.1 in Below(n) + {2 * n} ==> e.0 in Below(n) + {2 * n}
    ensures e.0 in Below(n) + {2 * n} && e.1 !in Below(n) + {2 * n} ==> e in Gives(n, declared)
  {
    var (u, v) := e;
    assert IsEdge(n, declared, u, v);
    var d := Declaration(u, v - n);
    assert d in declared ==> Give(n, d) == e;
  }

  // ---------- From a flow to an exchange ----------

  lemma GiverOnce(net: Network, n: nat, declared: set<Declaration>, f: Flow, c: Declaration, d: Declaration)
    requires IsExchangeFlow(net, n, declared, f)
    requires c in Matched(n, declared, f) && d in Matched(n, declared, f) && c.giver == d.giver
    ensures c == d
  {
    var a := c.giver;
    IntoGiver(net, n, declared, f, a);
    OnlyOne(f, EdgesInto(f, {a}), (2 * n, a));
    EdgeFlow(net, n, declared, f, 2 * n, a);
    assert Excess(f, a) == 0;
    if c != d {
      TwoOf(f, EdgesFrom(f, {a}), Give(n, c), Give(n, d));
    }
  }

  lemma ReceiverOnce(net: Network, n: nat, declared: set<Declaration>, f: Flow, c: Declaration, d: Declaration)
    requires IsExchangeFlow(net, n, declared, f)
    requires c in Matched(n, declared, f) && d in Matched(n, declared, f) && c.receiver == d.receiver
    ensures c == d
  {
    var b := n + c.receiver;
    OneCardFrom(net, n, declared, f, b);
    if c != d {
      assert Give(n, c) in EdgesInto(f, {b}) && Give(n, d) in EdgesInto(f, {b}) && Give(n, c) != Give(n, d);
      TwoOf(f, EdgesInto(f, {b}), Give(n, c), Give(n, d));
    }
  }

  lemma OneCardFrom(net: Network, n: nat, declared: set<Declaration>, f: Flow, b: int)
    requires IsExchangeFlow(net, n, declared, f) && n <= b < 2 * n
    ensures Total(f, EdgesInto(f, {b})) <= 1
  {
    FromReceiver(net, n, declared, f, b);
    OnlyOne(f, EdgesFrom(f, {b}), (b, 2 * n + 1));
    EdgeFlow(net, n, declared, f, b, 2 * n + 1);
    assert Excess(f, b) == 0;
  }

  ghost function Gives(n: nat, ds: set<Declaration>): set<Arc> { set d | d in ds :: Give(n, d) }

  lemma {:induction false} CountGives(n: nat, f: Flow, ds: set<Declaration>)
    requires forall d :: d in ds ==> Give(n, d) in f && 0 <= f[Give(n, d)] <= 1
    ensures Gives(n, ds) <= f.Keys
    ensures Total(f, Gives(n, ds)) == |Matched(n, ds, f)|
    decreases |ds|
  {
    if ds == {} {
      assert Gives(n, ds) == {} && Matched(n, ds, f) == {};
    } else {
      var d := Pick(ds);
      CountGives(n, f, ds - {d});
      GivesSplit(n, ds, d);
      MatchedSplit(n, f, ds, d);
      SplitKey(f, Gives(n, ds), Give(n, d));
    }
  }

  lemma GivesSplit(n: nat, ds: set<Declaration>, d: Declaration)
    requires d in ds
    ensures Give(n, d) in Gives(n, ds) && Gives(n, ds) - {Give(n, d)} == Gives(n, ds - {d})
  {
  }

  lemma MatchedSplit(n: nat, f: Flow, ds: set<Declaration>, d: Declaration)
    requires d in ds && forall c :: c in ds ==> Give(n, c) in f
    ensures |Matched(n, ds, f)| == |Matched(n, ds - {d}, f)| + if f[Give(n, d)] > 0 then 1 else 0
  {
    assert Matched(n, ds, f) == Matched(n, ds - {d}, f) + if f[Give(n, d)] > 0 then {d} else {};
  }

  /** The flow crosses from the givers to the receivers exactly over the declarations it uses. */
  lemma ValueCountsMatched(net: Network, n: nat, declared: set<Declaration>, f: Flow)
    requires IsExchangeFlow(net, n, declared, f)
    ensures Value(net, f) == |Matched(n, declared, f)|
  {
    FlowAcrossCut(net, f, Below(n) + {2 * n});
    AcrossTheMiddle(net, n, declared, f);
    forall d | d in declared
      ensures Give(n, d) in f && 0 <= f[Give(n, d)] <= 1
    {
      EdgeFlow(net, n, declared, f, d.giver, n + d.receiver);
    }
    CountGives(n, f, declared);
  }

  /** Every feasible flow describes an exchange as large as its value. */
  lemma FlowIsExchange(net: Network, n: nat, declared: set<Declaration>, f: Flow)
    requires IsExchangeFlow(net, n, declared, f)
    ensures IsExchange(declared, Matched(n, declared, f))
    ensures |Matched(n, declared, f)| == Value(net, f)
  {
    ValueCountsMatched(net, n, declared, f);
    forall c, d | c in Matched(n, declared, f) && d in Matched(n, declared, f)
      ensures c.giver == d.giver <==> c.receiver == d.receiver
    {
      if c.giver == d.giver {
        GiverOnce(net, n, declared, f, c, d);
      }
      if c.receiver == d.receiver {
        ReceiverOnce(net, n, declared, f, c, d);
      }
    }
  }

  // ---------- From an exchange to a flow ----------

  ghost predicate GivesIn(m: set<Declaration>, a: int) { exists d :: d in m && d.giver == a }

  ghost predicate ReceivesIn(m: set<Declaration>, b: int) { exists d :: d in m && d.receiver == b }

  /** One card along every chosen declaration and along its giver's and receiver's own edges. */
  ghost predicate Carries(n: nat, m: set<Declaration>, u: int, v: int) {
    if u == 2 * n then GivesIn(m, v) else if v == 2 * n + 1 then ReceivesIn(m, u - n) else Declaration(u, v - n) in m
  }

  ghost function FlowOf(net: Network, n: nat, m: set<Declaration>): (f: Flow)
    ensures f.Keys == net.cap.Keys
  {
    map e | e in net.cap :: if Carries(n, m, e.0, e.1) then 1 else 0
  }

  lemma FlowOfEdge(net: Network, n: nat, declared: set<Declaration>, m: set<Declaration>, u: int, v: int)
    requires IsExchangeNet(net, n, declared)
    ensures var f := FlowOf(net, n, m);
      && ((u, v) in f <==> IsEdge(n, declared, u, v))
      && ((u, v) in f ==> f[(u, v)] == if Carries(n, m, u, v) then 1 else 0)
  {
  }

  /** Among the edges touching one participant, only its own exchange carries a card. */
  lemma OwnExchange(net: Network, n: nat, declared: set<Declaration>, m: set<Declaration>, d: Declaration, e: Arc)
    requires IsExchangeNet(net, n, declared) && IsExchange(declared, m) && d in m
    requires e in FlowOf(net, n, m) && e.0 != 2 * n && e.1 != 2 * n + 1
    requires (e.0 == d.giver) || (e.1 == n + d.receiver)
    ensures FlowOf(net, n, m)[e] == if e == Give(n, d) then 1 else 0
  {
    var (u, v) := e;
    FlowOfEdge(net, n, declared, m, u, v);
    var c := Declaration(u, v - n);
    assert c in m ==> c == d;
  }

  lemma NoExchange(net: Network, n: nat, declared: set<Declaration>, m: set<Declaration>, v: int)
    requires IsExchangeNet(net, n, declared) && 0 <= v < 2 * n
    ensures v < n && !GivesIn(m, v) ==> Total(FlowOf(net, n, m), EdgesFrom(FlowOf(net, n, m), {v})) == 0
    ensures v >= n && !ReceivesIn(m, v - n) ==> Total(FlowOf(net, n, m), EdgesInto(FlowOf(net, n, m), {v})) == 0
  {
    var f := FlowOf(net, n, m);
    if v < n && !GivesIn(m, v) {
      forall e | e in EdgesFrom(f, {v})
        ensures f[e] == 0
      {
        var (a, b) := e;
        FlowOfEdge(net, n, declared, m, a, b);
      }
      Bounded(f, EdgesFrom(f, {v}), 0);
    }
    if v >= n && !ReceivesIn(m, v - n) {
      forall e | e in EdgesInto(f, {v})
        ensures f[e] == 0
      {
        var (a, b) := e;
        FlowOfEdge(net, n, declared, m, a, b);
      }
      Bounded(f, EdgesInto(f, {v}), 0);
    }
  }

  lemma OneExchange(net: Network, n: nat, declared: set<Declaration>, m: set<Declaration>, d: Declaration)
    requires IsExchangeNet(net, n, declared) && IsExchange(declared, m) && d in m
    ensures Total(FlowOf(net, n, m), EdgesFrom(FlowOf(net, n, m), {d.giver})) == 1
    ensures Total(FlowOf(net, n, m), EdgesInto(FlowOf(net, n, m), {n + d.receiver})) == 1
  {
    var f := FlowOf(net, n, m);
    forall e | e in f && (e.0 == d.giver || e.1 == n + d.receiver)
      ensures f[e] == if e == Give(n, d) then 1 else 0
    {
      var (a, b) := e;
      FlowOfEdge(net, n, declared, m, a, b);
      OwnExchange(net, n, declared, m, d, e);
    }
    FlowOfEdge(net, n, declared, m, d.giver, n + d.receiver);
    OnlyOne(f, EdgesFrom(f, {d.giver}), Give(n, d));
    OnlyOne(f, EdgesInto(f, {n + d.receiver}), Give(n, d));
  }

  lemma Balanced(net: Network, n: nat, declared: set<Declaration>, m: set<Declaration>, v: int)
    requires IsExchangeNet(net, n, declared) && IsExchange(declared, m) && 0 <= v < 2 * n
    ensures Excess(FlowOf(net, n, m), v) == 0
  {
    var f := FlowOf(net, n, m);
    if v < n {
      if GivesIn(m, v) {
        var d :| d in m && d.giver == v;
        OneExchange(net, n, declared, m, d);
      } else {
        NoExchange(net, n, declared, m, v);
      }
      IntoGiver(net, n, declared, f, v);
      OnlyOne(f, EdgesInto(f, {v}), (2 * n, v));
    } else {
      if ReceivesIn(m, v - n) {
        var d :| d in m && d.receiver == v - n;
        OneExchange(net, n, declared, m, d);
      } else {
        NoExchange(net, n, declared, m, v);
      }
      FromReceiver(net, n, declared, f, v);
      OnlyOne(f, EdgesFrom(f, {v}), (v, 2 * n + 1));
    }
  }

  lemma Outside(net: Network, n: nat, declared: set<Declaration>, f: Flow, v: int)
    requires OnNet(net, n, declared, f) && !(0 <= v < 2 * n + 2)
    ensures Excess(f, v) == 0
  {
    forall e | e in f
      ensures e.0 != v && e.1 != v
    {
      var (a, b) := e;
      assert IsEdge(n, declared, a, b);
    }
    assert EdgesFrom(f, {v}) == {} && EdgesInto(f, {v}) == {};
  }

  /** Every exchange is the image of a feasible flow of its size. */
  lemma ExchangeIsFlow(net: Network, n: nat, declared: set<Declaration>, m: set<Declaration>)
    requires IsExchangeNet(net, n, declared) && IsExchange(declared, m)
    ensures IsExchangeFlow(net, n, declared, FlowOf(net, n, m))
    ensures Value(net, FlowOf(net, n, m)) == |m|
  {
    var f := FlowOf(net, n, m);
    forall v | v != 2 * n && v != 2 * n + 1
      ensures Excess(f, v) == 0
    {
      if 0 <= v < 2 * n {
        Balanced(net, n, declared, m, v);
      } else {
        Outside(net, n, declared, f, v);
      }
    }
    ValueCountsMatched(net, n, declared, f);
    MatchedOfFlow(net, n, declared, m);
  }

  lemma MatchedOfFlow(net: Network, n: nat, declared: set<Declaration>, m: set<Declaration>)
    requires IsExchangeNet(net, n, declared) && m <= declared
    ensures Matched(n, declared, FlowOf(net, n, m)) == m
  {
    forall d | d in declared
      ensures d in Matched(n, declared, FlowOf(net, n, m)) <==> d in m
    {
      FlowOfEdge(net, n, declared, m, d.giver, n + d.receiver);
    }
  }

  // ---------- A full exchange is a permutation ----------

  ghost function Givers(m: set<Declaration>): set<int> { set d | d in m :: d.giver }

  lemma {:induction false} GiversSize(declared: set<Declaration>, m: set<Declaration>)
    requires IsExchange(declared, m)
    ensures |Givers(m)| == |m|
    decreases |m|
  {
    if m == {} {
      assert Givers(m) == {};
    } else {
      var d := Pick(m);
      GiversSize(declared, m - {d});
      assert Givers(m) == Givers(m - {d}) + {d.giver};
    }
  }

  lemma SameSize(s: set<int>, t: set<int>)
    requires s <= t && |s| == |t|
    ensures s == t
  {
    assert t == s + (t - s);
    assert |t - s| == 0;
  }

  ghost function ReceiverFrom(m: set<Declaration>, i: int): int {
    if GivesIn(m, i) then
      var d :| d in m && d.giver == i;
      d.receiver
    else -1
  }

  lemma ExchangeIsPermutation(n: nat, declared: set<Declaration>, m: set<Declaration>) returns (p: seq<int>)
    requires InRange(n, declared) && IsExchange(declared, m) && |m| == n
    ensures IsPermutation(p, n) && Uses(declared, p)
  {
    GiversSize(declared, m);
    SameSize(Givers(m), Below(n));
    p := seq(n, i => ReceiverFrom(m, i));
    forall i | 0 <= i < n
      ensures Declaration(i, p[i]) in m
    {
      assert i in Givers(m);
    }
    forall i, j | 0 <= i < j < n
      ensures p[i] != p[j]
    {
      assert Declaration(i, p[i]) in m && Declaration(j, p[j]) in m;
    }
  }

  ghost function Pairs(p: seq<int>): set<Declaration> {
    if |p| == 0 then {} else Pairs(p[..|p| - 1]) + {Declaration(|p| - 1, p[|p| - 1])}
  }

  lemma {:induction false} PairsMember(p: seq<int>, d: Declaration)
    ensures d in Pairs(p) <==> 0 <= d.giver < |p| && p[d.giver] == d.receiver
  {
    if |p| > 0 {
      PairsMember(p[..|p| - 1], d);
    }
  }

  lemma {:induction false} PairsSize(p: seq<int>)
    ensures |Pairs(p)| == |p|
  {
    if |p| > 0 {
      PairsSize(p[..|p| - 1]);
      PairsMember(p[..|p| - 1], Declaration(|p| - 1, p[|p| - 1]));
    }
  }

  lemma PairsExchange(declared: set<Declaration>, n: nat, p: seq<int>)
    requires IsPermutation(p, n) && Uses(declared, p)
    ensures IsExchange(declared, Pairs(p)) && |Pairs(p)| == n
  {
    PairsSize(p);
    forall d | d in Pairs(p)
      ensures 0 <= d.giver < n && p[d.giver] == d.receiver
    {
      PairsMember(p, d);
    }
  }

  /** The whole group can exchange cards exactly when a permutation uses only declared pairs. */
  lemma FullExchangeIffPermutation(n: nat, declared: set<Declaration>)
    requires InRange(n, declared)
    ensures (exists m :: IsExchange(declared, m) && |m| == n) <==>
      (exists p :: IsPermutation(p, n) && Uses(declared, p))
  {
    if m :| IsExchange(declared, m) && |m| == n {
      var p := ExchangeIsPermutation(n, declared, m);
    }
    if p :| IsPermutation(p, n) && Uses(declared, p) {
      PairsExchange(declared, n, p);
    }
  }

  // ---------- The decision ----------

  ghost function Listed(declarations: seq<Declaration>): set<Declaration> { set d | d in declarations }

  /** k is the size of a largest exchange. */
  ghost predicate IsLargestExchange(declared: set<Declaration>, k: int) {
    && (exists m :: IsExchange(declared, m) && |m| == k)
    && (forall m :: IsExchange(declared, m) ==> |m| <= k)
  }

  lemma MaximumFlowIsLargest(net: Network, n: nat, declared: set<Declaration>, f: Flow)
    requires IsExchangeFlow(net, n, declared, f)
    requires forall g :: Feasible(net, g) ==> Value(net, g) <= Value(net, f)
    ensures IsLargestExchange(declared, Value(net, f))
  {
    FlowIsExchange(net, n, declared, f);
    forall m | IsExchange(declared, m)
      ensures |m| <= Value(net, f)
    {
      ExchangeIsFlow(net, n, declared, m);
    }
  }

  lemma FullWhenLargest(n: nat, declared: set<Declaration>, k: int)
    requires InRange(n, declared) && IsLargestExchange(declared, k)
    ensures k == n <==> exists p :: IsPermutation(p, n) && Uses(declared, p)
  {
    FullExchangeIffPermutation(n, declared);
    forall m | IsExchange(declared, m)
      ensures |m| <= n
    {
      GiversSize(declared, m);
      assert Givers(m) <= Below(n);
      SubsetSize(Givers(m), Below(n));
    }
  }

  /** A giver whose card goes to one receiver is reached, along edges with room, from that receiver alone. */
  lemma GivenAway(net: Network, n: nat, declared: set<Declaration>, f: Flow, d: Declaration, w: int)
    requires IsExchangeFlow(net, n, declared, f) && d in declared && f[Give(n, d)] == 1
    requires Residual(net, f, (w, d.giver)) > 0
    ensures w == n + d.receiver
  {
    var a := d.giver;
    IntoGiver(net, n, declared, f, a);
    OnlyOne(f, EdgesInto(f, {a}), (2 * n, a));
    EdgeFlow(net, n, declared, f, 2 * n, a);
    assert Excess(f, a) == 0;
    assert d in Matched(n, declared, f);
    EdgeFlow(net, n, declared, f, w, a);
    EdgeFlow(net, n, declared, f, a, w);
    if (a, w) in f {
      var c := Declaration(a, w - n);
      assert c in Matched(n, declared, f);
      GiverOnce(net, n, declared, f, c, d);
    } else {
      OneOf(f, EdgesFrom(f, {a}), Give(n, d));
    }
  }

  /** A declaration repeated changes nothing: its second edge is never the way to anybody new. */
  lemma RepeatsHarmless(net: Network, n: nat, declared: set<Declaration>, repeated: set<Arc>)
    requires IsExchangeNet(net, n, declared) && repeated <= Gives(n, declared)
    ensures Harmless(net, repeated)
  {
    forall u, v | (u, v) in repeated
      ensures Blocked(net, u, v)
    {
      var d :| d in declared && Give(n, d) == (u, v);
      assert IsEdge(n, declared, u, v);
      forall f, w | Feasible(net, f) && f[(u, v)] == net.cap[(u, v)] && Residual(net, f, (w, u)) > 0
        ensures w == v
      {
        GivenAway(net, n, declared, f, d, w);
      }
    }
  }

  /** The edges added for the first i participants and for the declarations ds, all new and of capacity 1. */
  ghost predicate Built(cap: map<Arc, int>, flow: Flow, n: nat, i: int, ds: set<Declaration>) {
    && (forall u, v {:trigger (u, v) in cap} :: (u, v) in cap <==>
          || (u == 2 * n && 0 <= v < i)
          || (v == 2 * n + 1 && n <= u < n + i)
          || (0 <= u < n && n <= v < 2 * n && Declaration(u, v - n) in ds))
    && (forall e :: e in cap ==> cap[e] == 1)
    && (forall e :: e in flow ==> flow[e] == 0)
  }

  method AddParticipant(network: FlowNetwork, n: nat, i: int)
    requires network.Valid() && network.nodes == 2 * n + 2 && 0 <= i < n
    requires Built(network.cap, network.flow, n, i, {}) && network.repeated == {}
    modifies network
    ensures network.Valid() && network.repeated == {} && fresh(network.Repr - old(network.Repr))
    ensures Built(network.cap, network.flow, n, i + 1, {})
  {
    network.AddEdge(2 * n, i, 1);
    network.AddEdge(i + n, 2 * n + 1, 1);
  }

  /** A declaration made again adds an edge beside the first. */
  method AddDeclaration(network: FlowNetwork, n: nat, d: Declaration, ghost ds: set<Declaration>)
    requires network.Valid() && network.nodes == 2 * n + 2 && network.repeated <= Gives(n, ds)
    requires Built(network.cap, network.flow, n, n, ds) && 0 <= d.giver < n && 0 <= d.receiver < n
    modifies network
    ensures network.Valid() && network.repeated <= Gives(n, ds + {d}) && fresh(network.Repr - old(network.Repr))
    ensures Built(network.cap, network.flow, n, n, ds + {d})
  {
    assert Give(n, d) in Gives(n, ds + {d}) && Gives(n, ds) <= Gives(n, ds + {d});
    network.AddEdge(d.giver, d.receiver + n, 1);
  }

  /**
   YES exactly when some permutation of the participants uses only declared pairs; otherwise
   the size of a largest exchange is reported.
   */
  method Decide(participants: nat, declarations: seq<Declaration>) returns (yes: bool, maximum: int)
    requires InRange(participants, Listed(declarations))
    ensures IsLargestExchange(Listed(declarations), maximum)
    ensures yes <==> exists p :: IsPermutation(p, participants) && Uses(Listed(declarations), p)
  {
    var nNodes := participants * 2 + 2;
    var network := new FlowNetwork(nNodes, nNodes - 2, nNodes - 1);
    for i := 0 to participants
      invariant fresh(network) && fresh(network.Repr) && network.Valid()
      invariant Built(network.cap, network.flow, participants, i, {}) && network.repeated == {}
    {
      AddParticipant(network, participants, i);
    }
    for i := 0 to |declarations|
      invariant fresh(network) && fresh(network.Repr) && network.Valid()
      invariant Built(network.cap, network.flow, participants, participants, Listed(declarations[..i]))
      invariant network.repeated <= Gives(participants, Listed(declarations[..i]))
    {
      assert Listed(declarations[..i + 1]) == Listed(declarations[..i]) + {declarations[i]};
      AddDeclaration(network, participants, declarations[i], Listed(declarations[..i]));
    }
    assert declarations[..|declarations|] == declarations;
    ghost var declared := Listed(declarations);
    ExchangeNetWellFormed(network.Net(), participants, declared);
    RepeatsHarmless(network.Net(), participants, declared, network.repeated);
    ghost var cut, history;
    maximum, cut, history := network.EdmondsKarp();
    MaximumFlowIsLargest(network.Net(), participants, declared, network.flow);
    FullWhenLargest(participants, declared, maximum);
    yes := maximum == participants;
  }
}

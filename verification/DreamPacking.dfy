/**
 Dreams packed in their given order into packs of the available sizes: the quadratic dynamic program,
 against every way to cut the dreams into consecutive groups.
 */
module DreamPacking {

  const MAX_VALUE := 0x7FFF_FFFF

  function Max(a: int, b: int): int { if a >= b then a else b }

  /** The total of dreams from a up to b. */
  function Sum(dreams: seq<int>, a: nat, b: nat): int
    requires a <= b <= |dreams|
    decreases b - a
  {
    if a == b then 0 else dreams[a] + Sum(dreams, a + 1, b)
  }

  ghost predicate IsLargest(numbers: seq<int>, x: int) {
    x in numbers && forall y :: y in numbers ==> y <= x
  }

  /** x is the least number not below bound. */
  ghost predicate IsLeastFrom(numbers: seq<int>, bound: int, x: int) {
    x in numbers && x >= bound && forall y :: y in numbers && y >= bound ==> x <= y
  }

  /** The largest number, and the least one from bound on, wherever they stand in the list. */
  function Largest(numbers: seq<int>): (x: int)
    requires numbers != []
    ensures IsLargest(numbers, x)
  {
    if |numbers| == 1 then numbers[0]
    else
      assert numbers == [numbers[0]] + numbers[1..];
      Max(numbers[0], Largest(numbers[1..]))
  }

  function LeastFrom(numbers: seq<int>, bound: int): (x: int)
    requires numbers != [] && bound <= Largest(numbers)
    ensures IsLeastFrom(numbers, bound, x)
  {
    assert numbers == [numbers[0]] + numbers[1..];
    if |numbers| == 1 then numbers[0]
    else if bound > Largest(numbers[1..]) then numbers[0]
    else
      var x := LeastFrom(numbers[1..], bound);
      if bound <= numbers[0] < x then numbers[0] else x
  }

  lemma LeastIs(numbers: seq<int>, bound: int, x: int)
    requires numbers != [] && bound <= Largest(numbers) && IsLeastFrom(numbers, bound, x)
    ensures LeastFrom(numbers, bound) == x
  {
    var y := LeastFrom(numbers, bound);
    assert y in numbers;
  }

  /**
   The waste after one more group: its pack is the least number from sum - slack on, and waste never
   falls below 0.
   */
  function Fold(numbers: seq<int>, slack: int, waste: int, sum: int): int
    requires numbers != [] && slack >= 0 && sum <= Largest(numbers)
  {
    Max(0, waste + LeastFrom(numbers, sum - slack) - sum)
  }

  /** Bounds 0 = cut[0] < cut[1] < ... of groups that each fit the largest number. */
  ghost predicate IsCut(dreams: seq<int>, numbers: seq<int>, cut: seq<nat>)
    requires numbers != []
  {
    && |cut| >= 1 && cut[0] == 0 && cut[|cut| - 1] <= |dreams|
    && (forall i :: 0 <= i < |cut| - 1 ==> Group(dreams, numbers, cut[i], cut[i + 1]))
  }

  ghost predicate Group(dreams: seq<int>, numbers: seq<int>, a: nat, b: nat)
    requires numbers != []
  {
    a < b <= |dreams| && Sum(dreams, a, b) <= Largest(numbers)
  }

  /** The waste of a cut, group by group from the front. */
  ghost function Waste(dreams: seq<int>, numbers: seq<int>, slack: int, cut: seq<nat>): int
    requires numbers != [] && slack >= 0 && IsCut(dreams, numbers, cut)
  {
    if |cut| == 1 then 0
    else
      var n := |cut| - 1;
      assert Group(dreams, numbers, cut[n - 1], cut[n]);
      CutShorter(dreams, numbers, cut);
      Fold(numbers, slack, Waste(dreams, numbers, slack, cut[..n]), Sum(dreams, cut[n - 1], cut[n]))
  }

  lemma CutShorter(dreams: seq<int>, numbers: seq<int>, cut: seq<nat>)
    requires numbers != [] && IsCut(dreams, numbers, cut) && |cut| > 1
    ensures IsCut(dreams, numbers, cut[..|cut| - 1])
  {
    var shorter := cut[..|cut| - 1];
    forall i | 0 <= i < |shorter| - 1
      ensures Group(dreams, numbers, shorter[i], shorter[i + 1])
    {
      assert Group(dreams, numbers, cut[i], cut[i + 1]);
    }
    assert Group(dreams, numbers, cut[|cut| - 2], cut[|cut| - 1]);
  }

  // ---------- What a cut wastes ----------

  /** Each group goes into the least number from its contents less the slack on. */
  ghost predicate Packed(dreams: seq<int>, numbers: seq<int>, slack: int, cut: seq<nat>, packs: seq<int>)
    requires numbers != [] && IsCut(dreams, numbers, cut)
  {
    && |packs| == |cut| - 1
    && forall k :: 0 <= k < |packs| ==>
      Group(dreams, numbers, cut[k], cut[k + 1])
        && IsLeastFrom(numbers, Sum(dreams, cut[k], cut[k + 1]) - slack, packs[k])
  }

  /** The packs from the given group on, less the dreams in them. */
  ghost function Spare(dreams: seq<int>, numbers: seq<int>, cut: seq<nat>, packs: seq<int>, group: nat): int
    requires numbers != [] && IsCut(dreams, numbers, cut) && group <= |packs| == |cut| - 1
  {
    CutOrdered(dreams, numbers, cut, group);
    Sum(packs, group, |packs|) - Sum(dreams, cut[group], cut[|packs|])
  }

  /** waste is the greatest spare space of the last groups, for any number of them, none included. */
  ghost predicate MostSpare(dreams: seq<int>, numbers: seq<int>, cut: seq<nat>, packs: seq<int>, waste: int)
    requires numbers != [] && IsCut(dreams, numbers, cut) && |packs| == |cut| - 1
  {
    && (exists i :: 0 <= i < |cut| && Spare(dreams, numbers, cut, packs, i) == waste)
    && forall i :: 0 <= i < |cut| ==> Spare(dreams, numbers, cut, packs, i) <= waste
  }

  /** waste is the least that a cut of the first j dreams can come to. */
  ghost predicate LeastSpare(dreams: seq<int>, numbers: seq<int>, slack: int, j: nat, waste: int)
    requires numbers != []
  {
    && (exists cut, packs :: Comes(dreams, numbers, slack, j, cut, packs, waste))
    && forall cut, packs, other :: Comes(dreams, numbers, slack, j, cut, packs, other) ==> waste <= other
  }

  /** This cut of the first j dreams, in these packs, comes to this waste. */
  ghost predicate Comes(
      dreams: seq<int>, numbers: seq<int>, slack: int, j: nat, cut: seq<nat>, packs: seq<int>, waste: int)
    requires numbers != []
  {
    && IsCut(dreams, numbers, cut) && cut[|cut| - 1] == j
    && Packed(dreams, numbers, slack, cut, packs) && MostSpare(dreams, numbers, cut, packs, waste)
  }

  lemma {:induction false} CutOrdered(dreams: seq<int>, numbers: seq<int>, cut: seq<nat>, group: nat)
    requires numbers != [] && IsCut(dreams, numbers, cut) && group < |cut|
    ensures cut[group] <= cut[|cut| - 1]
    decreases |cut| - group
  {
    if group < |cut| - 1 {
      assert Group(dreams, numbers, cut[group], cut[group + 1]);
      CutOrdered(dreams, numbers, cut, group + 1);
    }
  }

  lemma {:induction false} SumSplits(s: seq<int>, a: nat, b: nat, c: nat)
    requires a <= b <= c <= |s|
    ensures Sum(s, a, c) == Sum(s, a, b) + Sum(s, b, c)
    decreases b - a
  {
    if a < b {
      SumSplits(s, a + 1, b, c);
    }
  }

  lemma {:induction false} SumOfPrefix(s: seq<int>, n: nat, a: nat, b: nat)
    requires a <= b <= n <= |s|
    ensures Sum(s[..n], a, b) == Sum(s, a, b)
    decreases b - a
  {
    if a < b {
      SumOfPrefix(s, n, a + 1, b);
    }
  }

  /** One more group adds its own spare space to that of every run of last groups before it. */
  lemma SpareGrows(dreams: seq<int>, numbers: seq<int>, cut: seq<nat>, packs: seq<int>, i: nat)
    requires numbers != [] && IsCut(dreams, numbers, cut) && i < |packs| == |cut| - 1
    ensures IsCut(dreams, numbers, cut[..|packs|]) && Group(dreams, numbers, cut[|packs| - 1], cut[|packs|])
    ensures Spare(dreams, numbers, cut, packs, i)
      == Spare(dreams, numbers, cut[..|packs|], packs[..|packs| - 1], i)
        + packs[|packs| - 1] - Sum(dreams, cut[|packs| - 1], cut[|packs|])
  {
    var n := |packs|;
    CutShorter(dreams, numbers, cut);
    assert Group(dreams, numbers, cut[n - 1], cut[n]);
    CutOrdered(dreams, numbers, cut[..n], i);
    SumSplits(dreams, cut[i], cut[n - 1], cut[n]);
    SumSplits(packs, i, n - 1, n);
    SumOfPrefix(packs, n - 1, i, n - 1);
    assert Sum(packs, n - 1, n) == packs[n - 1];
  }

  /** All groups but the last are packed as before; the last one's pack is the least number that will do. */
  lemma PackedFront(dreams: seq<int>, numbers: seq<int>, slack: int, cut: seq<nat>, packs: seq<int>)
    requires numbers != [] && slack >= 0 && IsCut(dreams, numbers, cut) && Packed(dreams, numbers, slack, cut, packs)
    requires packs != []
    ensures var n := |packs|;
      && IsCut(dreams, numbers, cut[..n]) && Packed(dreams, numbers, slack, cut[..n], packs[..n - 1])
      && Group(dreams, numbers, cut[n - 1], cut[n])
      && packs[n - 1] == LeastFrom(numbers, Sum(dreams, cut[n - 1], cut[n]) - slack)
  {
    var n := |packs|;
    CutShorter(dreams, numbers, cut);
    assert forall k :: 0 <= k < n - 1 ==> packs[..n - 1][k] == packs[k];
    assert Group(dreams, numbers, cut[n - 1], cut[n]);
    LeastIs(numbers, Sum(dreams, cut[n - 1], cut[n]) - slack, packs[n - 1]);
  }

  /** One more group: either its spare space adds to the greatest so far, or taking no group at all is more. */
  lemma MostSpareNext(dreams: seq<int>, numbers: seq<int>, cut: seq<nat>, packs: seq<int>, waste: int)
    requires numbers != [] && IsCut(dreams, numbers, cut) && |packs| == |cut| - 1 && packs != []
    requires IsCut(dreams, numbers, cut[..|packs|])
    requires MostSpare(dreams, numbers, cut[..|packs|], packs[..|packs| - 1], waste)
    ensures Group(dreams, numbers, cut[|packs| - 1], cut[|packs|])
    ensures MostSpare(dreams, numbers, cut, packs,
      Max(0, waste + packs[|packs| - 1] - Sum(dreams, cut[|packs| - 1], cut[|packs|])))
  {
    var n := |packs|;
    var front, before := cut[..n], packs[..n - 1];
    SpareGrows(dreams, numbers, cut, packs, n - 1);
    forall i | 0 <= i < n
      ensures Spare(dreams, numbers, cut, packs, i)
        == Spare(dreams, numbers, front, before, i) + packs[n - 1] - Sum(dreams, cut[n - 1], cut[n])
    {
      SpareGrows(dreams, numbers, cut, packs, i);
    }
    assert Spare(dreams, numbers, cut, packs, n) == 0;
  }

  /** The waste of a cut is the greatest spare space of its last groups, whatever number of them is taken. */
  lemma {:induction false} WasteIsMostSpare(
    dreams: seq<int>, numbers: seq<int>, slack: int, cut: seq<nat>, packs: seq<int>)
    requires numbers != [] && slack >= 0 && IsCut(dreams, numbers, cut) && Packed(dreams, numbers, slack, cut, packs)
    ensures MostSpare(dreams, numbers, cut, packs, Waste(dreams, numbers, slack, cut))
    decreases |cut|
  {
    var n := |packs|;
    if n == 0 {
      assert Spare(dreams, numbers, cut, packs, 0) == 0;
    } else {
      PackedFront(dreams, numbers, slack, cut, packs);
      WasteIsMostSpare(dreams, numbers, slack, cut[..n], packs[..n - 1]);
      MostSpareNext(dreams, numbers, cut, packs, Waste(dreams, numbers, slack, cut[..n]));
    }
  }

  /** With no slack nothing is taken back: the waste is all the packs less all the dreams in them. */
  lemma {:induction false} NoSlackWastesAll(dreams: seq<int>, numbers: seq<int>, cut: seq<nat>, packs: seq<int>)
    requires numbers != [] && IsCut(dreams, numbers, cut) && Packed(dreams, numbers, 0, cut, packs)
    ensures Waste(dreams, numbers, 0, cut) == Sum(packs, 0, |packs|) - Sum(dreams, 0, cut[|cut| - 1])
    decreases |cut|
  {
    var n := |packs|;
    if n > 0 {
      PackedFront(dreams, numbers, 0, cut, packs);
      NoSlackWastesAll(dreams, numbers, cut[..n], packs[..n - 1]);
      SpareGrows(dreams, numbers, cut, packs, 0);
      NeverNegative(dreams, numbers, 0, cut[..n]);
    }
  }

  lemma NeverNegative(dreams: seq<int>, numbers: seq<int>, slack: int, cut: seq<nat>)
    requires numbers != [] && slack >= 0 && IsCut(dreams, numbers, cut)
    ensures Waste(dreams, numbers, slack, cut) >= 0
  {
    if |cut| > 1 {
      assert Group(dreams, numbers, cut[|cut| - 2], cut[|cut| - 1]);
    }
  }

  /** The packs of a cut. */
  lemma {:induction false} PacksOf(dreams: seq<int>, numbers: seq<int>, slack: int, cut: seq<nat>)
    returns (packs: seq<int>)
    requires numbers != [] && slack >= 0 && IsCut(dreams, numbers, cut)
    ensures Packed(dreams, numbers, slack, cut, packs)
    decreases |cut|
  {
    packs := [];
    var n := |cut| - 1;
    if n > 0 {
      CutShorter(dreams, numbers, cut);
      packs := PacksOf(dreams, numbers, slack, cut[..n]);
      assert Group(dreams, numbers, cut[n - 1], cut[n]);
      packs := packs + [LeastFrom(numbers, Sum(dreams, cut[n - 1], cut[n]) - slack)];
    }
  }

  /** The best waste of the cuts that end at j is the least that any of them comes to. */
  lemma BestIsLeastSpare(dreams: seq<int>, numbers: seq<int>, slack: int, j: nat, best: int)
    requires numbers != [] && slack >= 0 && IsOptimal(dreams, numbers, slack, j, best)
    ensures LeastSpare(dreams, numbers, slack, j, best)
  {
    var cut :| IsCut(dreams, numbers, cut) && cut[|cut| - 1] == j && Waste(dreams, numbers, slack, cut) == best;
    var packs := PacksOf(dreams, numbers, slack, cut);
    WasteIsMostSpare(dreams, numbers, slack, cut, packs);
    assert Comes(dreams, numbers, slack, j, cut, packs, best);
    forall cut, packs, other | Comes(dreams, numbers, slack, j, cut, packs, other)
      ensures best <= other
    {
      WasteIsMostSpare(dreams, numbers, slack, cut, packs);
    }
  }

  /** best is the least waste of all cuts that end at j. */
  ghost predicate IsOptimal(dreams: seq<int>, numbers: seq<int>, slack: int, j: nat, best: int)
    requires numbers != [] && slack >= 0
  {
    && Attained(dreams, numbers, slack, j, best)
    && forall cut :: IsCut(dreams, numbers, cut) && cut[|cut| - 1] == j ==> best <= Waste(dreams, numbers, slack, cut)
  }

  ghost predicate Attained(dreams: seq<int>, numbers: seq<int>, slack: int, j: nat, waste: int)
    requires numbers != [] && slack >= 0
  {
    exists cut :: IsCut(dreams, numbers, cut) && cut[|cut| - 1] == j && Waste(dreams, numbers, slack, cut) == waste
  }

  // ---------- The principle of optimality ----------

  lemma NothingToPack(dreams: seq<int>, numbers: seq<int>, slack: int)
    requires numbers != [] && slack >= 0
    ensures IsOptimal(dreams, numbers, slack, 0, 0)
  {
    assert IsCut(dreams, numbers, [0]) && Waste(dreams, numbers, slack, [0]) == 0;
    forall cut | IsCut(dreams, numbers, cut) && cut[|cut| - 1] == 0
      ensures 0 <= Waste(dreams, numbers, slack, cut)
    {
      assert |cut| > 1 ==> Group(dreams, numbers, cut[|cut| - 2], cut[|cut| - 1]);
    }
  }

  lemma OneMoreGroup(dreams: seq<int>, numbers: seq<int>, slack: int, k: nat, j: nat, waste: int)
    requires numbers != [] && slack >= 0 && Attained(dreams, numbers, slack, k, waste) && Group(dreams, numbers, k, j)
    ensures Attained(dreams, numbers, slack, j, Fold(numbers, slack, waste, Sum(dreams, k, j)))
  {
    var cut :| IsCut(dreams, numbers, cut) && cut[|cut| - 1] == k && Waste(dreams, numbers, slack, cut) == waste;
    var longer := cut + [j];
    forall i | 0 <= i < |longer| - 1
      ensures Group(dreams, numbers, longer[i], longer[i + 1])
    {
      assert i < |cut| - 1 ==> Group(dreams, numbers, cut[i], cut[i + 1]);
    }
    assert longer[..|longer| - 1] == cut;
    assert IsCut(dreams, numbers, longer);
  }

  /** The last group of a cut starts at some k; the rest costs at least the optimum for k. */
  lemma LastGroup(dreams: seq<int>, numbers: seq<int>, slack: int, cut: seq<nat>, best: int)
    requires numbers != [] && slack >= 0 && IsCut(dreams, numbers, cut) && |cut| > 1
    requires IsOptimal(dreams, numbers, slack, cut[|cut| - 2], best)
    ensures Group(dreams, numbers, cut[|cut| - 2], cut[|cut| - 1])
    ensures Fold(numbers, slack, best, Sum(dreams, cut[|cut| - 2], cut[|cut| - 1]))
      <= Waste(dreams, numbers, slack, cut)
  {
    var n := |cut| - 1;
    assert Group(dreams, numbers, cut[n - 1], cut[n]);
    CutShorter(dreams, numbers, cut);
    assert best <= Waste(dreams, numbers, slack, cut[..n]);
  }

  lemma CutEnds(dreams: seq<int>, numbers: seq<int>, cut: seq<nat>)
    requires numbers != [] && IsCut(dreams, numbers, cut) && |cut| > 0 && cut[|cut| - 1] > 0
    ensures |cut| > 1 && Group(dreams, numbers, cut[|cut| - 2], cut[|cut| - 1])
  {
    assert |cut| > 1;
  }

  /** The least over all last groups is the least over all cuts. */
  lemma Bellman(dreams: seq<int>, numbers: seq<int>, slack: int, w: seq<int>, j: nat)
    requires numbers != [] && slack >= 0 && 0 < j < |w|
    requires forall i :: 0 <= i < j ==> IsOptimal(dreams, numbers, slack, i, w[i])
    requires Attained(dreams, numbers, slack, j, w[j])
    requires forall k :: 0 <= k < j && Group(dreams, numbers, k, j) ==>
      w[j] <= Fold(numbers, slack, w[k], Sum(dreams, k, j))
    ensures IsOptimal(dreams, numbers, slack, j, w[j])
  {
    forall cut | IsCut(dreams, numbers, cut) && cut[|cut| - 1] == j
      ensures w[j] <= Waste(dreams, numbers, slack, cut)
    {
      CutEnds(dreams, numbers, cut);
      LastGroup(dreams, numbers, slack, cut, w[cut[|cut| - 2]]);
    }
  }

  lemma {:induction false} SumGrows(dreams: seq<int>, a: nat, b: nat, c: nat)
    requires a <= b <= c <= |dreams| && forall d :: d in dreams ==> d >= 0
    ensures 0 <= Sum(dreams, b, c) <= Sum(dreams, a, c)
    decreases c - a
  {
    if a < b {
      SumGrows(dreams, a + 1, b, c);
      assert dreams[a] in dreams;
    } else if a < c {
      SumGrows(dreams, a + 1, a + 1, c);
      assert dreams[a] in dreams;
    }
  }

  // ---------- Sorted lists ----------

  ghost predicate Sorted(s: seq<int>) { forall i, j :: 0 <= i < j < |s| ==> s[i] <= s[j] }

  function InsertSorted(s: seq<int>, x: int): (r: seq<int>)
    requires Sorted(s)
    ensures |r| == |s| + 1 && Sorted(r) && forall y :: y in r <==> y == x || y in s
  {
    if s == [] || x <= s[0] then [x] + s
    else
      var rest := InsertSorted(s[1..], x);
      assert s == [s[0]] + s[1..] && forall i :: 0 <= i < |rest| ==> rest[i] in rest;
      [s[0]] + rest
  }

  function SortedList(s: seq<int>): (r: seq<int>)
    ensures |r| == |s| && Sorted(r) && forall y :: y in r <==> y in s
  {
    if s == [] then []
    else
      assert s == [s[0]] + s[1..];
      InsertSorted(SortedList(s[1..]), s[0])
  }

  lemma {:induction false} InsertPermutes(s: seq<int>, x: int)
    requires Sorted(s)
    ensures multiset(InsertSorted(s, x)) == multiset(s) + multiset{x}
  {
    if s != [] && x > s[0] {
      InsertPermutes(s[1..], x);
      assert s == [s[0]] + s[1..];
    }
  }

  /** Sorting loses no number and adds none, repeated ones included. */
  lemma {:induction false} SortedPermutes(s: seq<int>)
    ensures multiset(SortedList(s)) == multiset(s)
  {
    if s != [] {
      SortedPermutes(s[1..]);
      InsertPermutes(SortedList(s[1..]), s[0]);
      assert s == [s[0]] + s[1..];
    }
  }

  /** The position of the key, or -(insertion point) - 1 when it is absent. */
  method BinarySearch(numbers: array<int>, key: int) returns (idx: int)
    requires Sorted(numbers[..])
    ensures idx >= 0 ==> idx < numbers.Length && numbers[idx] == key
    ensures idx < 0 ==> -idx - 1 <= numbers.Length
    ensures idx < 0 ==> forall i :: 0 <= i < -idx - 1 ==> numbers[i] < key
    ensures idx < 0 ==> forall i :: -idx - 1 <= i < numbers.Length ==> numbers[i] > key
  {
    var low, high := 0, numbers.Length;
    while low < high
      invariant 0 <= low <= high <= numbers.Length
      invariant forall i :: 0 <= i < low ==> numbers[i] < key
      invariant forall i :: high <= i < numbers.Length ==> numbers[i] > key
    {
      var mid := (low + high) / 2;
      assert forall i :: 0 <= i < numbers.Length ==> numbers[i] == numbers[..][i];
      if numbers[mid] < key {
        low := mid + 1;
      } else if numbers[mid] > key {
        high := mid;
      } else {
        return mid;
      }
    }
    return -low - 1;
  }

  // ---------- The program ----------

  datatype Result = Minimum(waste: int) | TooLarge(dream: int)

  /** The first dream that fits no number. */
  ghost predicate FirstTooLarge(dreams: seq<int>, numbers: seq<int>, d: int)
    requires numbers != []
  {
    exists i :: 0 <= i < |dreams| && dreams[i] == d && d > Largest(numbers)
      && forall j :: 0 <= j < i ==> dreams[j] <= Largest(numbers)
  }

  ghost predicate AllFit(dreams: seq<int>, numbers: seq<int>)
    requires numbers != []
  {
    forall d :: d in dreams ==> d <= Largest(numbers)
  }

  class Solver {
    const dreams: seq<int>
    const numbers: array<int>

    /** The numbers are sorted in place. */
    constructor (dreams: seq<int>, numbers: array<int>)
      modifies numbers
      ensures this.dreams == dreams && this.numbers == numbers
      ensures numbers[..] == SortedList(old(numbers[..]))
    {
      this.dreams := dreams;
      this.numbers := numbers;
      new;
      var sorted := SortedList(numbers[..]);
      for i := 0 to numbers.Length
        invariant numbers[..i] == sorted[..i]
      {
        numbers[i] := sorted[i];
      }
    }

    /**
     What the program asks of its input: sizes are not negative, and no waste reaches the initial
     value of the table.
     */
    ghost predicate Proper()
      reads numbers
    {
      && numbers.Length > 0 && Sorted(numbers[..]) && (forall d :: d in dreams ==> d >= 0)
      && |dreams| * Largest(numbers[..]) < MAX_VALUE
    }

    method Solve() returns (r: Result)
      requires Proper()
      ensures r.TooLarge? ==> FirstTooLarge(dreams, numbers[..], r.dream)
      ensures r.Minimum? ==> AllFit(dreams, numbers[..]) && IsOptimal(dreams, numbers[..], 1, |dreams|, r.waste)
      ensures r.Minimum? ==> LeastSpare(dreams, numbers[..], 1, |dreams|, r.waste)
    {
      var w := new int[|dreams| + 1](_ => MAX_VALUE);
      w[0] := 0;
      LastIsLargest(numbers[..]);
      for i := 0 to |dreams|
        invariant forall j :: 0 <= j < i ==> dreams[j] <= Largest(numbers[..])
      {
        if dreams[i] > numbers[numbers.Length - 1] {
          return TooLarge(dreams[i]);
        }
      }
      NothingToPack(dreams, numbers[..], 1);
      for j := 1 to |dreams| + 1
        invariant forall i :: 0 <= i < j ==> Done(w[i], i)
        invariant forall i :: j <= i <= |dreams| ==> w[i] == MAX_VALUE
      {
        PackUpTo(w, j);
      }
      BestIsLeastSpare(dreams, numbers[..], 1, |dreams|, w[|dreams|]);
      return Minimum(w[|dreams|]);
    }

    /** Entry i of the table is final. */
    ghost predicate Done(waste: int, i: nat)
      requires numbers.Length > 0
      reads numbers
    {
      IsOptimal(dreams, numbers[..], 1, i, waste) && 0 <= waste <= i * Largest(numbers[..])
    }

    /** Entry j: the last group goes back from dream j until it no longer fits. */
    method PackUpTo(w: array<int>, j: nat)
      requires Proper() && AllFit(dreams, numbers[..]) && w.Length == |dreams| + 1 && 0 < j <= |dreams| && w != numbers
      requires forall i :: 0 <= i < j ==> Done(w[i], i)
      requires w[j] == MAX_VALUE
      modifies w
      ensures forall i :: 0 <= i < w.Length && i != j ==> w[i] == old(w[i])
      ensures Done(w[j], j)
    {
      var sum := 0;
      var k := j - 1;
      ghost var nums := numbers[..];
      assert dreams[j - 1] in dreams && Sum(dreams, j - 1, j) == dreams[j - 1] && Group(dreams, nums, j - 1, j);
      while k >= 0
        invariant -1 <= k < j && sum == Sum(dreams, k + 1, j) && numbers[..] == nums
        invariant forall i :: 0 <= i < w.Length && i != j ==> w[i] == old(w[i])
        invariant Searched(dreams, nums, w[..], j, k + 1)
      {
        sum := sum + dreams[k];
        LastIsLargest(nums);
        if sum > numbers[numbers.Length - 1] {
          TooFarBack(dreams, nums, k, j);
          break;
        }
        TryFrom(w, j, k, sum);
        k := k - 1;
      }
      SearchedAll(dreams, nums, w[..], j, k + 1);
    }

    /** Entry j is the best of what it was and the last group from dream k on. */
    method TryFrom(w: array<int>, j: nat, k: nat, sum: int)
      requires Proper() && w.Length == |dreams| + 1 && k < j <= |dreams| && w != numbers
      requires sum == Sum(dreams, k, j) && Group(dreams, numbers[..], k, j) && Done(w[k], k)
      requires Searched(dreams, numbers[..], w[..], j, k + 1)
      modifies w
      ensures forall i :: 0 <= i < w.Length && i != j ==> w[i] == old(w[i])
      ensures Searched(dreams, numbers[..], w[..], j, k)
    {
      ghost var nums, before := numbers[..], w[..];
      LastIsLargest(nums);
      SearchedFits(dreams, nums, before, j, k + 1);
      PackFrom(w, j, k, sum);
      assert w[..] == before[j := w[j]];
      SearchedNext(dreams, nums, before, w[j], j, k);
    }

    /** The last group from dream k on, if it beats what entry j has so far. */
    method PackFrom(w: array<int>, j: nat, k: nat, sum: int)
      requires Proper() && w.Length == |dreams| + 1 && k < j <= |dreams| && w != numbers
      requires sum == Sum(dreams, k, j) && sum <= Largest(numbers[..]) && w[j] >= 0
      modifies w
      ensures forall i :: 0 <= i < w.Length && i != j ==> w[i] == old(w[i])
      ensures var cost := Fold(numbers[..], 1, old(w[k]), sum); w[j] == if cost < old(w[j]) then cost else old(w[j])
    {
      var idx := BinarySearch(numbers, sum - 1);
      idx := if idx >= 0 then idx else -idx - 1;
      FoundIsLeast(numbers[..], sum - 1, idx);
      if idx < numbers.Length {
        var min := w[k] + numbers[idx] - sum;
        if min < w[j] {
          if min < 0 {
            min := 0;
          }
          w[j] := min;
        }
      }
    }
  }

  /** In a sorted list, the entry after everything below the bound is the least number from the bound on. */
  lemma FoundIsLeast(numbers: seq<int>, bound: int, idx: nat)
    requires numbers != [] && Sorted(numbers) && bound <= Largest(numbers) && idx <= |numbers|
    requires idx < |numbers| ==> numbers[idx] >= bound
    requires (idx < |numbers| && numbers[idx] == bound) || forall i :: 0 <= i < idx ==> numbers[i] < bound
    ensures idx < |numbers| && numbers[idx] == LeastFrom(numbers, bound)
  {
    var x := LeastFrom(numbers, bound);
    var i :| 0 <= i < |numbers| && numbers[i] == x;
    assert (idx < |numbers| && numbers[idx] == bound) || i >= idx;
    assert numbers[idx] in numbers;
  }

  /** Groups that reach back further than one that does not fit do not fit either. */
  lemma TooFarBack(dreams: seq<int>, numbers: seq<int>, k: nat, j: nat)
    requires numbers != [] && k < j <= |dreams| && Sum(dreams, k, j) > Largest(numbers)
    requires forall d :: d in dreams ==> d >= 0
    ensures forall i :: 0 <= i <= k ==> !Group(dreams, numbers, i, j)
  {
    forall i | 0 <= i <= k
      ensures !Group(dreams, numbers, i, j)
    {
      SumGrows(dreams, i, k, j);
    }
  }

  /** The waste so far stays within one largest number for each dream. */
  lemma WasteBounded(numbers: seq<int>, waste: int, k: nat, j: nat, sum: int)
    requires numbers != [] && 0 <= sum <= Largest(numbers) && k < j && 0 <= waste <= k * Largest(numbers)
    ensures 0 <= Fold(numbers, 1, waste, sum) <= j * Largest(numbers)
  {
    var pack, most := LeastFrom(numbers, sum - 1), Largest(numbers);
    assert pack in numbers;
    OneMoreLargest(waste, pack, most, sum, k, j);
  }

  lemma OneMoreLargest(waste: int, pack: int, most: int, sum: int, k: int, j: int)
    requires 0 <= sum <= most && pack <= most && 0 <= k < j && waste <= k * most
    ensures waste + pack - sum <= j * most && 0 <= j * most
  {
    assert (k + 1) * most == k * most + most;
    WithinTable(j, most, k + 1);
    WithinTable(j, most, 0);
  }

  lemma WithinTable(dreams: int, most: int, j: int)
    requires 0 <= j <= dreams && most >= 0
    ensures j * most <= dreams * most
  {
    assert (dreams - j) * most >= 0;
    assert dreams * most == j * most + (dreams - j) * most;
  }

  lemma LastIsLargest(numbers: seq<int>)
    requires numbers != [] && Sorted(numbers)
    ensures numbers[|numbers| - 1] == Largest(numbers)
  {
    assert numbers[|numbers| - 1] in numbers;
  }

  // ---------- One entry of the table while it is being filled ----------

  /** Entry j is the least over last groups from k on. */
  ghost predicate Searched(dreams: seq<int>, numbers: seq<int>, w: seq<int>, j: nat, k: nat)
    requires numbers != [] && j < |w|
  {
    if k >= j then w[j] == MAX_VALUE
    else
      && Attained(dreams, numbers, 1, j, w[j]) && 0 <= w[j] <= j * Largest(numbers)
      && forall i :: k <= i < j && Group(dreams, numbers, i, j) ==> w[j] <= Fold(numbers, 1, w[i], Sum(dreams, i, j))
  }

  lemma SearchedFits(dreams: seq<int>, numbers: seq<int>, w: seq<int>, j: nat, k: nat)
    requires numbers != [] && j < |w| && Searched(dreams, numbers, w, j, k)
    ensures w[j] >= 0
  {
  }

  lemma SearchedNext(dreams: seq<int>, numbers: seq<int>, w: seq<int>, entry: int, j: nat, k: nat)
    requires numbers != [] && |w| == |dreams| + 1 && k < j <= |dreams| && Searched(dreams, numbers, w, j, k + 1)
    requires (forall d :: d in dreams ==> d >= 0) && |dreams| * Largest(numbers) < MAX_VALUE
    requires Group(dreams, numbers, k, j) && Attained(dreams, numbers, 1, k, w[k]) && 0 <= w[k] <= k * Largest(numbers)
    requires var cost := Fold(numbers, 1, w[k], Sum(dreams, k, j)); entry == if cost < w[j] then cost else w[j]
    ensures Searched(dreams, numbers, w[j := entry], j, k)
  {
    GroupCosts(dreams, numbers, w[k], k, j);
    EntryLeast(dreams, numbers, w, entry, j, k);
  }

  lemma EntryLeast(dreams: seq<int>, numbers: seq<int>, w: seq<int>, entry: int, j: nat, k: nat)
    requires numbers != [] && |w| == |dreams| + 1 && k < j <= |dreams| && Searched(dreams, numbers, w, j, k + 1)
    requires Group(dreams, numbers, k, j) && entry <= w[j] && entry <= Fold(numbers, 1, w[k], Sum(dreams, k, j))
    ensures forall i :: k <= i < j && Group(dreams, numbers, i, j) ==>
      entry <= Fold(numbers, 1, w[j := entry][i], Sum(dreams, i, j))
  {
  }

  /** What a last group from k adds is attained, and below the table's initial value. */
  lemma GroupCosts(dreams: seq<int>, numbers: seq<int>, waste: int, k: nat, j: nat)
    requires numbers != [] && k < j <= |dreams| && (forall d :: d in dreams ==> d >= 0)
    requires |dreams| * Largest(numbers) < MAX_VALUE && Group(dreams, numbers, k, j)
    requires Attained(dreams, numbers, 1, k, waste) && 0 <= waste <= k * Largest(numbers)
    ensures var cost := Fold(numbers, 1, waste, Sum(dreams, k, j));
      Attained(dreams, numbers, 1, j, cost) && 0 <= cost <= j * Largest(numbers) && cost < MAX_VALUE
  {
    SumGrows(dreams, k, k, j);
    WasteBounded(numbers, waste, k, j, Sum(dreams, k, j));
    WithinTable(|dreams|, Largest(numbers), j);
    OneMoreGroup(dreams, numbers, 1, k, j, waste);
  }

  lemma SearchedAll(dreams: seq<int>, numbers: seq<int>, w: seq<int>, j: nat, k: nat)
    requires numbers != [] && 0 < j < |w| && Searched(dreams, numbers, w, j, k) && k < j
    requires forall i :: 0 <= i < j ==> IsOptimal(dreams, numbers, 1, i, w[i])
    requires forall i :: 0 <= i < k ==> !Group(dreams, numbers, i, j)
    ensures IsOptimal(dreams, numbers, 1, j, w[j]) && 0 <= w[j] <= j * Largest(numbers)
  {
    Bellman(dreams, numbers, 1, w, j);
  }

  // ---------- Against the documented waste ----------

  /**
   The documentation asks for the least total of pack size less contents, each pack at least as large as
   its contents: no slack. The program searches from one below the contents.
   */
  ghost predicate Documented(dreams: seq<int>, numbers: seq<int>, waste: int)
    requires numbers != []
  {
    IsOptimal(dreams, numbers, 0, |dreams|, waste)
  }

  ghost predicate Computed(dreams: seq<int>, numbers: seq<int>, waste: int)
    requires numbers != []
  {
    IsOptimal(dreams, numbers, 1, |dreams|, waste)
  }

  lemma {:induction false} SlackNeverCosts(dreams: seq<int>, numbers: seq<int>, cut: seq<nat>)
    requires numbers != [] && IsCut(dreams, numbers, cut)
    ensures 0 <= Waste(dreams, numbers, 1, cut) <= Waste(dreams, numbers, 0, cut)
    decreases |cut|
  {
    if |cut| > 1 {
      var n := |cut| - 1;
      assert Group(dreams, numbers, cut[n - 1], cut[n]);
      CutShorter(dreams, numbers, cut);
      SlackNeverCosts(dreams, numbers, cut[..n]);
      var sum := Sum(dreams, cut[n - 1], cut[n]);
      assert LeastFrom(numbers, sum - 1) <= LeastFrom(numbers, sum);
    }
  }

  /** The program's answer is never above the documented one. */
  lemma NeverAbove(dreams: seq<int>, numbers: seq<int>, computed: int, documented: int)
    requires numbers != [] && Computed(dreams, numbers, computed) && Documented(dreams, numbers, documented)
    ensures 0 <= computed <= documented
  {
    var cut :| IsCut(dreams, numbers, cut) && cut[|cut| - 1] == |dreams|
      && Waste(dreams, numbers, 0, cut) == documented;
    SlackNeverCosts(dreams, numbers, cut);
    var cut' :| IsCut(dreams, numbers, cut') && cut'[|cut'| - 1] == |dreams|
      && Waste(dreams, numbers, 1, cut') == computed;
    SlackNeverCosts(dreams, numbers, cut');
  }

  ghost predicate Positive(dreams: seq<int>) { forall d :: d in dreams ==> d >= 1 }

  /** No number can stand one below the contents of a pack. */
  ghost predicate Lone(numbers: seq<int>)
    requires numbers != []
  {
    forall x :: x in numbers ==> x < 0 || x == Largest(numbers)
  }

  /** Every pack can be filled exactly. */
  ghost predicate Complete(numbers: seq<int>)
    requires numbers != []
  {
    forall y :: 1 <= y <= Largest(numbers) ==> y in numbers
  }

  lemma {:induction false} PositiveSum(dreams: seq<int>, a: nat, b: nat)
    requires Positive(dreams) && a < b <= |dreams|
    ensures Sum(dreams, a, b) >= 1
    decreases b - a
  {
    assert dreams[a] in dreams;
    if a + 1 < b {
      PositiveSum(dreams, a + 1, b);
    }
  }

  lemma {:induction false} LoneWaste(dreams: seq<int>, numbers: seq<int>, cut: seq<nat>)
    requires numbers != [] && Positive(dreams) && Lone(numbers) && IsCut(dreams, numbers, cut)
    ensures Waste(dreams, numbers, 1, cut) == Waste(dreams, numbers, 0, cut)
    decreases |cut|
  {
    if |cut| > 1 {
      var n := |cut| - 1;
      assert Group(dreams, numbers, cut[n - 1], cut[n]);
      CutShorter(dreams, numbers, cut);
      LoneWaste(dreams, numbers, cut[..n]);
      PositiveSum(dreams, cut[n - 1], cut[n]);
    }
  }

  lemma LoneAgrees(dreams: seq<int>, numbers: seq<int>, computed: int, documented: int)
    requires numbers != [] && Positive(dreams) && Lone(numbers)
    requires Computed(dreams, numbers, computed) && Documented(dreams, numbers, documented)
    ensures computed == documented
  {
    NeverAbove(dreams, numbers, computed, documented);
    var cut :| IsCut(dreams, numbers, cut) && cut[|cut| - 1] == |dreams| && Waste(dreams, numbers, 1, cut) == computed;
    LoneWaste(dreams, numbers, cut);
  }

  lemma {:induction false} CompleteWastesNothing(dreams: seq<int>, numbers: seq<int>, n: nat)
    requires numbers != [] && Positive(dreams) && AllFit(dreams, numbers) && Complete(numbers) && n <= |dreams|
    ensures Attained(dreams, numbers, 0, n, 0)
    decreases n
  {
    if n == 0 {
      NothingToPack(dreams, numbers, 0);
    } else {
      CompleteWastesNothing(dreams, numbers, n - 1);
      assert dreams[n - 1] in dreams && Sum(dreams, n - 1, n) == dreams[n - 1];
      LeastIs(numbers, dreams[n - 1], dreams[n - 1]);
      OneMoreGroup(dreams, numbers, 0, n - 1, n, 0);
    }
  }

  lemma CompleteAgrees(dreams: seq<int>, numbers: seq<int>, computed: int, documented: int)
    requires numbers != [] && Positive(dreams) && AllFit(dreams, numbers) && Complete(numbers)
    requires Computed(dreams, numbers, computed) && Documented(dreams, numbers, documented)
    ensures computed == documented
  {
    NeverAbove(dreams, numbers, computed, documented);
    CompleteWastesNothing(dreams, numbers, |dreams|);
    var cut :| IsCut(dreams, numbers, cut) && cut[|cut| - 1] == |dreams| && Waste(dreams, numbers, 0, cut) == 0;
    assert documented <= 0;
  }

  /** A dream that fits with none before it is packed alone. */
  lemma LastAlone(dreams: seq<int>, numbers: seq<int>, slack: int, j: nat, before: int)
    requires numbers != [] && slack >= 0 && 0 < j <= |dreams| && Group(dreams, numbers, j - 1, j)
    requires forall k :: 0 <= k < j - 1 ==> !Group(dreams, numbers, k, j)
    requires IsOptimal(dreams, numbers, slack, j - 1, before)
    ensures IsOptimal(dreams, numbers, slack, j, Fold(numbers, slack, before, Sum(dreams, j - 1, j)))
  {
    OneMoreGroup(dreams, numbers, slack, j - 1, j, before);
    forall cut | IsCut(dreams, numbers, cut) && cut[|cut| - 1] == j
      ensures Fold(numbers, slack, before, Sum(dreams, j - 1, j)) <= Waste(dreams, numbers, slack, cut)
    {
      assert Group(dreams, numbers, cut[|cut| - 2], cut[|cut| - 1]);
      LastGroup(dreams, numbers, slack, cut, before);
    }
  }

  lemma OneDream(d: int, numbers: seq<int>, slack: int)
    requires numbers != [] && slack >= 0 && d <= Largest(numbers)
    ensures IsOptimal([d], numbers, slack, 1, Fold(numbers, slack, 0, d))
  {
    NothingToPack([d], numbers, slack);
    assert Sum([d], 0, 1) == d;
    LastAlone([d], numbers, slack, 1, 0);
  }

  /** Two dreams that do not fit together. */
  lemma TwoDreams(d: int, e: int, numbers: seq<int>, slack: int)
    requires numbers != [] && slack >= 0 && d <= Largest(numbers) && e <= Largest(numbers) && d + e > Largest(numbers)
    ensures IsOptimal([d, e], numbers, slack, 2, Fold(numbers, slack, Fold(numbers, slack, 0, d), e))
  {
    var dreams := [d, e];
    NothingToPack(dreams, numbers, slack);
    assert Sum(dreams, 2, 2) == 0 && Sum(dreams, 1, 2) == e && Sum(dreams, 0, 2) == d + e;
    assert Sum(dreams, 1, 1) == 0 && Sum(dreams, 0, 1) == d;
    LastAlone(dreams, numbers, slack, 1, 0);
    LastAlone(dreams, numbers, slack, 2, Fold(numbers, slack, 0, d));
  }

  /** With 4 and 6 to choose from, a dream of 5 wastes 1; the program answers 0. */
  lemma FiveWastesOne()
    ensures Computed([5], [4, 6], 0) && Documented([5], [4, 6], 1)
  {
    assert Largest([4, 6]) == 6;
    OneDream(5, [4, 6], 1);
    OneDream(5, [4, 6], 0);
  }

  /** Numbers for which the program gives the documented answer whatever the dreams. */
  ghost predicate AlwaysRight(numbers: seq<int>)
    requires numbers != []
  {
    forall dreams, computed, documented ::
      Positive(dreams) && AllFit(dreams, numbers) && Computed(dreams, numbers, computed)
        && Documented(dreams, numbers, documented)
      ==> computed == documented
  }

  /** These dreams get too small an answer. */
  ghost predicate Wrong(dreams: seq<int>, numbers: seq<int>, computed: int, documented: int)
    requires numbers != []
  {
    && Positive(dreams) && AllFit(dreams, numbers)
    && Computed(dreams, numbers, computed) && Documented(dreams, numbers, documented) && computed < documented
  }

  lemma OneWrong(numbers: seq<int>, x: int) returns (computed: int, documented: int)
    requires numbers != [] && x in numbers && 0 <= x < Largest(numbers) - 1 && x + 1 !in numbers
    ensures Wrong([x + 1], numbers, computed, documented)
  {
    OneDream(x + 1, numbers, 1);
    OneDream(x + 1, numbers, 0);
    computed, documented := Fold(numbers, 1, 0, x + 1), Fold(numbers, 0, 0, x + 1);
    LeastIs(numbers, x, x);
    assert IsLeastFrom(numbers, x + 1, LeastFrom(numbers, x + 1));
  }

  lemma TwoWrong(numbers: seq<int>, y: int) returns (computed: int, documented: int)
    requires numbers != [] && 1 <= y < Largest(numbers) && y !in numbers && Largest(numbers) - 1 in numbers
    ensures Wrong([y, Largest(numbers)], numbers, computed, documented)
  {
    var most := Largest(numbers);
    TwoDreams(y, most, numbers, 1);
    TwoDreams(y, most, numbers, 0);
    computed := Fold(numbers, 1, Fold(numbers, 1, 0, y), most);
    documented := Fold(numbers, 0, Fold(numbers, 0, 0, y), most);
    TwoFolds(numbers, y);
  }

  lemma TwoFolds(numbers: seq<int>, y: int)
    requires numbers != [] && 1 <= y < Largest(numbers) && y !in numbers && Largest(numbers) - 1 in numbers
    ensures var most := Largest(numbers);
      Fold(numbers, 1, Fold(numbers, 1, 0, y), most) < Fold(numbers, 0, Fold(numbers, 0, 0, y), most)
  {
    var most := Largest(numbers);
    LeastIs(numbers, most - 1, most - 1);
    LeastIs(numbers, most, most);
    var below, above := LeastFrom(numbers, y - 1), LeastFrom(numbers, y);
    assert below <= above && above != y;
  }

  /** Otherwise one or two dreams show the difference. */
  lemma SomeDreamsWrong(numbers: seq<int>) returns (dreams: seq<int>, computed: int, documented: int)
    requires numbers != [] && !Lone(numbers) && !Complete(numbers)
    ensures Wrong(dreams, numbers, computed, documented)
  {
    var y :| 1 <= y <= Largest(numbers) && y !in numbers;
    var x := Before(numbers);
    if x + 1 < Largest(numbers) {
      dreams := [x + 1];
      computed, documented := OneWrong(numbers, x);
    } else {
      dreams := [y, Largest(numbers)];
      computed, documented := TwoWrong(numbers, y);
    }
  }

  /** The greatest number below the largest, when there is one that is not negative. */
  lemma Before(numbers: seq<int>) returns (x: int)
    requires numbers != [] && !Lone(numbers)
    ensures x in numbers && 0 <= x < Largest(numbers) && forall y :: x < y < Largest(numbers) ==> y !in numbers
  {
    x :| x in numbers && 0 <= x < Largest(numbers);
    while exists y :: x < y < Largest(numbers) && y in numbers
      invariant x in numbers && 0 <= x < Largest(numbers)
      decreases Largest(numbers) - x
    {
      var y :| x < y < Largest(numbers) && y in numbers;
      x := y;
    }
  }

  /** The program is right for all positive dreams exactly when no other number is usable, or every size is a number. */
  lemma RightExactlyWhen(numbers: seq<int>)
    requires numbers != []
    ensures AlwaysRight(numbers) <==> Lone(numbers) || Complete(numbers)
  {
    if Lone(numbers) || Complete(numbers) {
      forall dreams, computed, documented | Positive(dreams) && AllFit(dreams, numbers)
        && Computed(dreams, numbers, computed) && Documented(dreams, numbers, documented)
        ensures computed == documented
      {
        if Lone(numbers) {
          LoneAgrees(dreams, numbers, computed, documented);
        } else {
          CompleteAgrees(dreams, numbers, computed, documented);
        }
      }
    } else {
      var dreams, computed, documented := SomeDreamsWrong(numbers);
    }
  }
}

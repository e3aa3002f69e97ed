/**
 Open addressing in a table of prime size: the two hash functions, the two probe sequences, and what
 a table whose slots are never cleared says about the keys in it.
 */
module Hashing {
  import opened Options
  import opened Totals
  import opened Primes

  /** A stored key with the sum of its characters, compared first. */
  datatype Slot = Slot(key: string, aValue: nat)

  datatype Scheme = Quadratic | Double

  function AsciiSum(key: string): nat {
    if key == [] then 0 else AsciiSum(key[..|key| - 1]) + key[|key| - 1] as nat
  }

  function Djb2Sum(key: string): nat {
    if key == [] then 5381 else (Djb2Sum(key[..|key| - 1]) * 33 + key[|key| - 1] as nat) % WORD
  }

  function Djb2(key: string, size: nat): (h: nat)
    requires size > 0
    ensures h < size
  {
    Djb2Sum(key) % size
  }

  // ---------- What the hash functions add up ----------

  /** The sum of the characters does not depend on how the key is taken apart. */
  lemma {:induction false} AsciiSumAdds(first: string, second: string)
    ensures AsciiSum(first + second) == AsciiSum(first) + AsciiSum(second)
    ensures forall c: char :: AsciiSum([c]) == c as nat
    decreases |second|
  {
    var all := first + second;
    if second == [] {
      assert all == first;
    } else {
      var n := |second| - 1;
      assert all[..|all| - 1] == first + second[..n];
      AsciiSumAdds(first, second[..n]);
    }
    forall c: char
      ensures AsciiSum([c]) == c as nat
    {
      assert [c][..0] == [] && AsciiSum([]) == 0;
    }
  }

  function Power33(n: nat): nat { if n == 0 then 1 else 33 * Power33(n - 1) }

  /** 5381 and the first n characters, each by the power of 33 of its place counted from the end. */
  function Weighted(key: string, n: nat): nat
    requires n <= |key|
  {
    if n == 0 then 5381 * Power33(|key|) else Weighted(key, n - 1) + key[n - 1] as nat * Power33(|key| - n)
  }

  lemma {:induction false} WeightedNext(key: string, c: char, n: nat)
    requires n <= |key|
    ensures Weighted(key + [c], n) == 33 * Weighted(key, n)
  {
    if n > 0 {
      WeightedNext(key, c, n - 1);
      var code, power := key[n - 1] as nat, Power33(|key| - n);
      assert (key + [c])[n - 1] == key[n - 1] && Power33(|key + [c]| - n) == 33 * power;
      ThirtyThreeTimes(code, power, Weighted(key, n - 1));
    } else {
      assert Power33(|key + [c]|) == 33 * Power33(|key|);
    }
  }

  lemma ThirtyThreeTimes(code: nat, power: nat, sum: nat)
    ensures 33 * sum + code * (33 * power) == 33 * (sum + code * power)
  {
  }

  lemma MultiplesDropOut(x: int, k: int, m: int)
    requires m > 0
    ensures (x + k * m) % m == x % m
  {
    var y := x + k * m;
    var d := y / m - k - x / m;
    assert m * d == m * (y / m) - m * k - m * (x / m) == x % m - y % m;
    assert d >= 1 ==> m * d >= m;
    assert d <= -1 ==> m * d <= -m;
  }

  lemma RemainderOfStep(x: nat, c: nat, m: nat)
    requires m > 0
    ensures (33 * (x % m) + c) % m == (33 * x + c) % m
  {
    var k, r := x / m, x % m;
    MultiplesDropOut(33 * r + c, 33 * k, m);
    assert x == k * m + r;
    assert 33 * x + c == 33 * r + c + 33 * k * m;
  }

  /** Wrapping round at every character is the same as doing it once at the end. */
  lemma {:induction false} Djb2IsWeighted(key: string)
    ensures Djb2Sum(key) == Weighted(key, |key|) % WORD
  {
    if key != [] {
      var n := |key| - 1;
      var front, c := key[..n], key[n];
      Djb2IsWeighted(front);
      WeightedNext(front, c, n);
      assert key == front + [c] && Power33(0) == 1;
      RemainderOfStep(Weighted(front, n), c as nat, WORD);
    }
  }

  lemma StepInRange(r: nat, sum: nat, size: nat)
    requires 0 < r < size
    ensures 0 < (r - sum % r) % size < size
  {
    var step := r - sum % r;
    assert 0 < step <= r;
    assert step % size == step;
  }

  /** The step of double hashing: R - sum % R for the prime R before the size. */
  ghost function Hash2(key: string, size: nat): (h: nat)
    requires IsPrime(size) && size >= 5
    ensures 0 < h < size
  {
    EvenNotPrime(size);
    var r := PrevOf(size);
    StepInRange(r, AsciiSum(key), size);
    (r - AsciiSum(key) % r) % size
  }

  /** The i-th slot tried for a key. */
  ghost function Probe(scheme: Scheme, size: nat, key: string, i: nat): (s: nat)
    requires IsPrime(size) && size >= 5
    ensures s < size
  {
    match scheme
    case Quadratic => (Djb2(key, size) + i * i) % size
    case Double => (Djb2(key, size) + i * Hash2(key, size)) % size
  }

  lemma FirstProbe(scheme: Scheme, size: nat, key: string)
    requires IsPrime(size) && size >= 5
    ensures Probe(scheme, size, key, 0) == Djb2(key, size)
  {
    SmallRemainder(Djb2(key, size), size);
    if scheme.Double? {
      assert 0 * Hash2(key, size) == 0;
    }
  }

  lemma SmallRemainder(x: nat, size: nat)
    requires x < size
    ensures x % size == x
  {
  }

  /** How many probes are sure to try different slots. */
  function Reach(scheme: Scheme, size: nat): nat {
    match scheme
    case Quadratic => (size + 1) / 2
    case Double => size
  }

  // ---------- The probes try different slots ----------

  lemma QuadraticDistinct(p: nat, h: nat, i: nat, j: nat)
    requires IsPrime(p) && i < j && i + j < p
    ensures (h + i * i) % p != (h + j * j) % p
  {
    if (h + i * i) % p == (h + j * j) % p {
      SameRemainder(h + j * j, h + i * i, p);
      assert (h + j * j) - (h + i * i) == (j - i) * (j + i);
      EuclidsLemma(p, j - i, j + i);
      DivisorsAreSmaller(p, j + i);
    }
  }

  lemma DoubleDistinct(p: nat, h: nat, step: nat, i: nat, j: nat)
    requires IsPrime(p) && 0 < step < p && i < j < p
    ensures (h + i * step) % p != (h + j * step) % p
  {
    if (h + i * step) % p == (h + j * step) % p {
      SameRemainder(h + j * step, h + i * step, p);
      assert (h + j * step) - (h + i * step) == step * (j - i);
      EuclidsLemma(p, step, j - i);
      DivisorsAreSmaller(p, j - i);
    }
  }

  lemma ProbesDistinct(scheme: Scheme, size: nat, key: string, i: nat, j: nat)
    requires IsPrime(size) && size >= 5 && i < j < Reach(scheme, size)
    ensures Probe(scheme, size, key, i) != Probe(scheme, size, key, j)
  {
    match scheme
    case Quadratic => QuadraticDistinct(size, Djb2(key, size), i, j);
    case Double => DoubleDistinct(size, Djb2(key, size), Hash2(key, size), i, j);
  }

  // ---------- Tables ----------

  type Slots = seq<Option<Slot>>

  ghost predicate Sized(slots: Slots) { IsPrime(|slots|) && |slots| >= 5 }

  ghost function Occupied(slots: Slots): set<int> { set s | 0 <= s < |slots| && slots[s].Some? }

  ghost predicate Holds(slots: Slots, key: string) {
    exists s :: 0 <= s < |slots| && slots[s].Some? && slots[s].value.key == key
  }

  /** The first n slots tried for a key are taken. */
  ghost predicate Taken(scheme: Scheme, slots: Slots, key: string, n: nat)
    requires Sized(slots)
  {
    forall i: nat :: i < n ==> slots[Probe(scheme, |slots|, key, i)].Some?
  }

  /** The key in slot s went there because the slots tried before were taken. */
  ghost predicate Placed(scheme: Scheme, slots: Slots, s: nat)
    requires Sized(slots) && s < |slots|
  {
    slots[s].Some? ==>
      && slots[s].value.aValue == AsciiSum(slots[s].value.key)
      && exists n: nat :: Probe(scheme, |slots|, slots[s].value.key, n) == s
           && Taken(scheme, slots, slots[s].value.key, n)
  }

  ghost predicate Table(scheme: Scheme, slots: Slots) {
    Sized(slots) && forall s :: 0 <= s < |slots| ==> Placed(scheme, slots, s)
  }

  /** While the distinct probes outnumber the taken slots, one of them finds a free slot. */
  lemma FreeProbe(scheme: Scheme, slots: Slots, key: string) returns (n: nat)
    requires Sized(slots) && |Occupied(slots)| < Reach(scheme, |slots|)
    ensures n < Reach(scheme, |slots|) && slots[Probe(scheme, |slots|, key, n)].None?
  {
    var reach := Reach(scheme, |slots|);
    if i: nat :| i < reach && slots[Probe(scheme, |slots|, key, i)].None? {
      n := i;
    } else {
      var probes := seq(reach, i requires 0 <= i < reach => Probe(scheme, |slots|, key, i));
      forall i, j | 0 <= i < j < |probes|
        ensures probes[i] != probes[j]
      {
        ProbesDistinct(scheme, |slots|, key, i, j);
      }
      NoDuplicatesSize(probes, Occupied(slots));
      assert false;
    }
  }

  /** Double hashing tries every slot of the table. */
  lemma VisitsEverySlot(size: nat, key: string, s: nat) returns (i: nat)
    requires IsPrime(size) && size >= 5 && s < size
    ensures i < size && Probe(Double, size, key, i) == s
  {
    var slots: Slots := seq(size, t requires 0 <= t < size => if t == s then None else Some(Slot("", 0)));
    assert Occupied(slots) == Below(size) - {s};
    i := FreeProbe(Double, slots, key);
  }

  /** The first n slots tried are taken by other keys. */
  ghost predicate Missed(scheme: Scheme, slots: Slots, key: string, n: nat)
    requires Sized(slots)
  {
    forall i: nat :: i < n ==>
      slots[Probe(scheme, |slots|, key, i)].Some? && slots[Probe(scheme, |slots|, key, i)].value.key != key
  }

  lemma MissedOne(scheme: Scheme, slots: Slots, key: string, n: nat)
    requires Sized(slots) && Missed(scheme, slots, key, n)
    requires slots[Probe(scheme, |slots|, key, n)].Some? && slots[Probe(scheme, |slots|, key, n)].value.key != key
    ensures Missed(scheme, slots, key, n + 1)
  {
  }

  lemma NothingOccupied(slots: Slots, key: string)
    requires |Occupied(slots)| == 0
    ensures !Holds(slots, key)
  {
    assert forall s :: 0 <= s < |slots| && slots[s].Some? ==> s in Occupied(slots);
  }

  /** A stored key carries its own sum, so different sums mean different keys. */
  lemma SumOfStored(scheme: Scheme, slots: Slots, s: nat)
    requires Table(scheme, slots) && s < |slots| && slots[s].Some?
    ensures slots[s].value.aValue == AsciiSum(slots[s].value.key)
  {
    assert Placed(scheme, slots, s);
  }

  /** A probe sequence that meets a free slot before the key proves the key absent. */
  lemma Absent(scheme: Scheme, slots: Slots, key: string, n: nat)
    requires Table(scheme, slots) && slots[Probe(scheme, |slots|, key, n)].None? && Missed(scheme, slots, key, n)
    ensures !Holds(slots, key)
  {
    forall s | 0 <= s < |slots| && slots[s].Some?
      ensures slots[s].value.key != key
    {
      assert Placed(scheme, slots, s);
    }
  }

  /** A search along the probes stops: at a free slot, or at the key. */
  ghost predicate Stops(scheme: Scheme, slots: Slots, key: string, n: nat)
    requires Sized(slots)
  {
    var slot := slots[Probe(scheme, |slots|, key, n)];
    slot.None? || slot.value.key == key
  }

  /** How far double hashing has to look for a key that is stored, or for a free slot. */
  lemma StopsWithin(slots: Slots, key: string) returns (n: nat)
    requires Sized(slots) && (|Occupied(slots)| < |slots| || Holds(slots, key))
    ensures n < |slots| && Stops(Double, slots, key, n)
  {
    if |Occupied(slots)| < |slots| {
      n := FreeProbe(Double, slots, key);
    } else {
      var s :| 0 <= s < |slots| && slots[s].Some? && slots[s].value.key == key;
      n := VisitsEverySlot(|slots|, key, s);
    }
  }

  lemma FullTaken(slots: Slots, s: nat)
    requires s < |slots| && |Occupied(slots)| == |slots|
    ensures slots[s].Some?
  {
    if slots[s].None? {
      SubsetSize(Occupied(slots), Below(|slots|) - {s});
    }
  }

  lemma OccupiedAtMost(slots: Slots)
    ensures |Occupied(slots)| <= |slots|
  {
    SubsetSize(Occupied(slots), Below(|slots|));
  }

  /** A search by double hashing ends exactly when a slot is free or the key is there. */
  lemma SearchEndsExactlyWhen(slots: Slots, key: string)
    requires Sized(slots)
    ensures (exists n: nat :: Stops(Double, slots, key, n)) <==> |Occupied(slots)| < |slots| || Holds(slots, key)
  {
    OccupiedAtMost(slots);
    if |Occupied(slots)| < |slots| || Holds(slots, key) {
      var n := StopsWithin(slots, key);
    } else {
      forall n: nat
        ensures !Stops(Double, slots, key, n)
      {
        FullTaken(slots, Probe(Double, |slots|, key, n));
      }
    }
  }

  /** The search for a free slot by double hashing ends exactly when there is one. */
  lemma InsertEndsExactlyWhen(slots: Slots, key: string)
    requires Sized(slots)
    ensures (exists n: nat :: slots[Probe(Double, |slots|, key, n)].None?) <==> |Occupied(slots)| < |slots|
  {
    OccupiedAtMost(slots);
    if |Occupied(slots)| < |slots| {
      var n := FreeProbe(Double, slots, key);
    } else {
      forall n: nat
        ensures slots[Probe(Double, |slots|, key, n)].Some?
      {
        FullTaken(slots, Probe(Double, |slots|, key, n));
      }
    }
  }

  /** Filling the first free slot of the key's probe sequence keeps a table a table, with one key more. */
  lemma Insert(scheme: Scheme, slots: Slots, key: string, n: nat)
    requires Table(scheme, slots) && Taken(scheme, slots, key, n)
    requires slots[Probe(scheme, |slots|, key, n)].None?
    ensures var s := Probe(scheme, |slots|, key, n);
      var slots' := slots[s := Some(Slot(key, AsciiSum(key)))];
      && Table(scheme, slots') && Occupied(slots') == Occupied(slots) + {s} && s !in Occupied(slots)
      && forall k :: Holds(slots', k) <==> k == key || Holds(slots, k)
  {
    var s := Probe(scheme, |slots|, key, n);
    var slots' := slots[s := Some(Slot(key, AsciiSum(key)))];
    forall t | 0 <= t < |slots'|
      ensures Placed(scheme, slots', t)
    {
      assert Placed(scheme, slots, t);
      if t == s {
        assert Taken(scheme, slots', key, n);
      } else if slots[t].Some? {
        var k := slots[t].value.key;
        var m: nat :| Probe(scheme, |slots|, k, m) == t && Taken(scheme, slots, k, m);
        assert Taken(scheme, slots', k, m);
      }
    }
    forall k
      ensures Holds(slots', k) <==> k == key || Holds(slots, k)
    {
      if k == key {
        assert slots'[s].value.key == key;
      }
      if Holds(slots, k) {
        var t :| 0 <= t < |slots| && slots[t].Some? && slots[t].value.key == k;
        assert slots'[t] == slots[t];
      }
    }
  }

  lemma EmptyTable(scheme: Scheme, slots: Slots)
    requires Sized(slots) && forall s :: 0 <= s < |slots| ==> slots[s].None?
    ensures Table(scheme, slots) && Occupied(slots) == {} && forall k :: !Holds(slots, k)
  {
  }

  // ---------- The loops over a key ----------

  method AsciiValue(key: string) returns (sum: nat)
    ensures sum == AsciiSum(key)
  {
    sum := 0;
    for i := 0 to |key|
      invariant sum == AsciiSum(key[..i])
    {
      assert key[..i + 1][..i] == key[..i];
      sum := sum + key[i] as nat;
    }
    assert key[..|key|] == key;
  }

  method HashDjb2(key: string, size: nat) returns (index: nat)
    requires size > 0
    ensures index == Djb2(key, size)
  {
    var hash := 5381;
    for i := 0 to |key|
      invariant hash == Djb2Sum(key[..i])
    {
      assert key[..i + 1][..i] == key[..i];
      hash := (hash * 32 + hash + key[i] as nat) % WORD;
    }
    assert key[..|key|] == key;
    index := hash % size;
  }

  method HashStep(key: string, size: nat) returns (step: nat)
    requires IsPrime(size) && size >= 5
    ensures step == Hash2(key, size)
  {
    var hash := PrevPrime(size);
    var asciiVal := AsciiValue(key);
    EvenNotPrime(size);
    step := (hash - asciiVal % hash) % size;
  }
}

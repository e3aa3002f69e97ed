/**
 The spell checker's two hash tables: the misspellings, probed quadratically and rehashed when more
 than half full, and the dictionary, probed by double hashing.
 */
module SpellTables {
  import opened Options
  import opened Totals
  import opened Primes
  import opened Hashing

  const MIN_SIZE := 13

  class MisspellList {
    const size: nat
    const entries: array<Option<Slot>>
    var nElements: nat

    ghost predicate Valid()
      reads this, entries
    {
      // one expression, so that the verifier need not prove its parts one by one
      var valid := entries.Length == size && size >= MIN_SIZE && Table(Quadratic, entries[..])
        && nElements == |Occupied(entries[..])|;
      valid
    }

    /** At most half full: the state between insertions. */
    ghost predicate Settled()
      reads this, entries
    {
      Valid() && 2 * nElements <= size
    }

    ghost predicate Contains(key: string)
      reads this, entries
    {
      Holds(entries[..], key)
    }

    constructor (size: nat)
      requires IsPrime(size) && size >= MIN_SIZE
      ensures Settled() && nElements == 0 && this.size == size && fresh(entries)
      ensures forall k :: !Contains(k)
    {
      this.size := size;
      nElements := 0;
      entries := new Option<Slot>[size](_ => None);
      new;
      EmptyTable(Quadratic, entries[..]);
    }

    /** Some free slot is always found within (size + 1) / 2 probes, so the -1 is never returned. */
    method QuadraticProbing(key: string) returns (index: int, ghost n: int)
      requires Settled()
      ensures 0 <= index < size && 0 <= n <= (size - 1) / 2 && index == Probe(Quadratic, size, key, n)
      ensures entries[index].None? && Taken(Quadratic, entries[..], key, n)
    {
      var hashVal := HashDjb2(key, size);
      EvenNotPrime(size);
      ghost var free := FreeProbe(Quadratic, entries[..], key);
      var i := 0;
      var slot := QuadraticSlot(key, hashVal, i, size);
      while entries[slot].Some?
        invariant slot == Probe(Quadratic, size, key, i)
        invariant 0 <= i <= free && Taken(Quadratic, entries[..], key, i)
        decreases free - i
      {
        i := i + 1;
        if i == size {
          return -1, 0;
        }
        slot := QuadraticSlot(key, hashVal, i, size);
      }
      return slot, i;
    }

    /** Stores the key at the end of its probes. */
    method Store(index: int, key: string, ghost n: nat)
      requires Valid() && 0 <= index < size && index == Probe(Quadratic, size, key, n)
      requires entries[index].None? && Taken(Quadratic, entries[..], key, n)
      modifies this, entries
      ensures Valid() && nElements == old(nElements) + 1
      ensures forall k :: Contains(k) <==> k == key || old(Contains(k))
    {
      Insert(Quadratic, entries[..], key, n);
      ghost var slots := entries[..];
      var aValue := AsciiValue(key);
      entries[index] := Some(Slot(key, aValue));
      nElements := nElements + 1;
      assert entries[..] == slots[index := Some(Slot(key, aValue))];
    }

    /** True exactly for the keys in the table; every search meets the key or a free slot. */
    method Search(key: string) returns (found: bool)
      requires Settled()
      ensures found <==> Contains(key)
    {
      if nElements == 0 {
        NothingOccupied(entries[..], key);
        return false;
      }
      var hash := HashDjb2(key, size);
      var asciiVal := AsciiValue(key);
      EvenNotPrime(size);
      ghost var free := FreeProbe(Quadratic, entries[..], key);
      FirstProbe(Quadratic, size, key);
      var j := hash;
      var i := 0;
      ghost var n := 0;
      while entries[j].Some?
        invariant 0 <= j < size && j == Probe(Quadratic, size, key, n) && n == (if i == 0 then 0 else i - 1)
        invariant n <= free && Missed(Quadratic, entries[..], key, n)
        decreases free + 1 - i
      {
        SumOfStored(Quadratic, entries[..], j);
        if entries[j].value.aValue == asciiVal {
          if entries[j].value.key == key {
            return true;
          }
        }
        MissedOne(Quadratic, entries[..], key, n);
        j := QuadraticSlot(key, hash, i, size);
        n := i;
        i := i + 1;
      }
      Absent(Quadratic, entries[..], key, n);
      return false;
    }
  }

  method QuadraticSlot(key: string, hash: nat, i: nat, size: nat) returns (slot: nat)
    requires IsPrime(size) && size >= 5 && hash == Djb2(key, size)
    ensures slot == Probe(Quadratic, size, key, i)
  {
    slot := (hash + i * i) % size;
  }

  /** Whether one more key makes the table more than half full. */
  ghost function Burden(list: MisspellList): nat
    reads list
  {
    if 2 * (list.nElements + 1) > list.size then 2 else 0
  }

  /** The table, perhaps a new one, with the key in it. */
  method InsertTable(list: MisspellList, key: string) returns (r: MisspellList)
    requires list.Settled()
    modifies list, list.entries
    ensures r.Settled() && (r == list || (fresh(r) && fresh(r.entries)))
    ensures forall k :: r.Contains(k) <==> k == key || old(list.Contains(k))
    ensures old(Burden(list)) == 0 ==> r == list && r.nElements == old(list.nElements) + 1
    decreases Burden(list)
  {
    r := list;
    var i: int := HashDjb2(key, r.size);
    ghost var n: int := 0;
    FirstProbe(Quadratic, r.size, key);
    if r.entries[i].Some? {
      i, n := r.QuadraticProbing(key);
      if i == -1 {
        assert false;
      }
    }
    r.Store(i, key, n);
    if 2 * r.nElements > r.size {
      r := Rehash(r);
    }
  }

  ghost function OccupiedBelow(slots: Slots, n: nat): set<int>
    requires n <= |slots|
  {
    set s | 0 <= s < n && slots[s].Some?
  }

  ghost predicate HoldsBelow(slots: Slots, n: nat, key: string)
    requires n <= |slots|
  {
    exists s :: 0 <= s < n && slots[s].Some? && slots[s].value.key == key
  }

  lemma OccupiedNext(slots: Slots, i: nat)
    requires i < |slots|
    ensures |OccupiedBelow(slots, i + 1)| == |OccupiedBelow(slots, i)| + (if slots[i].Some? then 1 else 0)
    ensures |OccupiedBelow(slots, i + 1)| <= |Occupied(slots)|
  {
    var before, after := OccupiedBelow(slots, i), OccupiedBelow(slots, i + 1);
    assert after == if slots[i].Some? then before + {i} else before;
    SubsetSize(after, Occupied(slots));
  }

  /** A table of at least twice the size with the same keys. */
  method Rehash(list: MisspellList) returns (newList: MisspellList)
    requires list.Valid() && 2 * list.nElements <= list.size + 2
    ensures fresh(newList) && fresh(newList.entries) && newList.Settled() && newList.size >= 2 * list.size
    ensures forall k :: newList.Contains(k) <==> list.Contains(k)
    decreases 1
  {
    var newSize := NextPrime(2 * list.size);
    newList := new MisspellList(newSize);
    ghost var slots := list.entries[..];
    assert OccupiedBelow(slots, 0) == {};
    var i := 0;
    while i < list.size
      invariant 0 <= i <= list.size && newList.Settled() && newList.size == newSize
      invariant fresh(newList) && fresh(newList.entries) && list.entries[..] == slots
      invariant newList.nElements == |OccupiedBelow(slots, i)|
      invariant forall k :: newList.Contains(k) <==> HoldsBelow(slots, i, k)
    {
      OccupiedNext(slots, i);
      if list.entries[i].Some? {
        newList := InsertTable(newList, list.entries[i].value.key);
      }
      i := i + 1;
    }
    assert OccupiedBelow(slots, list.size) == Occupied(slots);
  }

  // ---------- The dictionary ----------

  class Dictionary {
    const size: nat
    const entries: array<Option<Slot>>
    var nElements: nat

    ghost predicate Valid()
      reads this, entries
    {
      // one expression, so that the verifier need not prove its parts one by one
      var valid := entries.Length == size && Table(Double, entries[..]) && nElements == |Occupied(entries[..])|;
      valid
    }

    ghost predicate Contains(key: string)
      reads this, entries
    {
      Holds(entries[..], key)
    }

    constructor (Size: nat)
      requires IsPrime(Size) && Size >= 5
      ensures Valid() && nElements == 0 && size == Size && fresh(entries)
      ensures forall k :: !Contains(k)
    {
      size := Size;
      nElements := 0;
      entries := new Option<Slot>[Size](_ => None);
      new;
      EmptyTable(Double, entries[..]);
    }

    /** While the dictionary is not full, the probes visit every slot, so a free one is met. */
    method DoubleHashing(key: string) returns (index: nat, ghost n: nat)
      requires Valid() && nElements < size
      ensures n < size && index == Probe(Double, size, key, n) && index < size
      ensures entries[index].None? && Taken(Double, entries[..], key, n)
    {
      var hashVal1 := HashDjb2(key, size);
      var hashVal2 := HashStep(key, size);
      ghost var free := FreeProbe(Double, entries[..], key);
      var i := 0;
      var slot := DoubleSlot(key, hashVal1, hashVal2, i, size);
      while entries[slot].Some?
        invariant slot == Probe(Double, size, key, i)
        invariant 0 <= i <= free && Taken(Double, entries[..], key, i)
        decreases free - i
      {
        i := i + 1;
        slot := DoubleSlot(key, hashVal1, hashVal2, i, size);
      }
      return slot, i;
    }

    method InsertEntry(key: string) returns (inserted: bool)
      requires Valid() && nElements < size
      modifies this, entries
      ensures inserted && Valid() && nElements == old(nElements) + 1
      ensures forall k :: Contains(k) <==> k == key || old(Contains(k))
    {
      var i := HashDjb2(key, size);
      ghost var n := 0;
      FirstProbe(Double, size, key);
      if entries[i].Some? {
        i, n := DoubleHashing(key);
      }
      Insert(Double, entries[..], key, n);
      ghost var slots := entries[..];
      var aValue := AsciiValue(key);
      entries[i] := Some(Slot(key, aValue));
      nElements := nElements + 1;
      assert entries[..] == slots[i := Some(Slot(key, aValue))];
      return true;
    }

    /** True exactly for the keys in the dictionary; it ends unless the dictionary is full and the key not in it. */
    method SearchEntry(key: string) returns (found: bool)
      requires Valid() && (nElements < size || Contains(key))
      ensures found <==> Contains(key)
    {
      if nElements == 0 {
        NothingOccupied(entries[..], key);
        return false;
      }
      var asciiVal := AsciiValue(key);
      var hashVal1 := HashDjb2(key, size);
      var hashVal2 := HashStep(key, size);
      FirstProbe(Double, size, key);
      ghost var stop := StopsWithin(entries[..], key);
      var i := hashVal1;
      var j := 0;
      while entries[i].Some?
        invariant i < size && i == Probe(Double, size, key, j)
        invariant j <= stop && Missed(Double, entries[..], key, j)
        decreases stop - j
      {
        SumOfStored(Double, entries[..], i);
        if entries[i].value.aValue == asciiVal {
          if entries[i].value.key == key {
            return true;
          }
        }
        MissedOne(Double, entries[..], key, j);
        j := j + 1;
        i := DoubleSlot(key, hashVal1, hashVal2, j, size);
      }
      Absent(Double, entries[..], key, j);
      return false;
    }
  }

  method DoubleSlot(key: string, hashVal1: nat, hashVal2: nat, i: nat, size: nat) returns (slot: nat)
    requires IsPrime(size) && size >= 5 && hashVal1 == Djb2(key, size) && hashVal2 == Hash2(key, size)
    ensures slot == Probe(Double, size, key, i)
  {
    slot := (hashVal1 + i * hashVal2) % size;
  }

  // ---------- Whole histories ----------

  /** After any insertions, the misspelling table holds exactly the words inserted. */
  method InsertAll(keys: seq<string>) returns (list: MisspellList)
    ensures list.Settled() && fresh(list) && fresh(list.entries)
    ensures forall k :: list.Contains(k) <==> k in keys
  {
    TrialDivision(MIN_SIZE, 4);
    list := new MisspellList(MIN_SIZE);
    for i := 0 to |keys|
      invariant list.Settled() && fresh(list) && fresh(list.entries)
      invariant forall k :: list.Contains(k) <==> k in keys[..i]
    {
      assert keys[..i + 1] == keys[..i] + [keys[i]];
      list := InsertTable(list, keys[i]);
    }
    assert keys[..|keys|] == keys;
  }

  /** What nextPrime(2 * nWords) gives for a file of so many line ends; one more is counted than there are. */
  ghost predicate DictionarySize(lineEnds: nat, size: nat) {
    var N := 2 * (lineEnds + 1);
    IsPrime(size) && if N < 10 then size == 11 else size >= N && forall q :: N <= q < size ==> !IsPrime(q)
  }

  /**
   The dictionary of a file of these words and so many line ends. All words are in it, unless they
   outnumber its slots: then, with every slot taken, the insertion of the next word does not end.
   */
  method Load(lineEnds: nat, words: seq<string>) returns (dict: Dictionary, ended: bool)
    ensures fresh(dict) && dict.Valid() && DictionarySize(lineEnds, dict.size)
    ensures ended <==> |words| <= dict.size
    ensures dict.nElements == if ended then |words| else dict.size
    ensures forall k :: dict.Contains(k) <==> k in words[..dict.nElements]
    ensures !ended ==> forall n: nat :: dict.entries[Probe(Double, dict.size, words[dict.size], n)].Some?
  {
    var prime := NextPrime(2 * (lineEnds + 1));
    dict := new Dictionary(prime);
    ended := true;
    var i := 0;
    while i < |words| && ended
      invariant 0 <= i <= |words| && dict.Valid() && fresh(dict) && fresh(dict.entries) && dict.size == prime
      invariant dict.nElements == i <= prime && (!ended ==> i == prime < |words|)
      invariant forall k :: dict.Contains(k) <==> k in words[..i]
      decreases |words| - i, ended
    {
      if dict.nElements == dict.size {
        ended := false;
      } else {
        assert words[..i + 1] == words[..i] + [words[i]];
        var inserted := dict.InsertEntry(words[i]);
        i := i + 1;
      }
    }
    if !ended {
      InsertEndsExactlyWhen(dict.entries[..], words[prime]);
    }
  }

  /** With a line end after each word but the last, at least half the slots stay free. */
  lemma WordPerLineFits(lineEnds: nat, size: nat, words: seq<string>)
    requires DictionarySize(lineEnds, size) && |words| <= lineEnds + 1
    ensures 2 * |words| <= size
  {
  }

  /** Twelve words on a single line get eleven slots. */
  lemma TwelveOnOneLine(words: seq<string>)
    requires |words| == 12
    ensures DictionarySize(0, 11) && forall size: nat :: DictionarySize(0, size) ==> size < |words|
  {
    TrialDivision(11, 4);
  }
}

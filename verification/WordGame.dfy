/**
 The word game: words spelled from a level's letters, found by backtracking over the letters and
 accepted from the player by counting them.
 */
module WordGame {
  import opened Options

  const MIN_WORD_LENGTH := 2

  /** The level's own test of an input: present, and no letter used more often than the level has it. */
  ghost predicate Spellable(letters: seq<char>, w: string) {
    w != [] && multiset(w) <= multiset(letters)
  }

  class Level {
    const letters: seq<char>

    constructor (letters: seq<char>)
      ensures this.letters == letters
    {
      this.letters := letters;
    }

    method IsValidInput(input: Option<string>) returns (valid: bool)
      ensures valid <==> input.Some? && Spellable(letters, input.value)
    {
      if input.None? {
        return false;
      }
      var word := input.value;
      if word == [] || |word| > |letters| {
        NotLonger(letters, word);
        return false;
      }
      var charCount := CountLetters(letters);
      for i := 0 to |word|
        invariant Counts(charCount, multiset(letters) - multiset(word[..i]))
        invariant multiset(word[..i]) <= multiset(letters)
      {
        PrefixCounts(word, i);
        var count := Count(charCount, word[i]) - 1;
        if count < 0 {
          assert multiset(word)[word[i]] > multiset(letters)[word[i]];
          return false;
        }
        TakeOne(charCount, multiset(letters), multiset(word[..i]), word[i]);
        charCount := charCount[word[i] := count];
      }
      assert word[..|word|] == word;
      return true;
    }
  }

  function Count(m: map<char, int>, c: char): int { if c in m then m[c] else 0 }

  ghost predicate Counts(m: map<char, int>, s: multiset<char>) {
    forall c :: Count(m, c) == s[c]
  }

  lemma TakeOne(m: map<char, int>, s: multiset<char>, taken: multiset<char>, c: char)
    requires Counts(m, s - taken) && taken <= s && Count(m, c) >= 1
    ensures taken + multiset{c} <= s && Counts(m[c := Count(m, c) - 1], s - (taken + multiset{c}))
  {
    assert (s - taken)[c] >= 1;
    forall x
      ensures Count(m[c := Count(m, c) - 1], x) == (s - (taken + multiset{c}))[x]
    {
      assert Count(m, x) == (s - taken)[x];
    }
  }

  method CountLetters(letters: seq<char>) returns (charCount: map<char, int>)
    ensures Counts(charCount, multiset(letters))
  {
    charCount := map[];
    for i := 0 to |letters|
      invariant Counts(charCount, multiset(letters[..i]))
    {
      PrefixCounts(letters, i);
      charCount := charCount[letters[i] := Count(charCount, letters[i]) + 1];
    }
    assert letters[..|letters|] == letters;
  }

  lemma PrefixCounts(w: seq<char>, i: nat)
    requires i < |w|
    ensures multiset(w[..i + 1]) == multiset(w[..i]) + multiset{w[i]}
    ensures multiset(w[..i + 1]) <= multiset(w)
  {
    assert w[..i + 1] == w[..i] + [w[i]];
    assert w == w[..i + 1] + w[i + 1..];
  }

  lemma NotLonger(letters: seq<char>, w: string)
    ensures Spellable(letters, w) ==> |w| <= |letters|
  {
    if Spellable(letters, w) {
      var rest := multiset(letters) - multiset(w);
      assert multiset(letters) == multiset(w) + rest;
      assert |multiset(w)| == |w| && |multiset(letters)| == |letters|;
      assert |multiset(letters)| == |multiset(w)| + |rest|;
    }
  }

  // ---------- Letters still to be used ----------

  ghost function Unused(letters: seq<char>, used: seq<bool>): multiset<char>
    requires |letters| == |used|
  {
    if letters == [] then multiset{}
    else
      var n := |letters| - 1;
      Unused(letters[..n], used[..n]) + if used[n] then multiset{} else multiset{letters[n]}
  }

  lemma {:induction false} UseOne(letters: seq<char>, used: seq<bool>, i: nat)
    requires |letters| == |used| && i < |letters| && !used[i]
    ensures Unused(letters, used) == Unused(letters, used[i := true]) + multiset{letters[i]}
  {
    var n := |letters| - 1;
    if i < n {
      UseOne(letters[..n], used[..n], i);
      assert used[i := true][..n] == used[..n][i := true];
    } else {
      assert used[i := true][..n] == used[..n];
    }
  }

  lemma {:induction false} SomeUnused(letters: seq<char>, used: seq<bool>, c: char) returns (i: nat)
    requires |letters| == |used| && c in Unused(letters, used)
    ensures i < |letters| && !used[i] && letters[i] == c
  {
    var n := |letters| - 1;
    if !used[n] && letters[n] == c {
      i := n;
    } else {
      i := SomeUnused(letters[..n], used[..n], c);
    }
  }

  lemma {:induction false} AllUnused(letters: seq<char>, used: seq<bool>)
    requires |letters| == |used| && forall i :: 0 <= i < |used| ==> !used[i]
    ensures Unused(letters, used) == multiset(letters)
  {
    if letters != [] {
      var n := |letters| - 1;
      AllUnused(letters[..n], used[..n]);
      assert letters == letters[..n] + [letters[n]];
    }
  }

  /** w continues current with letters not yet used. */
  ghost predicate Continues(letters: seq<char>, used: seq<bool>, current: string, w: string)
    requires |letters| == |used|
  {
    current <= w && multiset(w[|current|..]) <= Unused(letters, used)
  }

  lemma Cancel(a: multiset<char>, b: multiset<char>, c: char)
    requires multiset{c} + a <= b + multiset{c}
    ensures a <= b
  {
    forall x
      ensures a[x] <= b[x]
    {
      assert (multiset{c} + a)[x] <= (b + multiset{c})[x];
    }
  }

  /** The next letter of a longer word is some unused one. */
  ghost predicate ContinuesWith(letters: seq<char>, used: seq<bool>, current: string, w: string, i: nat)
    requires |letters| == |used| && i < |letters|
  {
    !used[i] && Continues(letters, used[i := true], current + [letters[i]], w)
  }

  /** The next letter is one of the first n. */
  ghost predicate ContinuesBelow(letters: seq<char>, used: seq<bool>, current: string, w: string, n: nat)
    requires |letters| == |used| && n <= |letters|
  {
    exists i: nat :: i < n && ContinuesWith(letters, used, current, w, i)
  }

  lemma BelowNext(letters: seq<char>, used: seq<bool>, current: string, w: string, n: nat)
    requires |letters| == |used| && n < |letters|
    ensures ContinuesBelow(letters, used, current, w, n + 1) <==>
      ContinuesBelow(letters, used, current, w, n) || ContinuesWith(letters, used, current, w, n)
  {
  }

  lemma OneMoreLetter(letters: seq<char>, used: seq<bool>, current: string, w: string)
    requires |letters| == |used| && |current| < |w|
    ensures Continues(letters, used, current, w) <==> ContinuesBelow(letters, used, current, w, |letters|)
  {
    if current <= w {
      var c, rest := w[|current|], w[|current| + 1..];
      assert w[|current|..] == [c] + rest;
      if Continues(letters, used, current, w) {
        assert c in multiset(w[|current|..]);
        var i := SomeUnused(letters, used, c);
        UseOne(letters, used, i);
        assert w[..|current| + 1] == current + [c];
        Cancel(multiset(rest), Unused(letters, used[i := true]), c);
        assert w[|current + [c]|..] == rest;
        assert ContinuesWith(letters, used, current, w, i);
      }
      if i: nat :| i < |letters| && ContinuesWith(letters, used, current, w, i) {
        UseOne(letters, used, i);
        assert (current + [letters[i]])[|current|] == w[|current|];
      }
    } else {
      forall i: nat | i < |letters|
        ensures !ContinuesWith(letters, used, current, w, i)
      {
        assert (current + [letters[i]])[..|current|] == current;
      }
    }
  }

  // ---------- The generator ----------

  /** The list the recursion appends to. */
  class WordList {
    var words: seq<string>

    constructor ()
      ensures words == []
    {
      words := [];
    }
  }

  ghost predicate Unrepeated(words: seq<string>) {
    forall i, j :: 0 <= i < j < |words| ==> words[i] != words[j]
  }

  class Dictionary {
    const entries: set<string>

    constructor (entries: set<string>)
      ensures this.entries == entries
    {
      this.entries := entries;
    }

    /** Appends the dictionary words of this length that continue current, and leaves used as it was. */
    method GeneratePermutations(letters: seq<char>, current: string, wordLength: nat, used: array<bool>,
                                validWords: WordList)
      requires used.Length == |letters| && |current| <= wordLength && Unrepeated(validWords.words)
      modifies used, validWords
      ensures used[..] == old(used[..]) && Unrepeated(validWords.words)
      ensures forall w :: w in validWords.words <==>
        w in old(validWords.words) || (w in entries && |w| == wordLength
          && Continues(letters, old(used[..]), current, w))
      decreases wordLength - |current|
    {
      if |current| == wordLength {
        OnlyItself(letters, used[..], current);
        if current in entries && current !in validWords.words {
          validWords.words := validWords.words + [current];
        }
        return;
      }
      ghost var before, flags := validWords.words, used[..];
      for i := 0 to |letters|
        invariant used[..] == flags && Unrepeated(validWords.words)
        invariant forall w :: w in validWords.words <==>
          w in before || (w in entries && |w| == wordLength && ContinuesBelow(letters, flags, current, w, i))
      {
        forall w
          ensures ContinuesBelow(letters, flags, current, w, i + 1) <==>
            ContinuesBelow(letters, flags, current, w, i) || ContinuesWith(letters, flags, current, w, i)
        {
          BelowNext(letters, flags, current, w, i);
        }
        if !used[i] {
          used[i] := true;
          assert used[..] == flags[i := true];
          GeneratePermutations(letters, current + [letters[i]], wordLength, used, validWords);
          used[i] := false;
          assert used[..] == flags;
        }
      }
      forall w | |w| == wordLength
        ensures Continues(letters, flags, current, w) <==> ContinuesBelow(letters, flags, current, w, |letters|)
      {
        OneMoreLetter(letters, flags, current, w);
      }
    }

    /** Exactly the dictionary words of this length that the level would accept, once each. */
    method GenerateWordsToGuess(letters: seq<char>, wordLength: nat) returns (words: seq<string>)
      requires wordLength >= 1
      ensures Unrepeated(words)
      ensures forall w :: w in words <==> w in entries && |w| == wordLength && Spellable(letters, w)
    {
      var validWords := new WordList();
      var used := new bool[|letters|](_ => false);
      AllUnused(letters, used[..]);
      ghost var flags := used[..];
      GeneratePermutations(letters, "", wordLength, used, validWords);
      forall w: string
        ensures Continues(letters, flags, "", w) <==> multiset(w) <= multiset(letters)
      {
        assert w[|""|..] == w;
      }
      return validWords.words;
    }

    /** The candidates of a level: the words of every length from the shortest allowed. */
    method CandidateWords(letters: seq<char>) returns (wordsList: seq<string>)
      ensures Unrepeated(wordsList)
      ensures forall w :: w in wordsList <==> w in entries && |w| >= MIN_WORD_LENGTH && Spellable(letters, w)
    {
      wordsList := [];
      var i := MIN_WORD_LENGTH;
      while i <= |letters|
        invariant i >= MIN_WORD_LENGTH && Unrepeated(wordsList)
        invariant forall w :: w in wordsList <==> w in entries && MIN_WORD_LENGTH <= |w| < i && Spellable(letters, w)
      {
        var words := GenerateWordsToGuess(letters, i);
        UnrepeatedTogether(wordsList, words);
        wordsList := wordsList + words;
        i := i + 1;
      }
      forall w | Spellable(letters, w)
        ensures |w| <= |letters|
      {
        NotLonger(letters, w);
      }
    }
  }

  lemma UnrepeatedTogether(a: seq<string>, b: seq<string>)
    requires Unrepeated(a) && Unrepeated(b) && forall w :: w in a ==> w !in b
    ensures Unrepeated(a + b)
  {
    forall i, j | 0 <= i < j < |a + b|
      ensures (a + b)[i] != (a + b)[j]
    {
      if i < |a| <= j {
        assert a[i] in a && b[j - |a|] in b;
      }
    }
  }

  lemma OnlyItself(letters: seq<char>, used: seq<bool>, current: string)
    requires |letters| == |used|
    ensures forall w :: |w| == |current| ==> (Continues(letters, used, current, w) <==> w == current)
  {
    forall w | |w| == |current|
      ensures Continues(letters, used, current, w) <==> w == current
    {
      assert w[|current|..] == [];
      assert current <= w ==> w[..|current|] == w;
    }
  }
}

/**
 The reorder buffer that the server and the receiving client share: numbered letters come in any
 order and any number of times, and go out in order, once each.
 */
module Reordering {
  import opened Options

  /** A buffered letter and its sequence number. */
  datatype Entry = Entry(number: int, data: char)

  /** The next number to go out, and letters that came too early, latest first. */
  datatype Queue = Queue(expected: nat, buffer: seq<Entry>)

  /** The position of the first entry with this number from i on, or the length of the buffer. */
  function FindFrom(buffer: seq<Entry>, wanted: int, i: nat): (k: nat)
    requires i <= |buffer|
    ensures i <= k <= |buffer|
    ensures k < |buffer| ==> buffer[k].number == wanted
    ensures forall j :: i <= j < k ==> buffer[j].number != wanted
    decreases |buffer| - i
  {
    if i == |buffer| then i
    else if buffer[i].number == wanted then i
    else FindFrom(buffer, wanted, i + 1)
  }

  function Find(buffer: seq<Entry>, wanted: int): (k: nat)
    ensures k <= |buffer|
    ensures k < |buffer| ==> buffer[k].number == wanted
    ensures forall j :: 0 <= j < k ==> buffer[j].number != wanted
  {
    FindFrom(buffer, wanted, 0)
  }

  function Without(buffer: seq<Entry>, k: nat): (r: seq<Entry>)
    requires k < |buffer|
    ensures |r| == |buffer| - 1
  {
    buffer[..k] + buffer[k + 1..]
  }

  /** Buffered letters that are next in turn go out one by one; the result is what is left and what went out. */
  function Drain(q: Queue): (r: (Queue, seq<Entry>))
    decreases |q.buffer|
  {
    var k := Find(q.buffer, q.expected);
    if k == |q.buffer| then (q, [])
    else
      var later := Drain(Queue(q.expected + 1, Without(q.buffer, k)));
      (later.0, [Entry(q.expected, q.buffer[k].data)] + later.1)
  }

  /** A letter comes in: what remains, what goes out, and the number asked for again if the letter is early. */
  function Accept(q: Queue, e: Entry): (r: (Queue, seq<Entry>, Option<nat>)) {
    if e.number < q.expected then (q, [], None)
    else if e.number == q.expected then
      var (rest, out) := Drain(q.(expected := q.expected + 1));
      (rest, [e] + out, None)
    else (q.(buffer := [e] + q.buffer), [], Some(q.expected))
  }

  // ---------- What the queue knows of the letters that have come ----------

  ghost predicate Numbers(e: Entry, letters: seq<char>) {
    0 <= e.number < |letters| && e.data == letters[e.number]
  }

  /** Everything before expected has come, expected has not, and what came later is buffered. */
  ghost predicate Reflects(q: Queue, came: set<int>, letters: seq<char>) {
    && (forall i :: 0 <= i < q.expected ==> i in came)
    && q.expected !in came && q.expected <= |letters|
    && Buffered(q, came, letters)
  }

  ghost predicate Buffered(q: Queue, came: set<int>, letters: seq<char>) {
    && (forall i :: i in came ==> 0 <= i < |letters|)
    && (forall k :: 0 <= k < |q.buffer| ==> Numbers(q.buffer[k], letters) && q.buffer[k].number in came)
    && (forall i :: i in came && i >= q.expected ==> exists k :: 0 <= k < |q.buffer| && q.buffer[k].number == i)
  }

  /** Letters from up to to, with their numbers. */
  function Numbered(letters: seq<char>, from: nat, to: nat): (es: seq<Entry>)
    requires from <= to <= |letters|
    ensures |es| == to - from && forall i :: 0 <= i < |es| ==> es[i] == Entry(from + i, letters[from + i])
  {
    seq(to - from, i requires 0 <= i < to - from => Entry(from + i, letters[from + i]))
  }

  lemma BufferedWithout(q: Queue, i: nat, came: set<int>, letters: seq<char>)
    requires Buffered(q, came, letters) && i < |q.buffer| && q.buffer[i].number == q.expected
    ensures Buffered(Queue(q.expected + 1, Without(q.buffer, i)), came, letters)
  {
    var rest := Without(q.buffer, i);
    assert forall k :: 0 <= k < |rest| ==> rest[k] == q.buffer[if k < i then k else k + 1];
    forall j | j in came && j >= q.expected + 1
      ensures exists k :: 0 <= k < |rest| && rest[k].number == j
    {
      var k :| 0 <= k < |q.buffer| && q.buffer[k].number == j;
      assert rest[if k < i then k else k - 1] == q.buffer[k];
    }
  }

  /** Draining sends out exactly the letters up to the next one missing. */
  lemma {:induction false} DrainInOrder(q: Queue, came: set<int>, letters: seq<char>)
    requires Buffered(q, came, letters) && (forall i :: 0 <= i < q.expected ==> i in came) && q.expected <= |letters|
    ensures var (rest, out) := Drain(q);
      Reflects(rest, came, letters) && q.expected <= rest.expected
        && out == Numbered(letters, q.expected, rest.expected)
    decreases |q.buffer|
  {
    var i := Find(q.buffer, q.expected);
    if i == |q.buffer| {
      NothingToDrain(q, came, letters);
    } else {
      assert Numbers(q.buffer[i], letters);
      BufferedWithout(q, i, came, letters);
      var later := Queue(q.expected + 1, Without(q.buffer, i));
      DrainInOrder(later, came, letters);
      NumberedFrom(letters, q.expected, Drain(later).0.expected);
    }
  }

  lemma NothingToDrain(q: Queue, came: set<int>, letters: seq<char>)
    requires Buffered(q, came, letters) && (forall i :: 0 <= i < q.expected ==> i in came) && q.expected <= |letters|
    requires forall k :: 0 <= k < |q.buffer| ==> q.buffer[k].number != q.expected
    ensures Reflects(q, came, letters) && Numbered(letters, q.expected, q.expected) == []
  {
  }

  lemma NumberedFrom(letters: seq<char>, from: nat, to: nat)
    requires from < to <= |letters|
    ensures Numbered(letters, from, to) == [Entry(from, letters[from])] + Numbered(letters, from + 1, to)
  {
  }

  lemma BufferedAlso(q: Queue, n: int, came: set<int>, letters: seq<char>)
    requires Buffered(q, came, letters) && n == q.expected < |letters|
    ensures Buffered(q.(expected := q.expected + 1), came + {n}, letters)
  {
  }

  lemma BufferedWith(q: Queue, e: Entry, came: set<int>, letters: seq<char>)
    requires Buffered(q, came, letters) && Numbers(e, letters)
    ensures Buffered(q.(buffer := [e] + q.buffer), came + {e.number}, letters)
  {
    var more := [e] + q.buffer;
    assert forall k :: 0 <= k < |q.buffer| ==> more[k + 1] == q.buffer[k];
    forall j | j in came + {e.number} && j >= q.expected
      ensures exists k :: 0 <= k < |more| && more[k].number == j
    {
      if j in came {
        var k :| 0 <= k < |q.buffer| && q.buffer[k].number == j;
        assert more[k + 1] == q.buffer[k];
      } else {
        assert more[0].number == j;
      }
    }
  }

  /** Whatever comes, however often: the queue reflects it, and what goes out continues in order. */
  lemma AcceptInOrder(q: Queue, e: Entry, came: set<int>, letters: seq<char>)
    requires Reflects(q, came, letters) && Numbers(e, letters)
    ensures var (rest, out, nack) := Accept(q, e);
      && Reflects(rest, came + {e.number}, letters) && q.expected <= rest.expected
      && out == Numbered(letters, q.expected, rest.expected)
      && nack == if rest.expected < e.number then Some(rest.expected) else None
  {
    if e.number == q.expected {
      BufferedAlso(q, e.number, came, letters);
      DrainInOrder(q.(expected := q.expected + 1), came + {e.number}, letters);
      NumberedFrom(letters, q.expected, Accept(q, e).0.expected);
    } else if e.number > q.expected {
      BufferedWith(q, e, came, letters);
    } else {
      assert came + {e.number} == came;
    }
  }
}

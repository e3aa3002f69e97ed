/**
 What every run of the relay keeps, whatever the network does: receivers show a prefix of what was
 typed, the server waits for exactly the first letter it has not had, and every request can be met.
 */
module RelayRuns {
  import opened Options
  import opened Reordering
  import opened RelayProtocol

  /** What is on a screen after these keys. */
  function Screen(keys: seq<char>): seq<char> {
    if keys == [] then []
    else
      var before, c := Screen(keys[..|keys| - 1]), keys[|keys| - 1];
      if !Erases(c) then before + [c] else if before == [] then [] else before[..|before| - 1]
  }

  ghost predicate SenderOk(s: Sender) {
    && |s.buffer| == MAX_LINE && s.counted <= s.count <= MAX_LINE
    && -1 <= s.signal < s.count
    && s.length == |Screen(Letters(s))|
  }

  /** The channel to the server holds exactly the numbered letters. */
  ghost predicate UpOk(up: set<Entry>, letters: seq<char>) {
    && (forall e :: e in up ==> Numbers(e, letters))
    && (forall i :: 0 <= i < |letters| ==> Entry(i, letters[i]) in up)
  }

  ghost predicate ServerOk(v: Server, arrived: set<int>, letters: seq<char>) {
    && Reflects(v.queue, arrived, letters)
    && (forall i :: i in arrived ==> !Unreadable(letters[i]))
    && (forall k :: 0 <= k < |v.sent| ==> Numbers(v.sent[k], letters) && v.sent[k].number in arrived)
    && (forall i :: i in arrived ==> exists k :: 0 <= k < |v.sent| && v.sent[k].number == i)
  }

  /** A letter the server has passed on. */
  ghost predicate Passed(e: Entry, expected: nat, letters: seq<char>) {
    Numbers(e, letters) && e.number < expected && !Unreadable(e.data)
  }

  /**
   A receiver's channels hold only letters passed on and requests for them; it shows what it has
   processed in order.
   */
  ghost predicate HopOk(h: Hop, expected: nat, letters: seq<char>) {
    && expected <= |letters| && (forall e :: e in h.inbox ==> Passed(e, expected, letters))
    && (forall i :: 0 <= i < expected ==> Entry(i, letters[i]) in h.inbox)
    && (h.receiver.slot.Some? ==> h.receiver.slot.value in h.inbox)
    && Reflects(h.receiver.queue, h.processed, letters)
    && (forall i :: i in h.processed ==> i < expected)
    && h.receiver.shown == letters[..h.receiver.queue.expected]
    && (forall n :: n in h.nacks ==> 0 <= n < expected)
  }

  ghost predicate HopsOk(hops: seq<Hop>, expected: nat, letters: seq<char>) {
    forall i :: 0 <= i < |hops| ==> HopOk(hops[i], expected, letters)
  }

  ghost predicate Invariant(s: System) {
    && SenderOk(s.sender)
    && UpOk(s.up, Letters(s.sender)) && (forall n :: n in s.down ==> 0 <= n < s.sender.count)
    && ServerOk(s.server, s.arrived, Letters(s.sender))
    && HopsOk(s.hops, s.server.queue.expected, Letters(s.sender))
  }

  // ---------- Typing one more letter ----------

  lemma ReflectsMore(q: Queue, came: set<int>, letters: seq<char>, c: char)
    requires Reflects(q, came, letters)
    ensures Reflects(q, came, letters + [c])
  {
    forall k | 0 <= k < |q.buffer|
      ensures Numbers(q.buffer[k], letters + [c])
    {
      assert Numbers(q.buffer[k], letters);
    }
  }

  lemma TypeKeeps(s: System, c: char)
    requires Invariant(s) && Enabled(s, Type(c))
    ensures Invariant(Next(s, Type(c)))
  {
    var letters := Letters(s.sender);
    var t := Next(s, Type(c));
    if t.sender.count == s.sender.count {
      assert Letters(t.sender) == letters;
    } else {
      assert Letters(t.sender) == letters + [c];
      assert (letters + [c])[..|letters|] == letters;
      ReflectsMore(s.server.queue, s.arrived, letters, c);
      forall i | 0 <= i < |s.hops|
        ensures HopOk(s.hops[i], s.server.queue.expected, letters + [c])
      {
        HopMore(s.hops[i], s.server.queue.expected, letters, c);
      }
    }
  }

  lemma HopMore(h: Hop, expected: nat, letters: seq<char>, c: char)
    requires HopOk(h, expected, letters)
    ensures HopOk(h, expected, letters + [c])
  {
    ReflectsMore(h.receiver.queue, h.processed, letters, c);
    forall e | e in h.inbox
      ensures Passed(e, expected, letters + [c])
    {
      assert Passed(e, expected, letters);
    }
  }

  // ---------- The first hop ----------

  lemma AnswerKeeps(s: System)
    requires Invariant(s) && Enabled(s, Answer)
    ensures Invariant(Next(s, Answer))
  {
    var t := Next(s, Answer);
    assert Letters(t.sender) == Letters(s.sender);
    assert s.sender.signal > -1 ==> s.sender.buffer[s.sender.signal] == Letters(s.sender)[s.sender.signal];
  }

  /** A letter taken in: the server still waits for the first one missing, and passes on those that are next. */
  lemma RelayKeeps(v: Server, arrived: set<int>, letters: seq<char>, e: Entry)
    requires ServerOk(v, arrived, letters) && Numbers(e, letters) && !Unreadable(e.data)
    ensures var (v', out, nack) := Relay(v, e);
      && ServerOk(v', arrived + {e.number}, letters)
      && v.queue.expected <= v'.queue.expected
      && out == Numbered(letters, v.queue.expected, v'.queue.expected)
      && nack == if v'.queue.expected < e.number then Some(v'.queue.expected) else None
  {
    if e.number >= v.queue.expected {
      AcceptInOrder(v.queue, e, arrived, letters);
      var (v', out, nack) := Relay(v, e);
      forall i | i in arrived + {e.number}
        ensures exists k :: 0 <= k < |v'.sent| && v'.sent[k].number == i
      {
        if i in arrived {
          var k :| 0 <= k < |v.sent| && v.sent[k].number == i;
          assert v'.sent[k + 1] == v.sent[k];
        } else {
          assert v'.sent[0].number == i;
        }
      }
    } else {
      assert arrived + {e.number} == arrived;
    }
  }

  /** The receivers' channels take the letters passed on. */
  lemma ForwardKeeps(hops: seq<Hop>, expected: nat, expected': nat, letters: seq<char>)
    requires HopsOk(hops, expected, letters) && expected <= expected' <= |letters|
    requires forall i :: expected <= i < expected' ==> !Unreadable(letters[i])
    ensures HopsOk(Forward(hops, Numbered(letters, expected, expected')), expected', letters)
  {
    var out := Numbered(letters, expected, expected');
    forall i | 0 <= i < |hops|
      ensures HopOk(Forward(hops, out)[i], expected', letters)
    {
      var h := Forward(hops, out)[i];
      forall e | e in h.inbox
        ensures Passed(e, expected', letters)
      {
        if e in hops[i].inbox {
          assert Passed(e, expected, letters);
        }
      }
      forall j | 0 <= j < expected'
        ensures Entry(j, letters[j]) in h.inbox
      {
        assert j >= expected ==> out[j - expected] == Entry(j, letters[j]);
      }
    }
  }

  lemma LetterArrivesKeeps(s: System, e: Entry)
    requires Invariant(s) && Enabled(s, LetterArrives(e))
    ensures Invariant(Next(s, LetterArrives(e)))
  {
    var letters := Letters(s.sender);
    assert Numbers(e, letters);
    if !Unreadable(e.data) {
      RelayKeeps(s.server, s.arrived, letters, e);
      var (v', out, nack) := Relay(s.server, e);
      ForwardKeeps(s.hops, s.server.queue.expected, v'.queue.expected, letters);
    } else {
      ForwardKeeps(s.hops, s.server.queue.expected, s.server.queue.expected, letters);
      assert Forward(s.hops, [])
        == Forward(s.hops, Numbered(letters, s.server.queue.expected, s.server.queue.expected));
    }
  }

  // ---------- The second hop ----------

  /** Whatever a receiver asks for, the server still has. */
  lemma ResendFinds(v: Server, arrived: set<int>, letters: seq<char>, number: int)
    requires ServerOk(v, arrived, letters) && 0 <= number < v.queue.expected
    ensures Resend(v, number) == Some(Entry(number, letters[number])) && !Unreadable(letters[number])
  {
    assert number in arrived;
    var i := Find(v.sent, number);
    assert i < |v.sent|;
    assert Numbers(v.sent[i], letters);
  }

  lemma ResendArrivesKeeps(s: System, hop: nat, number: int)
    requires Invariant(s) && Enabled(s, ResendArrives(hop, number))
    ensures Invariant(Next(s, ResendArrives(hop, number)))
  {
    ResendFinds(s.server, s.arrived, Letters(s.sender), number);
    assert HopOk(s.hops[hop], s.server.queue.expected, Letters(s.sender));
  }

  lemma ReceiveKeeps(h: Hop, expected: nat, letters: seq<char>)
    requires HopOk(h, expected, letters) && h.receiver.slot.Some?
    ensures var (receiver, nack) := Receive(h.receiver);
      HopOk(Hop(receiver, h.inbox, h.nacks + Extra(nack), h.processed + {h.receiver.slot.value.number}),
            expected, letters)
      && nack == if receiver.queue.expected < h.receiver.slot.value.number then Some(receiver.queue.expected) else None
  {
    var e := h.receiver.slot.value;
    assert Passed(e, expected, letters);
    AcceptInOrder(h.receiver.queue, e, h.processed, letters);
    var (receiver, nack) := Receive(h.receiver);
    assert receiver.shown == letters[..receiver.queue.expected];
  }

  lemma ProcessKeeps(s: System, hop: nat)
    requires Invariant(s) && Enabled(s, Process(hop))
    ensures Invariant(Next(s, Process(hop)))
  {
    var h := s.hops[hop];
    assert HopOk(h, s.server.queue.expected, Letters(s.sender));
    assert Passed(h.receiver.slot.value, s.server.queue.expected, Letters(s.sender));
    ReceiveKeeps(h, s.server.queue.expected, Letters(s.sender));
  }

  /** Every action of the clients, the server or the network keeps the invariant. */
  lemma NextKeeps(s: System, a: Action)
    requires Invariant(s) && Enabled(s, a)
    ensures Invariant(Next(s, a))
  {
    match a
    case Type(c) => TypeKeeps(s, c);
    case Count =>
      assert Letters(Next(s, a).sender) == Letters(s.sender);
    case NackArrives(number) =>
      assert Letters(Next(s, a).sender) == Letters(s.sender);
    case Answer => AnswerKeeps(s);
    case LetterArrives(entry) => LetterArrivesKeeps(s, entry);
    case ResendArrives(hop, number) => ResendArrivesKeeps(s, hop, number);
    case Deliver(hop, entry) =>
      assert HopOk(s.hops[hop], s.server.queue.expected, Letters(s.sender));
    case Process(hop) => ProcessKeeps(s, hop);
  }

  // ---------- Runs ----------

  /** Nothing typed, nothing sent, nothing buffered. */
  function Start(receivers: nat): System {
    System(Sender(seq(MAX_LINE, _ => ' '), 0, 0, 0, -1), {}, {}, Server(Queue(0, []), []), {},
           seq(receivers, _ => Hop(Receiver(Queue(0, []), [], None), {}, {}, {})))
  }

  predicate Possible(s: System, actions: seq<Action>)
    decreases |actions|
  {
    actions == [] || (Enabled(s, actions[0]) && Possible(Next(s, actions[0]), actions[1..]))
  }

  function Outcome(s: System, actions: seq<Action>): System
    requires Possible(s, actions)
    decreases |actions|
  {
    if actions == [] then s else Outcome(Next(s, actions[0]), actions[1..])
  }

  /** From s to t: letters are only added, and no screen takes anything back. */
  ghost predicate Onwards(s: System, t: System) {
    && Invariant(t) && s.sender.count <= |s.sender.buffer|
    && Letters(s.sender) <= Letters(t.sender) && |t.hops| == |s.hops|
    && forall i :: 0 <= i < |s.hops| ==> s.hops[i].receiver.shown <= t.hops[i].receiver.shown
  }

  lemma NextOnwards(s: System, a: Action)
    requires Invariant(s) && Enabled(s, a)
    ensures Onwards(s, Next(s, a))
  {
    NextKeeps(s, a);
  }

  lemma {:induction false} RunKeeps(s: System, actions: seq<Action>)
    requires Invariant(s) && Possible(s, actions)
    ensures Onwards(s, Outcome(s, actions))
    decreases |actions|
  {
    if actions != [] {
      NextOnwards(s, actions[0]);
      RunKeeps(Next(s, actions[0]), actions[1..]);
    }
  }

  lemma StartKeeps(receivers: nat)
    ensures Invariant(Start(receivers))
  {
  }

  /** x is the least number not in the set. */
  ghost predicate LeastMissing(x: nat, came: set<int>) {
    x !in came && forall i: nat :: i < x ==> i in came
  }

  lemma ReceiverBehind(h: Hop, expected: nat, letters: seq<char>)
    requires HopOk(h, expected, letters)
    ensures h.receiver.queue.expected <= expected
  {
    assert h.receiver.queue.expected > expected ==> expected in h.processed;
  }

  // ---------- The keys typed ----------

  /** The key of an action, if it is one. */
  function Key(a: Action): seq<char> { if a.Type? then [a.c] else [] }

  /** The keys of a run, in order. */
  function Typed(actions: seq<Action>): seq<char> {
    if actions == [] then [] else Key(actions[0]) + Typed(actions[1..])
  }

  /** The keys without the erasing ones that found nothing on the screen to erase. */
  function Kept(keys: seq<char>): seq<char> {
    if keys == [] then []
    else
      var before, c := keys[..|keys| - 1], keys[|keys| - 1];
      if Erases(c) && Screen(before) == [] then Kept(before) else Kept(before) + [c]
  }

  /** They make no difference to the screen. */
  lemma {:induction false} KeptScreen(keys: seq<char>)
    ensures Screen(Kept(keys)) == Screen(keys)
  {
    if keys != [] {
      var before, c := keys[..|keys| - 1], keys[|keys| - 1];
      KeptScreen(before);
      assert (Kept(before) + [c])[..|Kept(before)|] == Kept(before);
    }
  }

  /** The letters numbered are these keys; behind a dummy quantifier, so that it is unfolded only where asked for. */
  ghost predicate NumbersKeys(s: Sender, keys: seq<char>) {
    forall k: nat :: NumbersKeysAt(s, keys, k)
  }

  ghost predicate NumbersKeysAt(s: Sender, keys: seq<char>, k: nat) {
    s.count <= |s.buffer| && Letters(s) == Kept(keys) && s.length == |Screen(keys)|
  }

  /** One action numbers its key unless it has nothing to erase. */
  lemma NextLetters(s: System, a: Action, keys: seq<char>)
    requires NumbersKeys(s.sender, keys) && Enabled(s, a)
    ensures NumbersKeys(Next(s, a).sender, keys + Key(a))
  {
    assert NumbersKeysAt(s.sender, keys, 0);
    var t := Next(s, a);
    if a.Type? {
      TypeLetters(s.sender, a.c, keys);
    } else {
      assert keys + Key(a) == keys && Letters(t.sender) == Letters(s.sender);
    }
  }

  lemma TypeLetters(s: Sender, c: char, keys: seq<char>)
    requires NumbersKeysAt(s, keys, 0) && s.count < |s.buffer|
    ensures NumbersKeysAt(TypeKey(s, c).0, keys + [c], 0)
  {
    var all, t := keys + [c], TypeKey(s, c).0;
    assert all[..|all| - 1] == keys && all[|all| - 1] == c;
    assert t.buffer[..s.count] == Letters(s);
  }

  lemma {:induction false} RunLetters(s: System, actions: seq<Action>, keys: seq<char>)
    requires NumbersKeys(s.sender, keys) && Possible(s, actions)
    ensures NumbersKeys(Outcome(s, actions).sender, keys + Typed(actions))
    decreases |actions|
  {
    if actions == [] {
      assert keys + Typed(actions) == keys;
    } else {
      NextLetters(s, actions[0], keys);
      RunLetters(Next(s, actions[0]), actions[1..], keys + Key(actions[0]));
      assert keys + Key(actions[0]) + Typed(actions[1..]) == keys + Typed(actions);
    }
  }

  lemma StartLetters(receivers: nat)
    ensures NumbersKeys(Start(receivers).sender, [])
  {
  }

  /**
   In every run the letters numbered are the keys typed so far, less exactly the erasing keys typed
   when there was nothing on the screen, and the channel to the server carries those letters.
   */
  lemma LettersTyped(receivers: nat, actions: seq<Action>)
    requires Possible(Start(receivers), actions)
    ensures var s, letters := Outcome(Start(receivers), actions), Kept(Typed(actions));
      && s.sender.count <= |s.sender.buffer| && Letters(s.sender) == letters
      && UpOk(s.up, letters) && s.sender.length == |Screen(Typed(actions))|
  {
    var s := Outcome(Start(receivers), actions);
    StartLetters(receivers);
    RunLetters(Start(receivers), actions, []);
    assert [] + Typed(actions) == Typed(actions);
    assert NumbersKeysAt(s.sender, Typed(actions), 0);
    StartKeeps(receivers);
    RunKeeps(Start(receivers), actions);
  }

  /**
   Whatever the network does, every screen shows a prefix of the keys typed, those with nothing to
   erase left out, and the server waits for the first letter missing.
   */
  lemma EndToEnd(receivers: nat, actions: seq<Action>)
    requires Possible(Start(receivers), actions)
    ensures var s, letters := Outcome(Start(receivers), actions), Kept(Typed(actions));
      && LeastMissing(s.server.queue.expected, s.arrived) && s.server.queue.expected <= |letters|
      && |s.hops| == receivers
      && forall i :: 0 <= i < receivers ==>
        && s.hops[i].receiver.shown <= letters
        && LeastMissing(|s.hops[i].receiver.shown|, s.hops[i].processed)
        && |s.hops[i].receiver.shown| <= s.server.queue.expected
  {
    StartKeeps(receivers);
    RunKeeps(Start(receivers), actions);
    LettersTyped(receivers, actions);
    var s := Outcome(Start(receivers), actions);
    forall i | 0 <= i < |s.hops|
      ensures s.hops[i].receiver.shown <= Letters(s.sender)
      ensures LeastMissing(|s.hops[i].receiver.shown|, s.hops[i].processed)
      ensures |s.hops[i].receiver.shown| <= s.server.queue.expected
    {
      ReceiverBehind(s.hops[i], s.server.queue.expected, Letters(s.sender));
    }
  }

  /** Every request in flight or waiting can be met with the letter as it was typed. */
  lemma RequestsMet(s: System, hop: nat, number: int)
    requires Invariant(s)
    ensures number in s.down ==> 0 <= number < s.sender.count
    ensures hop < |s.hops| && number in s.hops[hop].nacks ==>
      0 <= number < s.sender.count && Resend(s.server, number) == Some(Entry(number, Letters(s.sender)[number]))
  {
    if hop < |s.hops| && number in s.hops[hop].nacks {
      assert HopOk(s.hops[hop], s.server.queue.expected, Letters(s.sender));
      ResendFinds(s.server, s.arrived, Letters(s.sender), number);
    }
  }

  /** A receiver that has all the letters of a run shows what the keys typed put on the sender's own screen. */
  lemma SameScreen(receivers: nat, actions: seq<Action>, hop: nat)
    requires Possible(Start(receivers), actions) && hop < receivers
    ensures var s := Outcome(Start(receivers), actions);
      && hop < |s.hops|
      && (|s.hops[hop].receiver.shown| == |Kept(Typed(actions))| ==>
           Screen(s.hops[hop].receiver.shown) == Screen(Typed(actions)))
      && s.sender.length == |Screen(Typed(actions))|
  {
    EndToEnd(receivers, actions);
    LettersTyped(receivers, actions);
    WholeScreen(Outcome(Start(receivers), actions).hops[hop].receiver.shown, Typed(actions));
  }

  lemma WholeScreen(shown: seq<char>, keys: seq<char>)
    requires shown <= Kept(keys)
    ensures |shown| == |Kept(keys)| ==> Screen(shown) == Screen(keys)
  {
    KeptScreen(keys);
    assert |shown| == |Kept(keys)| ==> shown == Kept(keys);
  }

  // ---------- When everything can be shown ----------

  /** At some later moment, whatever is typed meanwhile, the receiver's screen can show all the letters typed so far. */
  ghost predicate CanShowAll(s: System, hop: nat)
    requires s.sender.count <= |s.sender.buffer| && hop < |s.hops|
  {
    exists actions :: Possible(s, actions) && Shows(Outcome(s, actions), hop, Letters(s.sender))
  }

  predicate Untyped(actions: seq<Action>) { forall i :: 0 <= i < |actions| ==> !actions[i].Type? }

  /** The same without another key. */
  ghost predicate CanShowUntyped(s: System, hop: nat)
    requires s.sender.count <= |s.sender.buffer| && hop < |s.hops|
  {
    exists actions :: Untyped(actions) && Possible(s, actions) && Shows(Outcome(s, actions), hop, Letters(s.sender))
  }

  ghost predicate Shows(s: System, hop: nat, letters: seq<char>) {
    hop < |s.hops| && s.hops[hop].receiver.shown == letters
  }

  /** Nothing from an unreadable letter on is ever shown. */
  lemma Blocked(s: System, hop: nat, p: nat)
    requires Invariant(s) && hop < |s.hops| && p < s.sender.count && Unreadable(Letters(s.sender)[p])
    ensures |s.hops[hop].receiver.shown| <= p
  {
    var h, letters := s.hops[hop], Letters(s.sender);
    ReceiverBehind(h, s.server.queue.expected, letters);
    var e := Entry(p, letters[p]);
    assert |h.receiver.shown| > p ==> e in h.inbox;
  }

  /** The first letter missing is on its way; taking it in moves the server on. */
  lemma ServerMoves(s: System) returns (t: System)
    requires Invariant(s) && s.server.queue.expected < s.sender.count
    requires !Unreadable(Letters(s.sender)[s.server.queue.expected])
    ensures var a := LetterArrives(Entry(s.server.queue.expected, Letters(s.sender)[s.server.queue.expected]));
      Enabled(s, a) && t == Next(s, a)
    ensures Invariant(t) && t.sender == s.sender && |t.hops| == |s.hops|
      && t.server.queue.expected > s.server.queue.expected
  {
    var e := Entry(s.server.queue.expected, Letters(s.sender)[s.server.queue.expected]);
    t := Next(s, LetterArrives(e));
    NextKeeps(s, LetterArrives(e));
    RelayKeeps(s.server, s.arrived, Letters(s.sender), e);
    assert e.number in t.arrived;
  }

  lemma OneMore(s: System, a: Action, rest: seq<Action>)
    requires Enabled(s, a) && !a.Type? && Possible(Next(s, a), rest) && Untyped(rest)
    ensures Untyped([a] + rest) && Possible(s, [a] + rest)
    ensures Outcome(s, [a] + rest) == Outcome(Next(s, a), rest)
  {
    var actions := [a] + rest;
    assert actions[0] == a && actions[1..] == rest;
  }

  lemma UntypedBoth(first: seq<Action>, second: seq<Action>)
    requires Untyped(first) && Untyped(second)
    ensures Untyped(first + second)
  {
  }

  lemma {:induction false} ServerCatchesUp(s: System) returns (actions: seq<Action>)
    requires Invariant(s) && forall i :: 0 <= i < s.sender.count ==> !Unreadable(Letters(s.sender)[i])
    ensures Untyped(actions) && Possible(s, actions)
    ensures var t := Outcome(s, actions);
      Invariant(t) && t.sender == s.sender && |t.hops| == |s.hops| && t.server.queue.expected == s.sender.count
    decreases s.sender.count - s.server.queue.expected
  {
    if s.server.queue.expected == s.sender.count {
      actions := [];
    } else {
      var a := LetterArrives(Entry(s.server.queue.expected, Letters(s.sender)[s.server.queue.expected]));
      var t := ServerMoves(s);
      var rest := ServerCatchesUp(t);
      OneMore(s, a, rest);
      actions := [a] + rest;
    }
  }

  /** Two actions put the receiver's next letter on its screen, once its slot is free. */
  lemma ReceiverMoves(s: System, hop: nat) returns (t: System)
    requires Invariant(s) && hop < |s.hops| && s.hops[hop].receiver.slot.None?
    requires s.hops[hop].receiver.queue.expected < s.server.queue.expected
    ensures var r := s.hops[hop].receiver.queue.expected;
      r < |Letters(s.sender)| &&
      var deliver := Deliver(hop, Entry(r, Letters(s.sender)[r]));
      Enabled(s, deliver) && Enabled(Next(s, deliver), Process(hop)) && t == Next(Next(s, deliver), Process(hop))
    ensures Invariant(t) && t.sender == s.sender && t.server == s.server && |t.hops| == |s.hops|
    ensures t.hops[hop].receiver.slot.None? && t.hops[hop].receiver.queue.expected > s.hops[hop].receiver.queue.expected
  {
    var h := s.hops[hop];
    var letters := Letters(s.sender);
    var r := h.receiver.queue.expected;
    assert HopOk(h, s.server.queue.expected, letters);
    var u := Next(s, Deliver(hop, Entry(r, letters[r])));
    NextKeeps(s, Deliver(hop, Entry(r, letters[r])));
    NextKeeps(u, Process(hop));
    t := Next(u, Process(hop));
    assert Passed(Entry(r, letters[r]), s.server.queue.expected, letters);
    AcceptInOrder(h.receiver.queue, Entry(r, letters[r]), h.processed, letters);
  }

  lemma {:induction false} ReceiverCatchesUp(s: System, hop: nat) returns (actions: seq<Action>)
    requires Invariant(s) && hop < |s.hops| && s.hops[hop].receiver.slot.None?
    requires s.server.queue.expected == s.sender.count
    ensures Untyped(actions) && Possible(s, actions) && Shows(Outcome(s, actions), hop, Letters(s.sender))
    decreases s.sender.count - s.hops[hop].receiver.queue.expected
  {
    var h := s.hops[hop];
    ReceiverBehind(h, s.server.queue.expected, Letters(s.sender));
    var r := h.receiver.queue.expected;
    if r == s.sender.count {
      actions := [];
      assert h.receiver.shown == Letters(s.sender);
    } else {
      var t := ReceiverMoves(s, hop);
      ReceiverBehind(t.hops[hop], t.server.queue.expected, Letters(t.sender));
      var rest := ReceiverCatchesUp(t, hop);
      var deliver := Deliver(hop, Entry(r, Letters(s.sender)[r]));
      OneMore(Next(s, deliver), Process(hop), rest);
      OneMore(s, deliver, [Process(hop)] + rest);
      actions := [deliver] + ([Process(hop)] + rest);
    }
  }

  /** Whatever waits in the slot is processed first. */
  lemma SlotFreed(s: System, hop: nat) returns (actions: seq<Action>)
    requires Invariant(s) && hop < |s.hops|
    ensures Untyped(actions) && Possible(s, actions)
    ensures var t := Outcome(s, actions);
      && Invariant(t) && t.sender == s.sender && t.server == s.server && |t.hops| == |s.hops|
      && t.hops[hop].receiver.slot.None?
  {
    if s.hops[hop].receiver.slot.None? {
      actions := [];
    } else {
      actions := [Process(hop)];
      NextKeeps(s, Process(hop));
      assert Outcome(s, actions) == Next(s, Process(hop));
    }
  }

  lemma {:induction false} OneAfterTheOther(s: System, first: seq<Action>, second: seq<Action>)
    requires Possible(s, first) && Possible(Outcome(s, first), second)
    ensures Possible(s, first + second) && Outcome(s, first + second) == Outcome(Outcome(s, first), second)
    decreases |first|
  {
    if first == [] {
      assert first + second == second;
    } else {
      var both := first + second;
      assert both[0] == first[0] && both[1..] == first[1..] + second;
      OneAfterTheOther(Next(s, first[0]), first[1..], second);
    }
  }

  lemma Completes(s: System, hop: nat)
    requires Invariant(s) && hop < |s.hops|
    requires forall i :: 0 <= i < s.sender.count ==> !Unreadable(Letters(s.sender)[i])
    ensures CanShowUntyped(s, hop)
  {
    var first := ServerCatchesUp(s);
    var t := Outcome(s, first);
    var second := SlotFreed(t, hop);
    OneAfterTheOther(s, first, second);
    var third := ReceiverCatchesUp(Outcome(t, second), hop);
    OneAfterTheOther(s, first + second, third);
    UntypedBoth(first, second);
    UntypedBoth(first + second, third);
    assert Possible(s, first + second + third);
  }

  /**
   At any moment of any run, all the letters typed can still be shown if and only if each of them is
   readable; another key is not needed for it, and would not help.
   */
  lemma ShownIffReadable(s: System, hop: nat)
    requires Invariant(s) && hop < |s.hops|
    ensures CanShowAll(s, hop) <==> forall i :: 0 <= i < s.sender.count ==> !Unreadable(Letters(s.sender)[i])
    ensures CanShowUntyped(s, hop) <==> CanShowAll(s, hop)
  {
    if i :| 0 <= i < s.sender.count && Unreadable(Letters(s.sender)[i]) {
      forall actions | Possible(s, actions)
        ensures !Shows(Outcome(s, actions), hop, Letters(s.sender))
      {
        RunKeeps(s, actions);
        Blocked(Outcome(s, actions), hop, i);
      }
    } else {
      Completes(s, hop);
    }
  }

  /** A single separator typed is enough: it is never shown. */
  lemma SeparatorIsLost()
    ensures Possible(Start(1), [Type('|')])
    ensures var s := Outcome(Start(1), [Type('|')]);
      Invariant(s) && s.sender.count == 1 && |s.hops| == 1 && !CanShowAll(s, 0)
  {
    var start := Start(1);
    var s := Next(start, Type('|'));
    assert [Type('|')][1..] == [] && Outcome(s, []) == s;
    StartKeeps(1);
    NextKeeps(start, Type('|'));
    assert Letters(s.sender)[0] == '|';
    ShownIffReadable(s, 0);
  }
}

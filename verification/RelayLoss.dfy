/**
 The relay when the network loses packets for good: what it keeps, and exactly when the letters typed
 can still be shown without another key, by asking for the lost ones again.
 */
module RelayLoss {
  import opened Options
  import opened Reordering
  import opened RelayProtocol
  import opened RelayRuns

  // ---------- Losing packets ----------

  datatype Event =
    | Does(action: Action)
    | LosesLetter(letter: Entry)
    | LosesRequest(request: int)
    | LosesForwarded(hop: nat, entry: Entry)
    | LosesReceiverRequest(at: nat, number: int)

  predicate Happens(s: System, e: Event) {
    match e
    case Does(a) => Enabled(s, a)
    case LosesLetter(_) => true
    case LosesRequest(_) => true
    case LosesForwarded(hop, _) => hop < |s.hops|
    case LosesReceiverRequest(hop, _) => hop < |s.hops|
  }

  function After(s: System, e: Event): System
    requires Happens(s, e)
  {
    match e
    case Does(a) => Next(s, a)
    case LosesLetter(letter) => s.(up := s.up - {letter})
    case LosesRequest(request) => s.(down := s.down - {request})
    case LosesForwarded(hop, entry) => s.(hops := s.hops[hop := s.hops[hop].(inbox := s.hops[hop].inbox - {entry})])
    case LosesReceiverRequest(hop, number) =>
      s.(hops := s.hops[hop := s.hops[hop].(nacks := s.hops[hop].nacks - {number})])
  }

  predicate CanHappen(s: System, events: seq<Event>)
    decreases |events|
  {
    events == [] || (Happens(s, events[0]) && CanHappen(After(s, events[0]), events[1..]))
  }

  function AfterAll(s: System, events: seq<Event>): System
    requires CanHappen(s, events)
    decreases |events|
  {
    if events == [] then s else AfterAll(After(s, events[0]), events[1..])
  }

  ghost predicate HopLeft(h: Hop, whole: Hop) {
    h.receiver == whole.receiver && h.inbox <= whole.inbox && h.nacks <= whole.nacks && h.processed == whole.processed
  }

  /** What is left of a system when packets have been lost. */
  ghost predicate LeftOf(s: System, whole: System) {
    && s.sender == whole.sender && s.server == whole.server && s.arrived == whole.arrived
    && s.up <= whole.up && s.down <= whole.down && |s.hops| == |whole.hops|
    && forall i :: 0 <= i < |s.hops| ==> HopLeft(s.hops[i], whole.hops[i])
  }

  /** What can happen after a loss could have happened without it. */
  lemma LossChangesNothing(s: System, whole: System, a: Action)
    requires LeftOf(s, whole) && Enabled(s, a)
    ensures Enabled(whole, a) && LeftOf(Next(s, a), Next(whole, a))
  {
  }

  /** A state with losses is what is left of one without; hidden behind a dummy quantifier. */
  ghost predicate Lossy(s: System) {
    forall k: nat :: LossyAt(s, k)
  }

  ghost predicate LossyAt(s: System, k: nat) {
    exists whole :: LeftOf(s, whole) && Invariant(whole)
  }

  lemma LossyNext(s: System, a: Action)
    requires Lossy(s) && Enabled(s, a)
    ensures Lossy(Next(s, a))
  {
    assert LossyAt(s, 0);
    var whole :| LeftOf(s, whole) && Invariant(whole);
    LossChangesNothing(s, whole, a);
    NextKeeps(whole, a);
  }

  lemma LossyAfter(s: System, e: Event)
    requires Lossy(s) && Happens(s, e)
    ensures Lossy(After(s, e))
  {
    if e.Does? {
      LossyNext(s, e.action);
    } else {
      assert LossyAt(s, 0);
      var whole :| LeftOf(s, whole) && Invariant(whole);
      assert LeftOf(After(s, e), whole);
    }
  }

  lemma {:induction false} LossyRun(s: System, events: seq<Event>)
    requires Lossy(s) && CanHappen(s, events)
    ensures Lossy(AfterAll(s, events))
    decreases |events|
  {
    if events != [] {
      LossyAfter(s, events[0]);
      LossyRun(After(s, events[0]), events[1..]);
    }
  }

  /** A receiver's part of the invariant, without the letters' being still on their way. */
  ghost predicate HopHeld(h: Hop, expected: nat, letters: seq<char>) {
    && expected <= |letters| && (forall e :: e in h.inbox ==> Passed(e, expected, letters))
    && (h.receiver.slot.Some? ==> Passed(h.receiver.slot.value, expected, letters))
    && Reflects(h.receiver.queue, h.processed, letters)
    && (forall i :: i in h.processed ==> i < expected)
    && h.receiver.queue.expected <= expected && h.receiver.shown == letters[..h.receiver.queue.expected]
    && (forall n :: n in h.nacks ==> 0 <= n < expected)
  }

  /** What the invariant says of a state with losses. */
  ghost predicate Held(s: System) {
    && SenderOk(s.sender)
    && (forall e :: e in s.up ==> Numbers(e, Letters(s.sender)))
    && (forall n :: n in s.down ==> 0 <= n < s.sender.count)
    && ServerOk(s.server, s.arrived, Letters(s.sender))
    && forall i :: 0 <= i < |s.hops| ==> HopHeld(s.hops[i], s.server.queue.expected, Letters(s.sender))
  }

  lemma LossyHeld(s: System)
    requires Lossy(s)
    ensures Held(s)
  {
    assert LossyAt(s, 0);
    var whole :| LeftOf(s, whole) && Invariant(whole);
    forall i | 0 <= i < |s.hops|
      ensures HopHeld(s.hops[i], s.server.queue.expected, Letters(s.sender))
    {
      assert HopLeft(s.hops[i], whole.hops[i]);
      ReceiverBehind(whole.hops[i], whole.server.queue.expected, Letters(whole.sender));
    }
  }

  function KeyOf(e: Event): seq<char> { if e.Does? then Key(e.action) else [] }

  /** The keys typed, whatever else happens. */
  function KeysOf(events: seq<Event>): seq<char> {
    if events == [] then []
    else KeyOf(events[0]) + KeysOf(events[1..])
  }

  lemma AfterLetters(s: System, e: Event, keys: seq<char>)
    requires NumbersKeys(s.sender, keys) && Happens(s, e)
    ensures NumbersKeys(After(s, e).sender, keys + KeyOf(e))
  {
    if e.Does? {
      NextLetters(s, e.action, keys);
    } else {
      assert keys + KeyOf(e) == keys;
    }
  }

  lemma {:induction false} LossyLetters(s: System, events: seq<Event>, keys: seq<char>)
    requires NumbersKeys(s.sender, keys) && CanHappen(s, events)
    ensures NumbersKeys(AfterAll(s, events).sender, keys + KeysOf(events))
    decreases |events|
  {
    if events == [] {
      assert keys + KeysOf(events) == keys;
    } else {
      AfterLetters(s, events[0], keys);
      LossyLetters(After(s, events[0]), events[1..], keys + KeyOf(events[0]));
      assert keys + KeyOf(events[0]) + KeysOf(events[1..]) == keys + KeysOf(events);
    }
  }

  /**
   Whatever is lost, repeated or reordered: every screen shows a prefix of the keys typed, those with
   nothing to erase left out.
   */
  lemma LossySafe(receivers: nat, events: seq<Event>, hop: nat)
    requires CanHappen(Start(receivers), events)
    ensures var s, letters := AfterAll(Start(receivers), events), Kept(KeysOf(events));
      && s.sender.count <= |s.sender.buffer| && Letters(s.sender) == letters
      && LeastMissing(s.server.queue.expected, s.arrived)
      && (hop < |s.hops| ==>
        && s.hops[hop].receiver.shown <= letters
        && LeastMissing(|s.hops[hop].receiver.shown|, s.hops[hop].processed))
  {
    var s := AfterAll(Start(receivers), events);
    LossyFromStart(receivers, events);
    LossyHeld(s);
    assert NumbersKeysAt(s.sender, KeysOf(events), 0);
  }

  lemma LossyFromStart(receivers: nat, events: seq<Event>)
    requires CanHappen(Start(receivers), events)
    ensures Lossy(AfterAll(Start(receivers), events))
    ensures NumbersKeys(AfterAll(Start(receivers), events).sender, KeysOf(events))
  {
    StartKeeps(receivers);
    assert LeftOf(Start(receivers), Start(receivers));
    LossyRun(Start(receivers), events);
    StartLetters(receivers);
    LossyLetters(Start(receivers), events, []);
    assert [] + KeysOf(events) == KeysOf(events);
  }

  /** With losses too, a receiver that has all the letters shows what the keys typed put on the sender's screen. */
  lemma LossySameScreen(receivers: nat, events: seq<Event>, hop: nat)
    requires CanHappen(Start(receivers), events) && hop < |AfterAll(Start(receivers), events).hops|
    ensures var s := AfterAll(Start(receivers), events);
      && (|s.hops[hop].receiver.shown| == |Kept(KeysOf(events))| ==>
           Screen(s.hops[hop].receiver.shown) == Screen(KeysOf(events)))
      && s.sender.length == |Screen(KeysOf(events))|
  {
    var s := AfterAll(Start(receivers), events);
    LossySafe(receivers, events, hop);
    WholeScreen(s.hops[hop].receiver.shown, KeysOf(events));
    LossyFromStart(receivers, events);
    assert NumbersKeysAt(s.sender, KeysOf(events), 0);
  }

  // ---------- Going on without typing ----------

  /** Without another key and without losing more, s can become t. */
  ghost predicate CanBecome(s: System, t: System) {
    exists actions :: Untyped(actions) && Possible(s, actions) && Outcome(s, actions) == t
  }

  lemma BecomesItself(s: System)
    ensures CanBecome(s, s)
  {
    assert Outcome(s, []) == s;
  }

  lemma BecomesNext(s: System, t: System, a: Action)
    requires CanBecome(s, t) && Enabled(t, a) && !a.Type?
    ensures CanBecome(s, Next(t, a))
  {
    var actions :| Untyped(actions) && Possible(s, actions) && Outcome(s, actions) == t;
    OneAction(t, a);
    OneAfterTheOther(s, actions, [a]);
    assert Untyped(actions + [a]);
  }

  lemma OneAction(s: System, a: Action)
    requires Enabled(s, a)
    ensures Possible(s, [a]) && Outcome(s, [a]) == Next(s, a)
  {
    var rest := [a][1..];
    assert rest == [] && Outcome(Next(s, a), rest) == Next(s, a);
  }

  lemma BecomesLater(s: System, t: System, u: System)
    requires CanBecome(s, t) && CanBecome(t, u)
    ensures CanBecome(s, u)
  {
    var first :| Untyped(first) && Possible(s, first) && Outcome(s, first) == t;
    var second :| Untyped(second) && Possible(t, second) && Outcome(t, second) == u;
    OneAfterTheOther(s, first, second);
    assert Untyped(first + second);
  }

  /** The letters typed can all be shown without another key. */
  ghost predicate CanStillShow(s: System, hop: nat)
    requires s.sender.count <= |s.sender.buffer|
  {
    exists t :: CanBecome(s, t) && Shows(t, hop, Letters(s.sender))
  }

  ghost predicate AllReadable(letters: seq<char>) { forall i :: 0 <= i < |letters| ==> !Unreadable(letters[i]) }

  // ---------- The first hop ----------

  /** A letter numbered k, or a request for it, is still under way between sender and server. */
  ghost predicate Hears(s: System, k: int)
    requires s.sender.count <= |s.sender.buffer|
  {
    0 <= k < s.sender.count && (Entry(k, Letters(s.sender)[k]) in s.up || k in s.down || s.sender.signal == k)
  }

  ghost predicate Missing(s: System, i: int) { 0 <= i < s.sender.count && i !in s.arrived }

  /** For every letter the server lacks, it or a later one is under way. */
  ghost predicate ServerCan(s: System)
    requires s.sender.count <= |s.sender.buffer|
  {
    forall i :: Missing(s, i) ==> exists k :: i <= k && Hears(s, k)
  }

  /** The sender has answered; everything behind it is as it was. */
  ghost predicate Answered(s: System, t: System) {
    && t.server == s.server && t.arrived == s.arrived && t.hops == s.hops
    && t.sender.count == s.sender.count && t.sender.buffer == s.sender.buffer
    && s.up <= t.up && s.down <= t.down && Lossy(t) && CanBecome(s, t)
  }

  /** Counting what was typed and answering clears the sender's signal. */
  lemma SignalAnswered(s: System) returns (t: System)
    requires Lossy(s)
    ensures Answered(s, t) && t.sender.signal == -1 && t.sender.counted == t.sender.count
    ensures s.sender.signal < s.sender.count <= |s.sender.buffer|
    ensures s.sender.signal >= 0 ==> Entry(s.sender.signal, Letters(s.sender)[s.sender.signal]) in t.up
  {
    LossyHeld(s);
    BecomesItself(s);
    var u := Next(s, Count);
    LossyNext(s, Count);
    BecomesNext(s, s, Count);
    t := Next(u, Answer);
    LossyNext(u, Answer);
    BecomesNext(s, u, Answer);
  }

  /** A request that reaches the sender brings the letter back onto its way. */
  lemma RequestAnswered(s: System, n: int) returns (t: System)
    requires Lossy(s) && n in s.down
    ensures Answered(s, t)
    ensures 0 <= n < s.sender.count <= |s.sender.buffer| && Entry(n, Letters(s.sender)[n]) in t.up
  {
    LossyHeld(s);
    var u := SignalAnswered(s);
    var v := Next(u, NackArrives(n));
    LossyNext(u, NackArrives(n));
    BecomesNext(s, u, NackArrives(n));
    t := Next(v, Answer);
    LossyNext(v, Answer);
    BecomesNext(s, v, Answer);
  }

  /** The server has moved on; the sender is as it was, and the screens show the same. */
  ghost predicate MovedOn(s: System, t: System) {
    && t.sender.count == s.sender.count && t.sender.buffer == s.sender.buffer
    && s.up <= t.up && s.arrived <= t.arrived && s.server.queue.expected <= t.server.queue.expected
    && |t.hops| == |s.hops| && Lossy(t) && CanBecome(s, t)
  }

  /** A letter arrives: if it is early, the server asks for the first one missing. */
  lemma LetterComes(s: System, k: int) returns (t: System)
    requires Lossy(s) && 0 <= k < s.sender.count <= |s.sender.buffer| && Entry(k, Letters(s.sender)[k]) in s.up
    requires !Unreadable(Letters(s.sender)[k])
    ensures MovedOn(s, t) && t.sender == s.sender && k in t.arrived
    ensures k > s.server.queue.expected ==>
      s.server.queue.expected in t.down && t.server.queue.expected == s.server.queue.expected
    ensures k == s.server.queue.expected ==> t.server.queue.expected > k
    ensures t.server.queue.expected > s.server.queue.expected ==>
      forall i :: 0 <= i < |t.hops| ==> LastPassed(t) in t.hops[i].inbox
  {
    LossyHeld(s);
    var e := Entry(k, Letters(s.sender)[k]);
    t := Next(s, LetterArrives(e));
    LossyNext(s, LetterArrives(e));
    BecomesItself(s);
    BecomesNext(s, s, LetterArrives(e));
    RelayKeeps(s.server, s.arrived, Letters(s.sender), e);
    LastIsForwarded(s, e);
  }

  /** What the server passes on last goes to every receiver. */
  lemma LastIsForwarded(s: System, e: Entry)
    requires Held(s) && Enabled(s, LetterArrives(e)) && !Unreadable(e.data)
    ensures var t := Next(s, LetterArrives(e));
      t.server.queue.expected > s.server.queue.expected ==>
      forall i :: 0 <= i < |t.hops| ==> LastPassed(t) in t.hops[i].inbox
  {
    var t := Next(s, LetterArrives(e));
    var from, to := s.server.queue.expected, t.server.queue.expected;
    RelayKeeps(s.server, s.arrived, Letters(s.sender), e);
    if to > from {
      var out := Numbered(Letters(s.sender), from, to);
      assert out[to - 1 - from] == LastPassed(t) && LastPassed(t) in Elements(out);
    }
  }

  /** The letter the server passed on last. */
  ghost function LastPassed(s: System): Entry {
    var k := s.server.queue.expected - 1;
    if 0 <= k < |s.sender.buffer| then Entry(k, s.sender.buffer[k]) else Entry(k, ' ')
  }

  lemma MovedOnTwice(s: System, t: System, u: System)
    requires MovedOn(s, t) && MovedOn(t, u)
    ensures MovedOn(s, u)
  {
    BecomesLater(s, t, u);
  }

  /** Any later letter brings the first one missing back: the server asks for it, and it comes again. */
  lemma LaterLetterFetches(s: System, k: int) returns (t: System)
    requires Lossy(s) && s.sender.count <= |s.sender.buffer| && AllReadable(Letters(s.sender))
    requires s.server.queue.expected < k < s.sender.count && Entry(k, Letters(s.sender)[k]) in s.up
    ensures MovedOn(s, t) && t.server.queue.expected > s.server.queue.expected && k in t.arrived
    ensures forall i :: 0 <= i < |t.hops| ==> LastPassed(t) in t.hops[i].inbox
  {
    var e := s.server.queue.expected;
    var u := LetterComes(s, k);
    var v := RequestAnswered(u, e);
    t := LetterComes(v, e);
    MovedOnTwice(s, u, v);
    MovedOnTwice(s, v, t);
  }

  lemma NothingMissing(s: System)
    requires Lossy(s) && forall i :: 0 <= i < s.sender.count ==> i in s.arrived
    ensures s.server.queue.expected == s.sender.count
  {
    LossyHeld(s);
  }

  /** From a letter on its way on which nothing later is missing, the server gets everything. */
  lemma {:induction false} ServerRecovers(s: System, k: int) returns (t: System)
    requires Lossy(s) && s.sender.count <= |s.sender.buffer| && AllReadable(Letters(s.sender))
    requires s.server.queue.expected <= k < s.sender.count && Entry(k, Letters(s.sender)[k]) in s.up
    requires forall i :: k < i < s.sender.count ==> i in s.arrived
    ensures MovedOn(s, t) && t.server.queue.expected == t.sender.count
    ensures forall i :: 0 <= i < |t.hops| ==> LastPassed(t) in t.hops[i].inbox
    decreases s.sender.count - s.server.queue.expected
  {
    if k == s.server.queue.expected {
      LossyHeld(s);
      t := LetterComes(s, k);
      NothingMissing(t);
    } else {
      var u := LaterLetterFetches(s, k);
      if u.server.queue.expected <= k {
        t := ServerRecovers(u, k);
        MovedOnTwice(s, u, t);
      } else {
        LossyHeld(u);
        NothingMissing(u);
        t := u;
      }
    }
  }

  lemma {:induction false} LastMissing(s: System, i: int, n: nat) returns (m: int)
    requires Missing(s, i) && i < n <= s.sender.count && forall j :: n <= j < s.sender.count ==> j in s.arrived
    ensures Missing(s, m) && forall j :: m < j < s.sender.count ==> j in s.arrived
    decreases n
  {
    if n - 1 in s.arrived {
      m := LastMissing(s, i, n - 1);
    } else {
      m := n - 1;
    }
  }

  /** If for every letter missing it or a later one is under way, the server can get everything typed. */
  lemma ServerCatches(s: System) returns (t: System)
    requires Lossy(s) && s.sender.count <= |s.sender.buffer| && AllReadable(Letters(s.sender)) && ServerCan(s)
    requires s.server.queue.expected < s.sender.count
    ensures MovedOn(s, t) && t.server.queue.expected == t.sender.count
    ensures forall i :: 0 <= i < |t.hops| ==> LastPassed(t) in t.hops[i].inbox
  {
    LossyHeld(s);
    var m := LastMissing(s, s.server.queue.expected, s.sender.count);
    var k :| m <= k && Hears(s, k);
    var u := s;
    BecomesItself(s);
    if Entry(k, Letters(s.sender)[k]) !in s.up {
      if k in s.down {
        u := RequestAnswered(s, k);
      } else {
        u := SignalAnswered(s);
      }
    }
    t := ServerRecovers(u, k);
    MovedOnTwice(s, u, t);
  }

  // ---------- The second hop ----------

  /**
   A letter or a request for it is under way between the server and the receiver; an early letter in
   the slot will be one.
   */
  ghost predicate HopHears(h: Hop, letters: seq<char>, k: int) {
    && 0 <= k < |letters|
    && (|| Entry(k, letters[k]) in h.inbox
        || k in h.nacks
        || (h.receiver.slot.Some? && k == h.receiver.queue.expected < h.receiver.slot.value.number))
  }

  ghost predicate HopMissing(h: Hop, expected: nat, i: int) {
    0 <= i < expected && i !in h.processed && !(h.receiver.slot.Some? && h.receiver.slot.value.number == i)
  }

  /** For every letter passed on that the receiver lacks, it or a later one is under way. */
  ghost predicate HopCan(s: System, hop: nat)
    requires s.sender.count <= |s.sender.buffer| && hop < |s.hops|
  {
    forall i :: HopMissing(s.hops[hop], s.server.queue.expected, i) ==>
      exists k :: i <= k && HopHears(s.hops[hop], Letters(s.sender), k)
  }

  /** Only this receiver has moved on, and its slot is free. */
  ghost predicate MovedAt(s: System, t: System, hop: nat) {
    && t.sender == s.sender && t.server == s.server && |t.hops| == |s.hops| && Lossy(t) && CanBecome(s, t)
    && hop < |s.hops| && t.hops[hop].receiver.slot.None?
    && s.hops[hop].inbox <= t.hops[hop].inbox && s.hops[hop].nacks <= t.hops[hop].nacks
    && s.hops[hop].processed <= t.hops[hop].processed
    && s.hops[hop].receiver.queue.expected <= t.hops[hop].receiver.queue.expected
  }

  lemma MovedAtTwice(s: System, t: System, u: System, hop: nat)
    requires MovedAt(s, t, hop) && MovedAt(t, u, hop)
    ensures MovedAt(s, u, hop)
  {
    BecomesLater(s, t, u);
  }

  /** The letter in the slot is processed: if it is early, the receiver asks for the first one missing. */
  lemma SlotProcessed(s: System, hop: nat) returns (t: System)
    requires Lossy(s) && hop < |s.hops| && s.hops[hop].receiver.slot.Some?
    ensures MovedAt(s, t, hop) && t == Next(s, Process(hop))
    ensures var k, r := s.hops[hop].receiver.slot.value.number, s.hops[hop].receiver.queue.expected;
      && t.hops[hop].processed == s.hops[hop].processed + {k}
      && (k > r ==> r in t.hops[hop].nacks && t.hops[hop].receiver.queue.expected == r)
      && (k == r ==> t.hops[hop].receiver.queue.expected > r)
  {
    LossyHeld(s);
    var h := s.hops[hop];
    assert HopHeld(h, s.server.queue.expected, Letters(s.sender));
    t := Next(s, Process(hop));
    LossyNext(s, Process(hop));
    BecomesItself(s);
    BecomesNext(s, s, Process(hop));
    AcceptInOrder(h.receiver.queue, h.receiver.slot.value, h.processed, Letters(s.sender));
  }

  lemma SlotFree(s: System, hop: nat) returns (t: System)
    requires Lossy(s) && s.sender.count <= |s.sender.buffer| && hop < |s.hops| && HopCan(s, hop)
    ensures MovedAt(s, t, hop) && HopCan(t, hop)
  {
    if s.hops[hop].receiver.slot.None? {
      t := s;
      BecomesItself(s);
    } else {
      t := SlotProcessed(s, hop);
      forall i | HopMissing(t.hops[hop], t.server.queue.expected, i)
        ensures exists k :: i <= k && HopHears(t.hops[hop], Letters(t.sender), k)
      {
        assert HopMissing(s.hops[hop], s.server.queue.expected, i);
        var k :| i <= k && HopHears(s.hops[hop], Letters(s.sender), k);
        assert HopHears(t.hops[hop], Letters(t.sender), k);
      }
    }
  }

  lemma LetterShown(s: System, hop: nat, k: int) returns (t: System)
    requires Lossy(s) && hop < |s.hops| && s.hops[hop].receiver.slot.None?
    requires 0 <= k < s.sender.count <= |s.sender.buffer| && Entry(k, Letters(s.sender)[k]) in s.hops[hop].inbox
    ensures MovedAt(s, t, hop) && k in t.hops[hop].processed
    ensures var r := s.hops[hop].receiver.queue.expected;
      && (k > r ==> r in t.hops[hop].nacks && t.hops[hop].receiver.queue.expected == r)
      && (k == r ==> t.hops[hop].receiver.queue.expected > r)
  {
    var deliver := Deliver(hop, Entry(k, Letters(s.sender)[k]));
    var u := Next(s, deliver);
    LossyNext(s, deliver);
    BecomesItself(s);
    BecomesNext(s, s, deliver);
    t := SlotProcessed(u, hop);
    BecomesLater(s, u, t);
  }

  lemma LetterResent(s: System, hop: nat, n: int) returns (t: System)
    requires Lossy(s) && hop < |s.hops| && s.hops[hop].receiver.slot.None? && n in s.hops[hop].nacks
    ensures MovedAt(s, t, hop) && t.hops[hop].processed == s.hops[hop].processed
    ensures t.hops[hop].receiver == s.hops[hop].receiver
    ensures 0 <= n < s.sender.count <= |s.sender.buffer| && Entry(n, Letters(s.sender)[n]) in t.hops[hop].inbox
  {
    LossyHeld(s);
    assert HopHeld(s.hops[hop], s.server.queue.expected, Letters(s.sender));
    ResendFinds(s.server, s.arrived, Letters(s.sender), n);
    t := Next(s, ResendArrives(hop, n));
    LossyNext(s, ResendArrives(hop, n));
    BecomesItself(s);
    BecomesNext(s, s, ResendArrives(hop, n));
  }

  /** Any later letter brings the receiver's first one missing back. */
  lemma LaterLetterRefetches(s: System, hop: nat, k: int) returns (t: System)
    requires Lossy(s) && hop < |s.hops| && s.hops[hop].receiver.slot.None?
    requires s.hops[hop].receiver.queue.expected < k < s.sender.count <= |s.sender.buffer|
    requires Entry(k, Letters(s.sender)[k]) in s.hops[hop].inbox
    ensures MovedAt(s, t, hop) && k in t.hops[hop].processed
    ensures t.hops[hop].receiver.queue.expected > s.hops[hop].receiver.queue.expected
  {
    var r := s.hops[hop].receiver.queue.expected;
    var u := LetterShown(s, hop, k);
    var v := LetterResent(u, hop, r);
    t := LetterShown(v, hop, r);
    MovedAtTwice(s, u, v, hop);
    MovedAtTwice(s, v, t, hop);
  }

  lemma NothingUnprocessed(s: System, hop: nat)
    requires Lossy(s) && hop < |s.hops| && forall i :: 0 <= i < s.server.queue.expected ==> i in s.hops[hop].processed
    ensures s.hops[hop].receiver.queue.expected == s.server.queue.expected
  {
    LossyHeld(s);
    assert HopHeld(s.hops[hop], s.server.queue.expected, Letters(s.sender));
  }

  /** From a letter on its way on which nothing later is missing, the receiver gets everything passed on. */
  lemma {:induction false} HopRecovers(s: System, hop: nat, k: int) returns (t: System)
    requires Lossy(s) && hop < |s.hops| && s.hops[hop].receiver.slot.None?
    requires s.hops[hop].receiver.queue.expected <= k < s.sender.count <= |s.sender.buffer|
    requires Entry(k, Letters(s.sender)[k]) in s.hops[hop].inbox
    requires forall i :: k < i < s.server.queue.expected ==> i in s.hops[hop].processed
    ensures MovedAt(s, t, hop) && t.hops[hop].receiver.queue.expected == t.server.queue.expected
    decreases s.sender.count - s.hops[hop].receiver.queue.expected
  {
    if k == s.hops[hop].receiver.queue.expected {
      t := LetterShown(s, hop, k);
      HopSettled(s, t, hop, k);
    } else {
      var u := LaterLetterRefetches(s, hop, k);
      if u.hops[hop].receiver.queue.expected <= k {
        t := HopRecovers(u, hop, k);
        MovedAtTwice(s, u, t, hop);
      } else {
        HopSettled(s, u, hop, k);
        t := u;
      }
    }
  }

  lemma HopSettled(s: System, t: System, hop: nat, k: int)
    requires MovedAt(s, t, hop) && t.hops[hop].receiver.queue.expected > k
    requires forall i :: k < i < s.server.queue.expected ==> i in s.hops[hop].processed
    ensures t.hops[hop].receiver.queue.expected == t.server.queue.expected
  {
    LossyHeld(t);
    assert HopHeld(t.hops[hop], t.server.queue.expected, Letters(t.sender));
    NothingUnprocessed(t, hop);
  }

  lemma {:induction false} LastUnprocessed(h: Hop, expected: nat, i: int, n: nat) returns (m: int)
    requires HopMissing(h, expected, i) && i < n <= expected && h.receiver.slot.None?
    requires forall j :: n <= j < expected ==> j in h.processed
    ensures HopMissing(h, expected, m) && forall j :: m < j < expected ==> j in h.processed
    decreases n
  {
    if n - 1 in h.processed {
      m := LastUnprocessed(h, expected, i, n - 1);
    } else {
      m := n - 1;
    }
  }

  lemma HopCatches(s: System, hop: nat) returns (t: System)
    requires Lossy(s) && s.sender.count <= |s.sender.buffer| && hop < |s.hops| && HopCan(s, hop)
    ensures MovedAt(s, t, hop) && t.hops[hop].receiver.queue.expected == t.server.queue.expected
  {
    var u := SlotFree(s, hop);
    LossyHeld(u);
    var h := u.hops[hop];
    assert HopHeld(h, u.server.queue.expected, Letters(u.sender));
    if h.receiver.queue.expected == u.server.queue.expected {
      t := u;
    } else {
      assert HopMissing(h, u.server.queue.expected, h.receiver.queue.expected);
      var m := LastUnprocessed(h, u.server.queue.expected, h.receiver.queue.expected, u.server.queue.expected);
      var k :| m <= k && HopHears(h, Letters(u.sender), k);
      var v := u;
      BecomesItself(u);
      if Entry(k, Letters(u.sender)[k]) !in h.inbox {
        v := LetterResent(u, hop, k);
      }
      t := HopRecovers(v, hop, k);
      MovedAtTwice(u, v, t, hop);
      MovedAtTwice(s, u, t, hop);
    }
  }

  // ---------- Exactly when nothing is lost for good ----------

  lemma AllShown(s: System, hop: nat)
    requires Lossy(s) && hop < |s.hops|
    requires s.hops[hop].receiver.queue.expected == s.server.queue.expected == s.sender.count
    ensures s.sender.count <= |s.sender.buffer| && Shows(s, hop, Letters(s.sender))
  {
    LossyHeld(s);
    assert HopHeld(s.hops[hop], s.server.queue.expected, Letters(s.sender));
  }

  lemma FreshHears(s: System, hop: nat)
    requires Lossy(s) && hop < |s.hops| && s.server.queue.expected == s.sender.count <= |s.sender.buffer|
    requires LastPassed(s) in s.hops[hop].inbox
    ensures HopCan(s, hop)
  {
    var k := s.sender.count - 1;
    assert k >= 0 ==> HopHears(s.hops[hop], Letters(s.sender), k);
  }

  lemma StillShows(s: System, hop: nat)
    requires Lossy(s) && s.sender.count <= |s.sender.buffer| && hop < |s.hops| && AllReadable(Letters(s.sender))
    requires ServerCan(s) && (s.server.queue.expected == s.sender.count ==> HopCan(s, hop))
    ensures CanStillShow(s, hop)
  {
    var t := s;
    BecomesItself(s);
    LossyHeld(s);
    if s.server.queue.expected < s.sender.count {
      t := ServerCatches(s);
      FreshHears(t, hop);
    }
    var u := HopCatches(t, hop);
    BecomesLater(s, t, u);
    AllShown(u, hop);
  }

  /** Letter i is missing and neither it nor a later one is under way to the server. */
  ghost predicate ServerDeaf(s: System, i: int) {
    s.sender.count <= |s.sender.buffer| && Missing(s, i) && forall k :: i <= k ==> !Hears(s, k)
  }

  lemma StaysDeaf(s: System, a: Action, i: int)
    requires Lossy(s) && ServerDeaf(s, i) && Enabled(s, a) && !a.Type?
    ensures ServerDeaf(Next(s, a), i)
  {
    LossyHeld(s);
    if a.LetterArrives? {
      assert Numbers(a.entry, Letters(s.sender));
      assert a.entry.number >= i ==> Hears(s, a.entry.number);
    }
    var t := Next(s, a);
    forall k | i <= k
      ensures !Hears(t, k)
    {
      assert !Hears(s, k);
    }
  }

  /** A receiver that lacks letter i of all those passed on, neither it nor a later one being under way to it. */
  ghost predicate HopDeaf(s: System, hop: nat, i: int) {
    && s.server.queue.expected == s.sender.count <= |s.sender.buffer| && hop < |s.hops|
    && HopMissing(s.hops[hop], s.server.queue.expected, i)
    && forall k :: i <= k ==> !HopHears(s.hops[hop], Letters(s.sender), k)
  }

  /** The same receiver, and nothing new for it to hear. */
  lemma NothingNew(s: System, t: System, hop: nat, i: int)
    requires HopDeaf(s, hop, i) && t.sender.count == s.sender.count && t.sender.buffer == s.sender.buffer
    requires t.server.queue.expected == s.server.queue.expected && hop < |t.hops|
    requires HopMissing(t.hops[hop], t.server.queue.expected, i)
    requires forall k :: i <= k && HopHears(t.hops[hop], Letters(t.sender), k) ==>
      HopHears(s.hops[hop], Letters(s.sender), k)
    ensures HopDeaf(t, hop, i)
  {
  }

  lemma DeafToLetters(s: System, hop: nat, entry: Entry, i: int)
    requires Lossy(s) && HopDeaf(s, hop, i) && Enabled(s, LetterArrives(entry))
    ensures HopDeaf(Next(s, LetterArrives(entry)), hop, i)
  {
    LossyHeld(s);
    assert Numbers(entry, Letters(s.sender));
    assert Forward(s.hops, [])[hop] == s.hops[hop];
    NothingNew(s, Next(s, LetterArrives(entry)), hop, i);
  }

  lemma DeafToResends(s: System, hop: nat, number: int, i: int)
    requires Lossy(s) && HopDeaf(s, hop, i) && Enabled(s, ResendArrives(hop, number))
    ensures HopDeaf(Next(s, ResendArrives(hop, number)), hop, i)
  {
    LossyHeld(s);
    assert HopHeld(s.hops[hop], s.server.queue.expected, Letters(s.sender));
    ResendFinds(s.server, s.arrived, Letters(s.sender), number);
    assert number >= i ==> HopHears(s.hops[hop], Letters(s.sender), number);
    NothingNew(s, Next(s, ResendArrives(hop, number)), hop, i);
  }

  lemma DeafToDeliveries(s: System, hop: nat, entry: Entry, i: int)
    requires Lossy(s) && HopDeaf(s, hop, i) && Enabled(s, Deliver(hop, entry))
    ensures HopDeaf(Next(s, Deliver(hop, entry)), hop, i)
  {
    LossyHeld(s);
    assert HopHeld(s.hops[hop], s.server.queue.expected, Letters(s.sender));
    assert Passed(entry, s.server.queue.expected, Letters(s.sender));
    assert entry.number >= i ==> HopHears(s.hops[hop], Letters(s.sender), entry.number);
    NothingNew(s, Next(s, Deliver(hop, entry)), hop, i);
  }

  lemma DeafToItsSlot(s: System, hop: nat, i: int)
    requires Lossy(s) && HopDeaf(s, hop, i) && Enabled(s, Process(hop))
    ensures HopDeaf(Next(s, Process(hop)), hop, i)
  {
    LossyHeld(s);
    var h := s.hops[hop];
    assert HopHeld(h, s.server.queue.expected, Letters(s.sender));
    AcceptInOrder(h.receiver.queue, h.receiver.slot.value, h.processed, Letters(s.sender));
    NothingNew(s, Next(s, Process(hop)), hop, i);
  }

  lemma HopStaysDeaf(s: System, hop: nat, a: Action, i: int)
    requires Lossy(s) && HopDeaf(s, hop, i) && Enabled(s, a) && !a.Type?
    ensures HopDeaf(Next(s, a), hop, i)
  {
    if a.LetterArrives? {
      DeafToLetters(s, hop, a.entry, i);
    } else if a.ResendArrives? && a.hop == hop {
      DeafToResends(s, hop, a.number, i);
    } else if a.Deliver? && a.hop == hop {
      DeafToDeliveries(s, hop, a.entry, i);
    } else if a.Process? && a.hop == hop {
      DeafToItsSlot(s, hop, i);
    } else {
      assert Next(s, a).hops[hop] == s.hops[hop] && Letters(Next(s, a).sender) == Letters(s.sender);
      NothingNew(s, Next(s, a), hop, i);
    }
  }

  lemma {:induction false} DeafRun(s: System, actions: seq<Action>, i: int)
    requires Lossy(s) && ServerDeaf(s, i) && Untyped(actions) && Possible(s, actions)
    ensures Lossy(Outcome(s, actions)) && ServerDeaf(Outcome(s, actions), i)
    decreases |actions|
  {
    if actions != [] {
      LossyNext(s, actions[0]);
      StaysDeaf(s, actions[0], i);
      DeafRun(Next(s, actions[0]), actions[1..], i);
    }
  }

  lemma {:induction false} HopDeafRun(s: System, hop: nat, actions: seq<Action>, i: int)
    requires Lossy(s) && HopDeaf(s, hop, i) && Untyped(actions) && Possible(s, actions)
    ensures Lossy(Outcome(s, actions)) && HopDeaf(Outcome(s, actions), hop, i)
    decreases |actions|
  {
    if actions != [] {
      LossyNext(s, actions[0]);
      HopStaysDeaf(s, hop, actions[0], i);
      HopDeafRun(Next(s, actions[0]), hop, actions[1..], i);
    }
  }

  lemma {:induction false} LettersStay(s: System, actions: seq<Action>)
    requires Lossy(s) && Untyped(actions) && Possible(s, actions)
    ensures var t := Outcome(s, actions);
      Lossy(t) && t.sender.count == s.sender.count && t.sender.buffer == s.sender.buffer && |t.hops| == |s.hops|
    decreases |actions|
  {
    if actions != [] {
      LossyNext(s, actions[0]);
      LettersStay(Next(s, actions[0]), actions[1..]);
    }
  }

  /**
   What showing everything takes: the server has had every letter, the receiver has processed it,
   and all are readable.
   */
  lemma ShownMeans(s: System, hop: nat)
    requires Lossy(s) && hop < |s.hops| && s.sender.count <= |s.sender.buffer| && Shows(s, hop, Letters(s.sender))
    ensures forall i :: 0 <= i < s.sender.count ==> i in s.arrived && i in s.hops[hop].processed
    ensures s.server.queue.expected == s.sender.count && AllReadable(Letters(s.sender))
  {
    LossyHeld(s);
    var h := s.hops[hop];
    assert HopHeld(h, s.server.queue.expected, Letters(s.sender));
    assert |h.receiver.shown| == s.sender.count == h.receiver.queue.expected;
  }

  /**
   At any moment of any run with losses, all the letters typed can still be shown without another key if
   and only if all are readable, for each one the server lacks it or a later one is under way to it, and,
   once the server has passed all on, the same holds for the receiver.
   */
  lemma StillShownExactlyWhen(s: System, hop: nat)
    requires Lossy(s) && s.sender.count <= |s.sender.buffer| && hop < |s.hops|
    ensures CanStillShow(s, hop) <==>
      && AllReadable(Letters(s.sender)) && ServerCan(s)
      && (s.server.queue.expected == s.sender.count ==> HopCan(s, hop))
  {
    if t :| CanBecome(s, t) && Shows(t, hop, Letters(s.sender)) {
      ShownWasPossible(s, t, hop);
    }
    if AllReadable(Letters(s.sender)) && ServerCan(s)
      && (s.server.queue.expected == s.sender.count ==> HopCan(s, hop))
    {
      StillShows(s, hop);
    }
  }

  lemma ShownWasPossible(s: System, t: System, hop: nat)
    requires Lossy(s) && s.sender.count <= |s.sender.buffer| && hop < |s.hops|
    requires CanBecome(s, t) && Shows(t, hop, Letters(s.sender))
    ensures AllReadable(Letters(s.sender)) && ServerCan(s)
    ensures s.server.queue.expected == s.sender.count ==> HopCan(s, hop)
  {
    var actions :| Untyped(actions) && Possible(s, actions) && Outcome(s, actions) == t;
    LettersStay(s, actions);
    ShownMeans(t, hop);
    forall i | Missing(s, i)
      ensures exists k :: i <= k && Hears(s, k)
    {
      if forall k :: i <= k ==> !Hears(s, k) {
        DeafRun(s, actions, i);
      }
    }
    if s.server.queue.expected == s.sender.count {
      forall i | HopMissing(s.hops[hop], s.server.queue.expected, i)
        ensures exists k :: i <= k && HopHears(s.hops[hop], Letters(s.sender), k)
      {
        if forall k :: i <= k ==> !HopHears(s.hops[hop], Letters(s.sender), k) {
          HopDeafRun(s, hop, actions, i);
        }
      }
    }
  }

  /** Typing one more letter that goes out brings back whatever was lost before it. */
  lemma NextLetterRecovers(s: System, c: char, hop: nat)
    requires Lossy(s) && Enabled(s, Type(c)) && hop < |s.hops|
    requires (!Erases(c) || s.sender.length > 0) && AllReadable(Letters(Next(s, Type(c)).sender))
    ensures CanStillShow(Next(s, Type(c)), hop)
  {
    var t := Next(s, Type(c));
    LossyHeld(s);
    LossyNext(s, Type(c));
    LossyHeld(t);
    assert Hears(t, s.sender.count);
    StillShownExactlyWhen(t, hop);
  }

  /** A lost last letter is never asked for: without another key it is never shown. */
  lemma LostLastLetter(s: System, hop: nat)
    requires Lossy(s) && hop < |s.hops| && 0 < s.sender.count <= |s.sender.buffer|
    requires var last := s.sender.count - 1; Missing(s, last) && !Hears(s, last)
    ensures !CanStillShow(s, hop)
  {
    StillShownExactlyWhen(s, hop);
  }

  /** A single letter typed and lost: nobody asks for it. */
  lemma OnlyLetterLost()
    ensures CanHappen(Start(1), [Does(Type('a')), LosesLetter(Entry(0, 'a'))])
    ensures var s := AfterAll(Start(1), [Does(Type('a')), LosesLetter(Entry(0, 'a'))]);
      s.sender.count == 1 <= |s.sender.buffer| && |s.hops| == 1 && !CanStillShow(s, 0)
  {
    var e1, e2 := Does(Type('a')), LosesLetter(Entry(0, 'a'));
    var start := Start(1);
    var t := After(start, e1);
    var s := After(t, e2);
    assert [e1, e2][1..] == [e2] && [e2][1..] == [];
    assert CanHappen(s, []) && AfterAll(s, []) == s;
    assert CanHappen(t, [e2]) && AfterAll(t, [e2]) == s;
    StartKeeps(1);
    assert LeftOf(start, start);
    LossyAfter(start, e1);
    LossyAfter(t, e2);
    LostLastLetter(s, 0);
  }
}

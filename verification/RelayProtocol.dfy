/**
 One message typed letter by letter, relayed by the server to its receivers over a network that may
 lose, repeat and reorder packets on both hops. A packet sent stays on its channel: it may be delivered
 any number of times, at any time, or never.
 */
module RelayProtocol {
  import opened Options
  import opened Reordering

  const MAX_LINE := 1024

  /** Backspace and delete. */
  predicate Erases(c: char) { c as int == 127 || c as int == 8 }

  /** The field separator, and the end of a string: a packet carrying one has no letter field. */
  predicate Unreadable(c: char) { c == '|' || c as int == 0 }

  /**
   The typing client: letters are numbered from 0, buffer[..count] holds the numbered ones, length is
   what is on its screen, counted is the count its retransmission thread has been told, and signal is
   the number it has been asked for, or -1.
   */
  datatype Sender = Sender(buffer: seq<char>, count: nat, length: nat, counted: nat, signal: int)

  /** The server's part for one sender; sent remembers every letter that came, latest first. */
  datatype Server = Server(queue: Queue, sent: seq<Entry>)

  /** A receiving client; shown is what it has applied to its screen, slot the packet waiting to be processed. */
  datatype Receiver = Receiver(queue: Queue, shown: seq<char>, slot: Option<Entry>)

  // ---------- The clients and the server ----------

  function Letters(s: Sender): seq<char>
    requires s.count <= |s.buffer|
  {
    s.buffer[..s.count]
  }

  /** A key goes into the buffer; an erasing key with nothing to erase is not numbered or sent. */
  function TypeKey(s: Sender, c: char): (Sender, Option<Entry>)
    requires s.count < |s.buffer|
  {
    var stored := s.(buffer := s.buffer[s.count := c]);
    if Erases(c) && s.length == 0 then (stored, None)
    else (stored.(count := s.count + 1, length := if Erases(c) then s.length - 1 else s.length + 1),
          Some(Entry(s.count, c)))
  }

  /** A letter asked for again is sent from the buffer once it has been counted. */
  function AnswerNack(s: Sender): (Sender, Option<Entry>)
    requires s.signal < |s.buffer|
  {
    if s.signal > -1 && s.signal <= s.counted then (s.(signal := -1), Some(Entry(s.signal, s.buffer[s.signal])))
    else (s, None)
  }

  /** A letter already passed on is ignored; any other is remembered, and goes through the queue. */
  function Relay(v: Server, e: Entry): (r: (Server, seq<Entry>, Option<nat>)) {
    if Unreadable(e.data) || e.number < v.queue.expected then (v, [], None)
    else
      var (queue, out, nack) := Accept(v.queue, e);
      (Server(queue, [e] + v.sent), out, nack)
  }

  /** A receiver asks for a letter again. */
  function Resend(v: Server, number: int): Option<Entry> {
    var i := Find(v.sent, number);
    if i < |v.sent| then Some(v.sent[i]) else None
  }

  function Data(es: seq<Entry>): (r: seq<char>)
    ensures |r| == |es| && forall i :: 0 <= i < |r| ==> r[i] == es[i].data
  {
    seq(|es|, i requires 0 <= i < |es| => es[i].data)
  }

  /** The waiting packet is processed: letters whose turn it is are applied to the screen. */
  function Receive(r: Receiver): (t: (Receiver, Option<nat>))
    requires r.slot.Some?
  {
    if Unreadable(r.slot.value.data) then (r.(slot := None), None)
    else
      var (queue, out, nack) := Accept(r.queue, r.slot.value);
      (Receiver(queue, r.shown + Data(out), None), nack)
  }

  // ---------- The system ----------

  /** A receiver with its two channels, and the numbers of the letters it has processed. */
  datatype Hop = Hop(receiver: Receiver, inbox: set<Entry>, nacks: set<int>, processed: set<int>)

  /** up carries letters to the server, down its requests for them; arrived are the numbers it has taken in. */
  datatype System = System(sender: Sender, up: set<Entry>, down: set<int>, server: Server, arrived: set<int>,
                           hops: seq<Hop>)

  datatype Action =
    | Type(c: char)
    | Count
    | NackArrives(number: int)
    | Answer
    | LetterArrives(entry: Entry)
    | ResendArrives(hop: nat, number: int)
    | Deliver(hop: nat, entry: Entry)
    | Process(hop: nat)

  function Extra<T>(o: Option<T>): set<T> { if o.Some? then {o.value} else {} }

  function Elements(es: seq<Entry>): set<Entry> { set e | e in es }

  /** Letters going out are sent to every receiver. */
  function Forward(hops: seq<Hop>, es: seq<Entry>): (r: seq<Hop>)
    ensures |r| == |hops|
  {
    seq(|hops|, i requires 0 <= i < |hops| => hops[i].(inbox := hops[i].inbox + Elements(es)))
  }

  predicate Enabled(s: System, a: Action) {
    match a
    case Type(c) => s.sender.count < MAX_LINE && s.sender.count < |s.sender.buffer| && c != '\n'
    case Count => true
    case NackArrives(number) => number in s.down && s.sender.signal == -1
    case Answer => s.sender.signal < |s.sender.buffer|
    case LetterArrives(entry) => entry in s.up
    case ResendArrives(hop, number) => hop < |s.hops| && number in s.hops[hop].nacks
    case Deliver(hop, entry) => hop < |s.hops| && entry in s.hops[hop].inbox && s.hops[hop].receiver.slot.None?
    case Process(hop) => hop < |s.hops| && s.hops[hop].receiver.slot.Some?
  }

  function Next(s: System, a: Action): System
    requires Enabled(s, a)
  {
    match a
    case Type(c) =>
      var (sender, packet) := TypeKey(s.sender, c);
      s.(sender := sender, up := s.up + Extra(packet))
    case Count => s.(sender := s.sender.(counted := s.sender.count))
    case NackArrives(number) => s.(sender := s.sender.(signal := number))
    case Answer =>
      var (sender, packet) := AnswerNack(s.sender);
      s.(sender := sender, up := s.up + Extra(packet))
    case LetterArrives(entry) =>
      var (server, out, nack) := Relay(s.server, entry);
      s.(server := server, hops := Forward(s.hops, out), down := s.down + Extra(nack),
         arrived := if Unreadable(entry.data) then s.arrived else s.arrived + {entry.number})
    case ResendArrives(hop, number) =>
      s.(hops := s.hops[hop := s.hops[hop].(inbox := s.hops[hop].inbox + Extra(Resend(s.server, number)))])
    case Deliver(hop, entry) =>
      s.(hops := s.hops[hop := s.hops[hop].(receiver := s.hops[hop].receiver.(slot := Some(entry)))])
    case Process(hop) =>
      var h := s.hops[hop];
      var (receiver, nack) := Receive(h.receiver);
      var entry := h.receiver.slot.value;
      s.(hops := s.hops[hop := Hop(receiver, h.inbox, h.nacks + Extra(nack),
                                   if Unreadable(entry.data) then h.processed else h.processed + {entry.number})])
  }
}

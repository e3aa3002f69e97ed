/**
 The relay's three parties as the programs have them: counters and buffers overwritten by each packet
 and key. Packets to send are results; everything else is the state the functions describe.
 */
module RelayNodes {
  import opened Options
  import opened Reordering
  import Relay = RelayProtocol

  /** Inserted at the head. */
  method BufferInsert(buffer: seq<Entry>, number: int, data: char) returns (r: seq<Entry>)
    ensures r == [Entry(number, data)] + buffer
  {
    r := [Entry(number, data)] + buffer;
  }

  /** Looks for the number from the head, and takes the first entry with it out of the buffer. */
  method BufferPop(buffer: seq<Entry>, number: int) returns (found: bool, data: char, rest: seq<Entry>)
    ensures var i := Find(buffer, number);
      && found == (i < |buffer|)
      && (found ==> data == buffer[i].data && rest == Without(buffer, i))
      && (!found ==> rest == buffer)
  {
    data := ' ';
    var curr := 0;
    while curr < |buffer|
      invariant 0 <= curr <= |buffer|
      invariant forall j :: 0 <= j < curr ==> buffer[j].number != number
    {
      if buffer[curr].number == number {
        return true, buffer[curr].data, buffer[..curr] + buffer[curr + 1..];
      }
      curr := curr + 1;
    }
    return false, data, buffer;
  }

  lemma DrainStep(expected: nat, buffer: seq<Entry>, out: seq<Entry>)
    requires Find(buffer, expected) < |buffer|
    ensures var i := Find(buffer, expected);
      var now, next := Drain(Queue(expected, buffer)), Drain(Queue(expected + 1, Without(buffer, i)));
      now.0 == next.0 && out + now.1 == out + [Entry(expected, buffer[i].data)] + next.1
  {
  }

  /** Everything whose turn has come, popped one by one. */
  method DrainBuffer(expected: nat, buffer: seq<Entry>) returns (expected': nat, buffer': seq<Entry>, out: seq<Entry>)
    ensures Drain(Queue(expected, buffer)).0 == Queue(expected', buffer')
    ensures Drain(Queue(expected, buffer)).1 == out
  {
    expected', buffer', out := expected, buffer, [];
    var found, data, rest := BufferPop(buffer', expected');
    ghost var goal := Drain(Queue(expected, buffer));
    while found
      invariant found == (Find(buffer', expected') < |buffer'|)
      invariant found ==> var i := Find(buffer', expected');
        data == buffer'[i].data && rest == Without(buffer', i)
      invariant Drain(Queue(expected', buffer')).0 == goal.0
      invariant out + Drain(Queue(expected', buffer')).1 == goal.1
      decreases |buffer'|
    {
      DrainStep(expected', buffer', out);
      out := out + [Entry(expected', data)];
      expected', buffer' := expected' + 1, rest;
      found, data, rest := BufferPop(buffer', expected');
    }
  }

  /** What the server keeps for a client who is sending. */
  class SendingClient {
    var expectedSeq: nat
    var orderBuffer: seq<Entry>
    var sentMessageBuffer: seq<Entry>

    ghost function State(): Relay.Server
      reads this
    {
      Relay.Server(Queue(expectedSeq, orderBuffer), sentMessageBuffer)
    }

    constructor ()
      ensures State() == Relay.Server(Queue(0, []), [])
    {
      expectedSeq, orderBuffer, sentMessageBuffer := 0, [], [];
    }

    /** A numbered letter from the sender: what goes out to the receivers, and the number to ask for if it is early. */
    method SendMessage(number: int, letter: char) returns (forwarded: seq<Entry>, nack: Option<nat>)
      modifies this
      ensures (State(), forwarded, nack) == Relay.Relay(old(State()), Entry(number, letter))
    {
      forwarded, nack := [], None;
      if Relay.Unreadable(letter) {
        return;
      }
      if number < expectedSeq {
        return;
      }
      sentMessageBuffer := [Entry(number, letter)] + sentMessageBuffer;
      if number == expectedSeq {
        var drained;
        expectedSeq, orderBuffer, drained := DrainBuffer(expectedSeq + 1, orderBuffer);
        forwarded := [Entry(number, letter)] + drained;
      } else {
        orderBuffer := BufferInsert(orderBuffer, number, letter);
        nack := Some(expectedSeq);
      }
    }

    /** A receiver asks for a letter: the latest one remembered with that number. */
    method NackReceived(missing: int) returns (packet: Option<Entry>)
      ensures packet == Relay.Resend(State(), missing)
    {
      var i := 0;
      while i < |sentMessageBuffer|
        invariant 0 <= i <= |sentMessageBuffer|
        invariant forall j :: 0 <= j < i ==> sentMessageBuffer[j].number != missing
      {
        if sentMessageBuffer[i].number == missing {
          return Some(sentMessageBuffer[i]);
        }
        i := i + 1;
      }
      return None;
    }
  }

  /** The client at the keyboard; its retransmission thread shares the buffer, the count and the signal. */
  class TypingClient {
    const buffer: array<char>
    var count: nat
    var length: nat
    var countedCharacters: nat
    var signalNack: int

    ghost function State(): Relay.Sender
      reads this, buffer
    {
      Relay.Sender(buffer[..], count, length, countedCharacters, signalNack)
    }

    constructor ()
      ensures fresh(buffer) && |State().buffer| == Relay.MAX_LINE
      ensures State() == Relay.Sender(State().buffer, 0, 0, 0, -1)
    {
      buffer := new char[Relay.MAX_LINE](_ => ' ');
      count, length, countedCharacters, signalNack := 0, 0, 0, -1;
    }

    /** One turn of the typing loop for a key other than Enter, up to the publication of the count. */
    method TypeKey(c: char) returns (packet: Option<Entry>)
      requires count < buffer.Length
      modifies this, buffer
      ensures (State(), packet) == Relay.TypeKey(old(State()), c)
    {
      buffer[count] := c;
      packet := None;
      if c as int == 127 || c as int == 8 {
        if length > 0 {
          length := length - 1;
          packet := Some(Entry(count, c));
          count := count + 1;
        }
      } else {
        packet := Some(Entry(count, c));
        length := length + 1;
        count := count + 1;
      }
    }

    /** The end of the turn: the retransmission thread is told the count. */
    method PublishCount()
      modifies this
      ensures State() == old(State()).(counted := old(State()).count)
      ensures forall s: Relay.System :: s.sender == old(State()) ==> Relay.Next(s, Relay.Count) == s.(sender := State())
    {
      countedCharacters := count;
    }

    /** A request from the server waits until the previous one has been answered. */
    method StoreNack(number: int)
      requires signalNack == -1
      modifies this
      ensures State() == old(State()).(signal := number)
      ensures forall s: Relay.System :: s.sender == old(State()) && number in s.down ==>
        && Relay.Enabled(s, Relay.NackArrives(number))
        && Relay.Next(s, Relay.NackArrives(number)) == s.(sender := State())
    {
      signalNack := number;
    }

    /** One turn of the retransmission thread. */
    method AnswerNack() returns (packet: Option<Entry>)
      requires signalNack < buffer.Length
      modifies this
      ensures (State(), packet) == Relay.AnswerNack(old(State()))
      ensures packet == if 0 <= old(signalNack) <= countedCharacters
        then Some(Entry(old(signalNack), buffer[old(signalNack)])) else None
      ensures signalNack == (if packet.Some? then -1 else old(signalNack)) && count == old(count)
    {
      packet := None;
      if signalNack > -1 && signalNack <= countedCharacters {
        packet := Some(Entry(signalNack, buffer[signalNack]));
        signalNack := -1;
      }
    }
  }

  /** A client being shown a message. */
  class ReceivingClient {
    var expectedSeqNumber: nat
    var seqBuffer: seq<Entry>
    var shown: seq<char>
    var message: Option<Entry>

    ghost function State(): Relay.Receiver
      reads this
    {
      Relay.Receiver(Queue(expectedSeqNumber, seqBuffer), shown, message)
    }

    constructor ()
      ensures State() == Relay.Receiver(Queue(0, []), [], None)
    {
      expectedSeqNumber, seqBuffer, shown, message := 0, [], [], None;
    }

    /** The waiting packet is applied to the screen, buffered, or ignored, and the slot freed. */
    method ReceiveMessage() returns (nack: Option<nat>)
      requires message.Some?
      modifies this
      ensures (State(), nack) == Relay.Receive(old(State()))
    {
      var packet := message.value;
      nack := None;
      assert shown + Relay.Data([]) == shown;
      message := None;
      if Relay.Unreadable(packet.data) {
        return;
      }
      if packet.number == expectedSeqNumber {
        var drained;
        expectedSeqNumber, seqBuffer, drained := DrainBuffer(expectedSeqNumber + 1, seqBuffer);
        shown := shown + Relay.Data([packet] + drained);
      } else if packet.number > expectedSeqNumber {
        seqBuffer := BufferInsert(seqBuffer, packet.number, packet.data);
        nack := Some(expectedSeqNumber);
      }
    }
  }
}

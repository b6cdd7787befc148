/** The client's download loop, `get`: blocks are written in order, later ones are
    buffered, and ACKs are cumulative (RFC 7440). */
module ClientGet {
  import opened Wire

  datatype Status = Active | Succeeded | Failed

  datatype Client = Client(expected: U16, lastAck: U16, buffer: map<U16, Bytes>, written: Bytes, status: Status)

  const Fresh := Client(1, 0, map[], [], Active)

  /** What one wait yields. Stranger is any packet from another transfer identifier;
      Malformed is a packet under four bytes, an ERROR or an unexpected opcode. */
  datatype Event = DataPacket(number: U16, payload: Bytes) | Oack | Stranger | Malformed | Timeout | RecvFailed

  /** Buffer, expected number and file once every buffered block now due is written. */
  datatype Drained = Drained(buffer: map<U16, Bytes>, expected: U16, written: Bytes)

  function Drain(d: Drained): Drained
    decreases |d.buffer|
  {
    if d.expected !in d.buffer then d
    else
      DrainOneSmaller(d);
      Drain(DrainOne(d))
  }

  function DrainOne(d: Drained): Drained
    requires d.expected in d.buffer
  {
    Drained(d.buffer - {d.expected}, WrappingAdd(d.expected, 1), d.written + d.buffer[d.expected])
  }

  lemma DrainOneSmaller(d: Drained)
    requires d.expected in d.buffer
    ensures |DrainOne(d).buffer| < |d.buffer|
  {
    assert (d.buffer - {d.expected}).Keys == d.buffer.Keys - {d.expected};
    assert |d.buffer - {d.expected}| == |(d.buffer - {d.expected}).Keys|;
    assert |d.buffer| == |d.buffer.Keys|;
  }

  /** How many blocks `Drain` writes. */
  function DrainCount(d: Drained): nat
    decreases |d.buffer|
  {
    if d.expected !in d.buffer then 0
    else
      DrainOneSmaller(d);
      1 + DrainCount(DrainOne(d))
  }

  /** The state after the expected block has been appended, before the buffer is drained. */
  function Append(c: Client, payload: Bytes): Drained {
    Drained(c.buffer, WrappingAdd(c.expected, 1), c.written + payload)
  }

  function OnData(blockSize: nat, windowSize: nat, c: Client, number: U16, payload: Bytes): (Client, Option<U16>) {
    if number < c.expected then
      (c, Some(c.lastAck))
    else if number > c.expected then
      (c.(buffer := c.buffer[number := payload]), None)
    else
      Settle(windowSize, c, Drain(Append(c, payload)), |payload| < blockSize)
  }

  /** What follows once the expected block and all that was due behind it is written. */
  function Settle(windowSize: nat, c: Client, d: Drained, isFinal: bool): (Client, Option<U16>) {
    var sinceLastAck := WrappingSub(d.expected, WrappingAdd(c.lastAck, 1));
    var ack := WrappingSub(d.expected, 1);
    var shouldAck := sinceLastAck >= windowSize || isFinal;
    (Client(d.expected, if shouldAck then ack else c.lastAck, d.buffer, d.written,
            if isFinal then Succeeded else c.status),
     if shouldAck then Some(ack) else None)
  }

  function OnEvent(blockSize: nat, windowSize: nat, c: Client, e: Event): (Client, Option<U16>) {
    match e
    case DataPacket(number, payload) => OnData(blockSize, windowSize, c, number, payload)
    case Oack => (c.(lastAck := 0), Some(0))
    case Stranger => (c, None)
    case _ => (c.(status := Failed), None)
  }

  function Sent(ack: Option<U16>): seq<U16> {
    if ack.Some? then [ack.value] else []
  }

  function Then(acks: seq<U16>, rest: (Client, seq<U16>)): (Client, seq<U16>) {
    (rest.0, acks + rest.1)
  }

  lemma ThenTwice(a: seq<U16>, b: seq<U16>, rest: (Client, seq<U16>))
    ensures Then(a, Then(b, rest)) == Then(a + b, rest)
    ensures Then([], rest) == rest
    ensures a + [] == a
  {
    assert a + (b + rest.1) == (a + b) + rest.1;
    assert [] + rest.1 == rest.1;
  }

  /** The receive loop over the events so far: the client and the ACKs it has sent. It stops
      reading once it has succeeded or failed. */
  function Get(blockSize: nat, windowSize: nat, c: Client, events: seq<Event>): (Client, seq<U16>)
    decreases |events|
  {
    if events == [] || c.status != Active then (c, [])
    else
      var (c1, ack) := OnEvent(blockSize, windowSize, c, events[0]);
      Then(Sent(ack), Get(blockSize, windowSize, c1, events[1..]))
  }

  lemma {:induction false} GetConcat(blockSize: nat, windowSize: nat, c: Client, a: seq<Event>, b: seq<Event>)
    ensures var (c1, acks1) := Get(blockSize, windowSize, c, a);
            Get(blockSize, windowSize, c, a + b) == Then(acks1, Get(blockSize, windowSize, c1, b))
    decreases |a|
  {
    ThenTwice([], [], Get(blockSize, windowSize, c, b));
    if a == [] {
      assert a + b == b;
    } else if c.status == Active {
      assert (a + b)[0] == a[0] && (a + b)[1..] == a[1..] + b;
      var (c1, ack) := OnEvent(blockSize, windowSize, c, a[0]);
      GetConcat(blockSize, windowSize, c1, a[1..], b);
      var (c2, acks2) := Get(blockSize, windowSize, c1, a[1..]);
      ThenTwice(Sent(ack), acks2, Get(blockSize, windowSize, c2, b));
    }
  }

  lemma {:induction false} GetOne(blockSize: nat, windowSize: nat, c: Client, e: Event, more: seq<Event>)
    requires c.status == Active
    ensures var (c1, ack) := OnEvent(blockSize, windowSize, c, e);
            Get(blockSize, windowSize, c, [e] + more) == Then(Sent(ack), Get(blockSize, windowSize, c1, more))
  {
    assert ([e] + more)[1..] == more;
  }

  function LastOf(acks: seq<U16>): U16 {
    if acks == [] then 0 else acks[|acks| - 1]
  }

  /** Block numbers are acknowledged cumulatively: what the client remembers is the last ACK
      it has sent. */
  lemma {:induction false} LastAckSent(blockSize: nat, windowSize: nat, events: seq<Event>)
    ensures var (c, acks) := Get(blockSize, windowSize, Fresh, events);
            c.lastAck == LastOf(acks)
  {
    if events != [] {
      var n := |events| - 1;
      var (c, acks) := Get(blockSize, windowSize, Fresh, events[..n]);
      LastAckSent(blockSize, windowSize, events[..n]);
      GetConcat(blockSize, windowSize, Fresh, events[..n], [events[n]]);
      assert events == events[..n] + [events[n]];
      OneAckMore(blockSize, windowSize, c, acks, events[n]);
    }
  }

  lemma {:induction false} OneAckMore(blockSize: nat, windowSize: nat, c: Client, acks: seq<U16>, e: Event)
    requires c.lastAck == LastOf(acks)
    ensures var (c', acks') := Then(acks, Get(blockSize, windowSize, c, [e]));
            c'.lastAck == LastOf(acks')
  {
    if c.status == Active {
      GetOne(blockSize, windowSize, c, e, []);
      assert [e] + [] == [e];
    }
  }

  /** What each event does that brings no new block. A number below the expected one is
      answered with the last ACK sent, an OACK with ACK 0, a packet from elsewhere with
      nothing; a timeout, a malformed packet or an ERROR fails the download for good. */
  lemma {:induction false} WithoutNewBlock(blockSize: nat, windowSize: nat, events: seq<Event>, e: Event,
                                           more: seq<Event>)
    requires Get(blockSize, windowSize, Fresh, events).0.status == Active
    requires e.DataPacket? ==> e.number < Get(blockSize, windowSize, Fresh, events).0.expected
    ensures var (c, acks) := Get(blockSize, windowSize, Fresh, events);
            Get(blockSize, windowSize, Fresh, events + ([e] + more))
            == match e
               case DataPacket(_, _) => Then(acks + [LastOf(acks)], Get(blockSize, windowSize, c, more))
               case Oack => Then(acks + [0], Get(blockSize, windowSize, c.(lastAck := 0), more))
               case Stranger => Then(acks, Get(blockSize, windowSize, c, more))
               case _ => (c.(status := Failed), acks)
  {
    var (c, acks) := Get(blockSize, windowSize, Fresh, events);
    var (c1, ack) := OnEvent(blockSize, windowSize, c, e);
    LastAckSent(blockSize, windowSize, events);
    GetConcat(blockSize, windowSize, Fresh, events, [e] + more);
    GetOne(blockSize, windowSize, c, e, more);
    ThenTwice(acks, Sent(ack), Get(blockSize, windowSize, c1, more));
  }

  /** The loop of `get` on these events. */
  method ReceiveAll(d: Downloader, events: seq<Event>) returns (acks: seq<U16>)
    modifies d
    ensures (d.State(), acks) == Get(d.blockSize, d.windowSize, old(d.State()), events)
  {
    acks := [];
    var i := 0;
    ghost var whole := Get(d.blockSize, d.windowSize, d.State(), events);
    assert events[0..] == events;
    ThenTwice([], [], whole);
    while i < |events| && d.status == Active
      invariant 0 <= i <= |events|
      invariant whole == Then(acks, Get(d.blockSize, d.windowSize, d.State(), events[i..]))
    {
      assert events[i..][0] == events[i] && events[i..][1..] == events[i + 1..];
      var ack := d.Handle(events[i]);
      i := i + 1;
      ThenTwice(acks, Sent(ack), Get(d.blockSize, d.windowSize, d.State(), events[i..]));
      if ack.Some? {
        acks := acks + [ack.value];
      }
    }
    ThenTwice(acks, [], (d.State(), []));
  }

  /** The variables of `get`, updated in place packet by packet. */
  class Downloader {
    const blockSize: nat
    const windowSize: nat
    var expectedBlock: U16
    var lastAckSent: U16
    var blockBuffer: map<U16, Bytes>
    var file: Bytes
    var status: Status

    ghost function State(): Client
      reads this
    {
      Client(expectedBlock, lastAckSent, blockBuffer, file, status)
    }

    constructor (blockSize: nat, windowSize: nat)
      ensures this.blockSize == blockSize && this.windowSize == windowSize && State() == Fresh
    {
      this.blockSize, this.windowSize := blockSize, windowSize;
      expectedBlock, lastAckSent, blockBuffer, file, status := 1, 0, map[], [], Active;
    }

    /** Handles one packet; the result is the ACK it sends, if any. */
    method Handle(e: Event) returns (ack: Option<U16>)
      modifies this
      ensures (State(), ack) == OnEvent(blockSize, windowSize, old(State()), e)
    {
      ack := None;
      match e {
        case DataPacket(number, payload) =>
          if number < expectedBlock {
            return Some(lastAckSent);
          }
          if number > expectedBlock {
            blockBuffer := blockBuffer[number := payload];
            return None;
          }
          file := file + payload;
          var isFinal := |payload| < blockSize;
          expectedBlock := WrappingAdd(expectedBlock, 1);
          WriteBuffered();
          var blocksFromLastAck := WrappingSub(expectedBlock, WrappingAdd(lastAckSent, 1));
          if blocksFromLastAck >= windowSize || isFinal {
            lastAckSent := WrappingSub(expectedBlock, 1);
            ack := Some(lastAckSent);
          }
          if isFinal {
            status := Succeeded;
          }
        case Oack =>
          lastAckSent := 0;
          ack := Some(0);
        case Stranger =>
        case _ =>
          status := Failed;
      }
    }

    /** Writes the buffered blocks that are now in sequence. */
    method WriteBuffered()
      modifies this`expectedBlock, this`blockBuffer, this`file
      ensures Drained(blockBuffer, expectedBlock, file)
           == Drain(old(Drained(blockBuffer, expectedBlock, file)))
    {
      while expectedBlock in blockBuffer
        invariant Drain(Drained(blockBuffer, expectedBlock, file))
               == Drain(old(Drained(blockBuffer, expectedBlock, file)))
        decreases |blockBuffer|
      {
        ghost var d := Drained(blockBuffer, expectedBlock, file);
        ghost var d' := DrainOne(d);
        DrainOneSmaller(d);
        file := file + blockBuffer[expectedBlock];
        blockBuffer := blockBuffer - {expectedBlock};
        expectedBlock := WrappingAdd(expectedBlock, 1);
        assert d' == Drained(blockBuffer, expectedBlock, file);
      }
    }
  }
}

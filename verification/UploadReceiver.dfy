/** The receiving side of an upload: the rule handle_write_request applies to each
    packet, and its ACK schedule (RFC 7440, section 4). */
module UploadReceiver {
  import opened Wire
  import opened Arithmetic

  /** `sizeLimit` 0 means no limit. */
  datatype Params = Params(blockSize: nat, windowSize: nat, sizeLimit: nat)

  ghost predicate ValidParams(p: Params) {
    p.blockSize > 0 && 1 <= p.windowSize <= 65535
  }

  /** What one wait on the socket yields. Garbage is a packet under four bytes or
      with another opcode. */
  datatype Event = DataPacket(number: U16, payload: Bytes) | ErrorPacket | Garbage | RecvFailed | Timeout

  datatype Status = Receiving | Finished | OutOfOrder | TooLarge | ClientFailed | ReceiveFailed | TimedOut

  datatype Receiver = Receiver(expected: U16, received: Bytes, status: Status)

  const Fresh := Receiver(1, [], Receiving)

  datatype Reaction = Reaction(receiver: Receiver, ack: Option<U16>)

  /** The test at the end of a window, as the source computes it on 16-bit numbers. */
  predicate AtWindowEdge(windowSize: nat, number: U16)
    requires windowSize > 0
  {
    WrappingSub(number, 1) % windowSize + 1 == windowSize
  }

  predicate Fits(p: Params, r: Receiver, payload: Bytes) {
    p.sizeLimit > 0 ==> |r.received| + |payload| <= p.sizeLimit
  }

  predicate Accepts(p: Params, r: Receiver, e: Event) {
    e.DataPacket? && e.number == r.expected && Fits(p, r, e.payload)
  }

  function OnEvent(p: Params, r: Receiver, e: Event): Reaction
    requires p.windowSize > 0
  {
    match e
    case DataPacket(number, payload) =>
      if number != r.expected then
        if IsBehind(r.expected, number) then Reaction(r, Some(number))
        else Reaction(r.(status := OutOfOrder), None)
      else if !Fits(p, r, payload) then
        Reaction(r.(status := TooLarge), None)
      else
        var isFinal := |payload| < p.blockSize;
        var ack := if AtWindowEdge(p.windowSize, number) || isFinal then Some(number) else None;
        if isFinal then
          Reaction(r.(received := r.received + payload, status := Finished), ack)
        else
          Reaction(r.(received := r.received + payload, expected := WrappingAdd(r.expected, 1)), ack)
    case ErrorPacket => Reaction(r.(status := ClientFailed), None)
    case Garbage => Reaction(r, None)
    case RecvFailed => Reaction(r.(status := ReceiveFailed), None)
    case Timeout => Reaction(r.(status := TimedOut), None)
  }

  /** The receive loop over the events so far; it stops reading once it has left
      the Receiving state. */
  function Receive(p: Params, r: Receiver, events: seq<Event>): Receiver
    requires p.windowSize > 0
    decreases |events|
  {
    if events == [] || r.status != Receiving then r
    else Receive(p, OnEvent(p, r, events[0]).receiver, events[1..])
  }

  // ------------------------------------------------------------ ACK schedule

  lemma EdgeMeaning(windowSize: nat, index: nat)
    requires windowSize > 0 && index >= 1
    ensures AtWindowEdge(windowSize, Number(index)) <==> ((index - 1) % 65536 + 1) % windowSize == 0
  {
    var k := (index - 1) % 65536;
    assert WrappingSub(Number(index), 1) == k;
    ModSucc(k, windowSize);
  }

  predicate OnSchedule(windowSize: nat, index: nat)
    requires windowSize > 0 && index >= 1
  {
    AtWindowEdge(windowSize, Number(index)) <==> index % windowSize == 0
  }

  /** What RFC 7440 asks for: block `index`, accepted in state `r`, is acknowledged, under
      its own number, exactly when it ends a window or the transfer. */
  ghost predicate AckedOnTime(p: Params, r: Receiver, payload: Bytes, index: nat)
    requires p.windowSize > 0
  {
    OnEvent(p, r, DataPacket(Number(index), payload)).ack
    == if index % p.windowSize == 0 || |payload| < p.blockSize then Some(Number(index)) else None
  }

  /** The block is the one the receiver expects, and fits. */
  predicate Acceptable(p: Params, r: Receiver, payload: Bytes, index: nat) {
    index >= 1 && r.status == Receiving && r.expected == Number(index) && Fits(p, r, payload)
  }

  /** A full block can be accepted at all. */
  predicate FullBlocksFit(p: Params) {
    p.sizeLimit > 0 ==> p.blockSize <= p.sizeLimit
  }

  /** The ACK schedule: up to block 65536 always, and for every block exactly when the
      window size divides 65536 (or the size limit keeps out full blocks). Otherwise the
      edges drift after the first wrap of the block number. */
  lemma AckSchedule(p: Params)
    requires ValidParams(p)
    ensures forall r, payload, index ::
              Acceptable(p, r, payload, index) && index <= 65536 ==> AckedOnTime(p, r, payload, index)
    ensures (forall r, payload, index :: Acceptable(p, r, payload, index) ==> AckedOnTime(p, r, payload, index))
            <==> 65536 % p.windowSize == 0 || !FullBlocksFit(p)
  {
    forall r, payload, index
      | Acceptable(p, r, payload, index) && (index <= 65536 || 65536 % p.windowSize == 0 || !FullBlocksFit(p))
      ensures AckedOnTime(p, r, payload, index)
    {
      if |payload| < p.blockSize {
      } else if index <= 65536 {
        FirstTurn(p.windowSize, index);
      } else {
        AnyTurn(p.windowSize, index);
      }
    }
    if 65536 % p.windowSize != 0 && FullBlocksFit(p) {
      DriftsAfterWrap(p.windowSize);
      var index := 65536 + p.windowSize;
      var r, payload := Receiver(Number(index), [], Receiving), seq(p.blockSize, _ => 0);
      assert Acceptable(p, r, payload, index) && !AckedOnTime(p, r, payload, index);
    }
  }

  lemma FirstTurn(windowSize: nat, index: nat)
    requires windowSize > 0 && 1 <= index <= 65536
    ensures OnSchedule(windowSize, index)
  {
    EdgeMeaning(windowSize, index);
  }

  lemma AnyTurn(windowSize: nat, index: nat)
    requires windowSize > 0 && index >= 1 && 65536 % windowSize == 0
    ensures OnSchedule(windowSize, index)
  {
    EdgeMeaning(windowSize, index);
    var turns, k := (index - 1) / 65536, (index - 1) % 65536;
    assert index == turns * 65536 + (k + 1);
    ModTurns(turns, 65536, k + 1, windowSize);
  }

  lemma DriftsAfterWrap(windowSize: nat)
    requires 1 <= windowSize <= 65535 && 65536 % windowSize != 0
    ensures AtWindowEdge(windowSize, Number(65536 + windowSize)) && (65536 + windowSize) % windowSize != 0
  {
    EdgeMeaning(windowSize, 65536 + windowSize);
    assert (65536 + windowSize - 1) % 65536 + 1 == windowSize;
    ModOf(1, 0, windowSize);
    ModSkip(65536, windowSize);
  }

  /** The ACKs the loop sends. */
  function Acks(p: Params, r: Receiver, events: seq<Event>): seq<U16>
    requires p.windowSize > 0
    decreases |events|
  {
    if events == [] || r.status != Receiving then []
    else
      var reaction := OnEvent(p, r, events[0]);
      var rest := Acks(p, reaction.receiver, events[1..]);
      if reaction.ack.Some? then [reaction.ack.value] + rest else rest
  }

  // ------------------------------------------------------------ what was accepted

  /** The payloads the loop appended, in order. */
  function Accepted(p: Params, r: Receiver, events: seq<Event>): seq<Bytes>
    requires p.windowSize > 0
    decreases |events|
  {
    if events == [] || r.status != Receiving then []
    else
      var rest := Accepted(p, OnEvent(p, r, events[0]).receiver, events[1..]);
      if Accepts(p, r, events[0]) then [events[0].payload] + rest else rest
  }

  /** `blocks` were carried, in this order, by packets of `events` whose numbers
      continue from block `first` without a gap. */
  ghost predicate CarriedInOrder(events: seq<Event>, blocks: seq<Bytes>, first: nat)
    decreases |events|
  {
    blocks == []
    || (events != []
        && ((events[0] == DataPacket(Number(first), blocks[0]) && CarriedInOrder(events[1..], blocks[1..], first + 1))
            || CarriedInOrder(events[1..], blocks, first)))
  }

  /** Every accepted block but the last was full. */
  ghost predicate FullBeforeLast(blocks: seq<Bytes>, blockSize: nat) {
    forall i :: 0 <= i < |blocks| - 1 ==> |blocks[i]| >= blockSize
  }

  /** What the loop makes of `events`: it holds exactly the payloads of consecutively
      numbered packets in arrival order, within the size limit, and it is finished
      exactly when the last of them was short. */
  ghost predicate Meaning(p: Params, r: Receiver, events: seq<Event>, first: nat, r': Receiver, blocks: seq<Bytes>) {
    && r'.received == r.received + Flatten(blocks)
    && CarriedInOrder(events, blocks, first)
    && FullBeforeLast(blocks, p.blockSize)
    && (p.sizeLimit > 0 ==> |r'.received| <= p.sizeLimit)
    && (r'.status == Finished <==> blocks != [] && |blocks[|blocks| - 1]| < p.blockSize)
  }

  /** The loop, on any packets at all. */
  lemma {:induction false} ReceiveMeaning(p: Params, r: Receiver, events: seq<Event>, first: nat)
    requires ValidParams(p) && r.expected == Number(first) && r.status == Receiving
    requires p.sizeLimit > 0 ==> |r.received| <= p.sizeLimit
    ensures Meaning(p, r, events, first, Receive(p, r, events), Accepted(p, r, events))
    decreases |events|
  {
    if events != [] {
      var e := events[0];
      var r1 := OnEvent(p, r, e).receiver;
      var rest := Accepted(p, r1, events[1..]);
      if Accepts(p, r, e) && |e.payload| >= p.blockSize {
        NumberSucc(first);
        ReceiveMeaning(p, r1, events[1..], first + 1);
        PrependMeaning(p, r, r1, events, first, Receive(p, r1, events[1..]), rest);
      } else if Accepts(p, r, e) {
        FlattenOne(e.payload);
        assert rest == [] && Receive(p, r1, events[1..]) == r1;
        assert CarriedInOrder(events[1..], [e.payload][1..], first + 1);
      } else if r1.status == Receiving {
        ReceiveMeaning(p, r, events[1..], first);
      }
    }
  }

  lemma PrependMeaning(p: Params, r: Receiver, r1: Receiver, events: seq<Event>, first: nat, r': Receiver,
                       rest: seq<Bytes>)
    requires events != [] && events[0].DataPacket? && events[0].number == Number(first)
    requires |events[0].payload| >= p.blockSize
    requires r1.received == r.received + events[0].payload
    requires Meaning(p, r1, events[1..], first + 1, r', rest)
    ensures Meaning(p, r, events, first, r', [events[0].payload] + rest)
  {
    var blocks := [events[0].payload] + rest;
    assert blocks[1..] == rest;
    assert Flatten(blocks) == events[0].payload + Flatten(rest);
    assert r.received + (events[0].payload + Flatten(rest)) == r1.received + Flatten(rest);
  }

  // ------------------------------------------------------------ what ends it, and what does not

  /** How the event ends an upload in which `received` bytes have been accepted and block
      `index` is due: an ERROR, a failing socket, a timeout, the due block if it does not
      fit, or a block that is neither due nor less than half a turn late. */
  function EndedBy(p: Params, received: nat, index: nat, e: Event): Option<Status> {
    match e
    case ErrorPacket => Some(ClientFailed)
    case RecvFailed => Some(ReceiveFailed)
    case Timeout => Some(TimedOut)
    case Garbage => None
    case DataPacket(number, payload) =>
      var late := (index - number) % 65536;
      if late == 0 then (if 0 < p.sizeLimit < received + |payload| then Some(TooLarge) else None)
      else if late >= 32768 then Some(OutOfOrder)
      else None
  }

  lemma {:induction false} AfterEnd(p: Params, r: Receiver, events: seq<Event>, more: seq<Event>)
    requires p.windowSize > 0
    ensures Receive(p, r, events + more) == Receive(p, Receive(p, r, events), more)
    ensures Acks(p, r, events + more) == Acks(p, r, events) + Acks(p, Receive(p, r, events), more)
    decreases |events|
  {
    if events == [] {
      assert events + more == more;
    } else if r.status == Receiving {
      assert (events + more)[0] == events[0] && (events + more)[1..] == events[1..] + more;
      AfterEnd(p, OnEvent(p, r, events[0]).receiver, events[1..], more);
    }
  }

  lemma OneEvent(p: Params, r: Receiver, e: Event, more: seq<Event>)
    requires p.windowSize > 0 && r.status == Receiving
    ensures Receive(p, r, [e] + more) == Receive(p, OnEvent(p, r, e).receiver, more)
    ensures Acks(p, r, [e] + more)
         == (if OnEvent(p, r, e).ack.Some? then [OnEvent(p, r, e).ack.value] else [])
            + Acks(p, OnEvent(p, r, e).receiver, more)
  {
    assert ([e] + more)[1..] == more;
  }

  /** An event that ends the upload ends it for good: nothing is accepted or acknowledged
      any more, whatever follows. */
  lemma FatalEvent(p: Params, r: Receiver, events: seq<Event>, e: Event, more: seq<Event>, index: nat)
    requires p.windowSize > 0
    requires Receive(p, r, events).status == Receiving && Receive(p, r, events).expected == Number(index)
    requires EndedBy(p, |Receive(p, r, events).received|, index, e).Some?
    ensures Receive(p, r, events + ([e] + more))
         == Receive(p, r, events).(status := EndedBy(p, |Receive(p, r, events).received|, index, e).value)
    ensures Acks(p, r, events + ([e] + more)) == Acks(p, r, events)
  {
    var r1 := Receive(p, r, events);
    AfterEnd(p, r, events, [e] + more);
    OneEvent(p, r1, e, more);
    if e.DataPacket? {
      LateBy(index, e.number);
    }
  }

  lemma LateBy(index: nat, number: U16)
    ensures WrappingSub(Number(index), number) == (index - number) % 65536
    ensures (index - number) % 65536 == 0 <==> number == Number(index)
  {
  }

  /** Every other event leaves the upload going on: a packet that is no DATA changes nothing,
      a late block is acknowledged again under its own number, and the block that is due is
      appended; it ends the upload only if it is short. */
  lemma HarmlessEvent(p: Params, r: Receiver, e: Event, index: nat)
    requires ValidParams(p) && r.status == Receiving && r.expected == Number(index)
    requires EndedBy(p, |r.received|, index, e).None?
    ensures e.Garbage? ==> OnEvent(p, r, e) == Reaction(r, None)
    ensures e.DataPacket? && e.number != Number(index) ==> OnEvent(p, r, e) == Reaction(r, Some(e.number))
    ensures e.DataPacket? && e.number == Number(index) ==>
              OnEvent(p, r, e).receiver
              == if |e.payload| < p.blockSize then Receiver(r.expected, r.received + e.payload, Finished)
                 else Receiver(Number(index + 1), r.received + e.payload, Receiving)
  {
    NumberSucc(index);
    if e.DataPacket? {
      LateBy(index, e.number);
    }
  }

  /** Packets that are no DATA can come anywhere and any number of times. */
  lemma GarbageIgnored(p: Params, r: Receiver, events: seq<Event>, more: seq<Event>)
    requires p.windowSize > 0
    ensures Receive(p, r, events + ([Garbage] + more)) == Receive(p, r, events + more)
    ensures Acks(p, r, events + ([Garbage] + more)) == Acks(p, r, events + more)
  {
    var r1 := Receive(p, r, events);
    AfterEnd(p, r, events, [Garbage] + more);
    AfterEnd(p, r, events, more);
    if r1.status == Receiving {
      OneEvent(p, r1, Garbage, more);
    }
  }

  // ------------------------------------------------------------ the variables in place

  /** The variables of the receive loop of handle_write_request. */
  class ReceiveLoop {
    const params: Params
    var expectedBlock: U16
    var receivedData: Bytes
    var status: Status

    ghost function State(): Receiver
      reads this
    {
      Receiver(expectedBlock, receivedData, status)
    }

    constructor (params: Params)
      ensures this.params == params && State() == Fresh
    {
      this.params := params;
      expectedBlock, receivedData, status := 1, [], Receiving;
    }

    /** Handles one packet or timeout; the result is the ACK it sends, if any. */
    method Handle(e: Event) returns (ack: Option<U16>)
      requires ValidParams(params)
      modifies this
      ensures Reaction(State(), ack) == OnEvent(params, old(State()), e)
    {
      ack := None;
      match e {
        case DataPacket(blockNum, blockData) =>
          if blockNum != expectedBlock {
            var behind := WrappingSub(expectedBlock, blockNum);
            if behind > 0 && behind < 32768 {
              ack := Some(blockNum);
            } else {
              status := OutOfOrder;
            }
            return;
          }
          if params.sizeLimit > 0 && |receivedData| + |blockData| > params.sizeLimit {
            status := TooLarge;
            return;
          }
          receivedData := receivedData + blockData;
          var isFinalBlock := |blockData| < params.blockSize;
          var blocksInCurrentWindow := WrappingSub(blockNum, 1) % params.windowSize + 1;
          if blocksInCurrentWindow == params.windowSize || isFinalBlock {
            ack := Some(blockNum);
          }
          if isFinalBlock {
            status := Finished;
          } else {
            expectedBlock := WrappingAdd(expectedBlock, 1);
          }
        case ErrorPacket =>
          status := ClientFailed;
        case Garbage =>
        case RecvFailed =>
          status := ReceiveFailed;
        case Timeout =>
          status := TimedOut;
      }
    }
  }
}

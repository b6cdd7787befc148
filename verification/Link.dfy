/** A sender and the upload receiver joined by two FIFO channels that may lose and
    duplicate packets. One state machine covers the windowed sender of the server and
    the client's stop-and-wait upload; runs are arbitrary sequences of actions.

    Blocks are counted from 1 without bound. A channel lists the indices of the blocks
    its packets belong to; the parties themselves only see the 16-bit numbers. */
module Link {
  import opened Wire
  import opened Blocks
  import W = WindowSender
  import P = ClientPut
  import U = UploadReceiver

  datatype Rule = Windowed | StopAndWait

  datatype Config = Config(blocks: seq<Bytes>, params: U.Params, senderWindow: nat, rule: Rule)

  ghost predicate ValidConfig(c: Config) {
    && U.ValidParams(c.params)
    && 1 <= c.senderWindow <= 65535
    && FullButLast(c.blocks, c.params.blockSize)
    && (c.rule == Windowed ==> c.blocks != [])
    && (c.rule == StopAndWait ==> c.senderWindow == 1)
  }

  /** `waiting`: the window has been sent and the sender reads its socket.
      `next`: the index of the block the receiver expects, one more than it accepted. */
  datatype State = State(sender: W.Sender, waiting: bool, receiver: U.Receiver, next: nat,
                         data: seq<nat>, acks: seq<nat>)

  /** The request has been answered: the receiver's ACK of block 0 is on its way. */
  function Init(c: Config): State {
    State(if c.rule == Windowed then W.Start else P.Start(|c.blocks|), false, U.Fresh, 1, [], [0])
  }

  datatype Action =
    | Transmit
    | Hear(reply: W.Reply)
    | TakeAck
    | Deliver
    | Upset(event: U.Event)
    | LoseData(from: nat, to: nat)
    | RepeatData(at: nat)
    | LoseAcks(from: nat, to: nat)
    | RepeatAck(at: nat)

  function End(c: Config, s: W.Sender): int {
    W.WindowEnd(|c.blocks|, c.senderWindow, s.base)
  }

  predicate CanAct(c: Config, s: W.Sender) {
    s.status == W.Sending && 1 <= s.base <= |c.blocks| && s.retries < MAX_RETRIES && c.senderWindow > 0
  }

  /** An empty file of the windowed sender: its block is sent once, and then awaited. */
  predicate LoneBlock(c: Config) {
    c.rule == Windowed && c.blocks == [[]]
  }

  function AfterReply(c: Config, s: W.Sender, reply: W.Reply): W.Sender
    requires CanAct(c, s)
  {
    match c.rule
    case Windowed =>
      if LoneBlock(c) then W.OnLoneReply(1, s, reply) else W.OnReply(|c.blocks|, c.senderWindow, s, reply)
    case StopAndWait => P.OnReply(|c.blocks|, s, reply)
  }

  function Answered(c: Config, st: State, reply: W.Reply): State
    requires CanAct(c, st.sender)
  {
    var s := AfterReply(c, st.sender, reply);
    st.(sender := s, waiting := LoneBlock(c) && s.status == W.Sending)
  }

  function Range(from: int, to: int): seq<nat>
    requires 0 <= from <= to + 1
  {
    seq(to + 1 - from, k requires 0 <= k < to + 1 - from => from + k)
  }

  /** The packet a data-channel entry stands for, as an event of the receiver. */
  function Arrival(c: Config, index: nat): U.Event
    requires 1 <= index <= |c.blocks|
  {
    U.DataPacket(Number(index), c.blocks[index - 1])
  }

  function Cut<T>(s: seq<T>, from: nat, to: nat): seq<T> {
    if from <= to <= |s| then s[..from] + s[to..] else s
  }

  function Twice<T>(s: seq<T>, at: nat): seq<T> {
    if at < |s| then s[..at + 1] + s[at..] else s
  }

  function Deliveries(c: Config, st: State): State
    requires c.params.windowSize > 0 && st.data != [] && 1 <= st.data[0] <= |c.blocks|
  {
    var index := st.data[0];
    var e := Arrival(c, index);
    var reaction := U.OnEvent(c.params, st.receiver, e);
    st.(receiver := reaction.receiver,
        next := if U.Accepts(c.params, st.receiver, e) then st.next + 1 else st.next,
        data := st.data[1..],
        acks := if reaction.ack.Some? then st.acks + [index] else st.acks)
  }

  /** An action that is not possible in a state leaves it unchanged. */
  function Step(c: Config, st: State, a: Action): State
    requires c.params.windowSize > 0
  {
    match a
    case Transmit =>
      if CanAct(c, st.sender) && !st.waiting
      then st.(data := st.data + Range(st.sender.base, End(c, st.sender)), waiting := true)
      else st
    case Hear(reply) =>
      if CanAct(c, st.sender) && st.waiting && !reply.Ack?
      then Answered(c, st, reply)
      else st
    case TakeAck =>
      if CanAct(c, st.sender) && st.waiting && st.acks != []
      then Answered(c, st, W.Ack(Number(st.acks[0]))).(acks := st.acks[1..])
      else st
    case Deliver =>
      if st.receiver.status == U.Receiving && st.data != [] && 1 <= st.data[0] <= |c.blocks|
      then Deliveries(c, st)
      else st
    case Upset(e) =>
      if st.receiver.status == U.Receiving && !e.DataPacket?
      then st.(receiver := U.OnEvent(c.params, st.receiver, e).receiver)
      else st
    case LoseData(from, to) => st.(data := Cut(st.data, from, to))
    case RepeatData(at) => st.(data := Twice(st.data, at))
    case LoseAcks(from, to) => st.(acks := Cut(st.acks, from, to))
    case RepeatAck(at) => st.(acks := Twice(st.acks, at))
  }

  function Run(c: Config, actions: seq<Action>): State
    requires c.params.windowSize > 0
  {
    if actions == [] then Init(c)
    else Step(c, Run(c, actions[..|actions| - 1]), actions[|actions| - 1])
  }

  /** What both ends rely on: the receiver holds exactly the first blocks of the file,
      every ACK under way names a block it has accepted, the sender has left no block
      behind that was not accepted, and either end finishing means the file is there. */
  ghost predicate Safe(c: Config, st: State) {
    && 1 <= st.next <= |c.blocks| + 1
    && st.receiver.received == Flatten(c.blocks[..st.next - 1])
    && (forall i :: 0 <= i < |st.acks| ==> st.acks[i] < st.next)
    && st.sender.base <= st.next
    && (st.sender.status == W.Completed ==> st.receiver.received == Flatten(c.blocks))
    && (st.receiver.status == U.Finished ==> st.receiver.received == Flatten(c.blocks))
  }

  // ---------------------------------------------------------------- the invariant

  ghost predicate LastIsShort(c: Config) {
    c.blocks != [] && |c.blocks[|c.blocks| - 1]| < c.params.blockSize
  }

  ghost predicate SenderInv(c: Config, st: State) {
    && 1 <= st.sender.base <= |c.blocks| + 1
    && (st.sender.status == W.Sending ==> CanAct(c, st.sender))
    && st.sender.base <= st.next <= End(c, st.sender) + 1
    && (st.sender.status == W.Completed ==> st.next == |c.blocks| + 1)
  }

  ghost predicate ReceiverInv(c: Config, st: State) {
    && 1 <= st.next <= |c.blocks| + 1
    && st.receiver.received == Flatten(c.blocks[..st.next - 1])
    && (st.receiver.status == U.Receiving ==> st.receiver.expected == Number(st.next))
    && (st.receiver.status == U.Finished <==> LastIsShort(c) && st.next == |c.blocks| + 1)
  }

  /** Data under way belongs to the current window or the one before; what is left of
      the one before comes first, and is there only while nothing newer was accepted. */
  ghost predicate DataInv(c: Config, st: State) {
    && (forall i :: 0 <= i < |st.data| ==>
          1 <= st.data[i] <= End(c, st.sender) && st.sender.base - c.senderWindow <= st.data[i])
    && (forall i :: 0 <= i < |st.data| && st.data[i] < st.sender.base ==> st.next == st.sender.base)
    && (forall i, j :: 0 <= i < j < |st.data| && st.data[j] < st.sender.base ==> st.data[i] < st.sender.base)
  }

  /** ACKs are truthful, and none was sent for a block more than half a turn older
      than one acknowledged before it. */
  ghost predicate AckInv(st: State) {
    && (forall i :: 0 <= i < |st.acks| ==> st.acks[i] < st.next && st.sender.base <= st.acks[i] + 32767)
    && (forall i, j :: 0 <= i < j < |st.acks| ==> st.acks[i] <= st.acks[j] + 32766)
  }

  ghost predicate Inv(c: Config, st: State) {
    SenderInv(c, st) && ReceiverInv(c, st) && DataInv(c, st) && AckInv(st)
  }

  /** The largest number of blocks a window of this transfer can hold. */
  function Span(c: Config): int {
    Min(c.senderWindow, |c.blocks|)
  }

  lemma InvImpliesSafe(c: Config, st: State)
    requires ValidConfig(c) && Inv(c, st)
    ensures Safe(c, st)
  {
    if st.next == |c.blocks| + 1 {
      assert c.blocks[..st.next - 1] == c.blocks;
    }
  }

  lemma InitInv(c: Config)
    requires ValidConfig(c)
    ensures Inv(c, Init(c))
  {
  }

  lemma TransmitKeeps(c: Config, st: State)
    requires ValidConfig(c) && Inv(c, st)
    ensures Inv(c, Step(c, st, Transmit))
  {
  }

  /** A reply that is no ACK of the window's last block leaves the window in place. */
  lemma HearKeeps(c: Config, st: State, reply: W.Reply)
    requires ValidConfig(c) && Inv(c, st)
    ensures Inv(c, Step(c, st, Hear(reply)))
  {
  }

  /** The sender moves on only when the ACK it matches truly acknowledges its window:
      this is where the bound on the window is needed. */
  lemma TakeAckKeeps(c: Config, st: State)
    requires ValidConfig(c) && Inv(c, st) && Span(c) <= 32769
    ensures Inv(c, Step(c, st, TakeAck))
  {
    var st' := Step(c, st, TakeAck);
    if st' != st {
      var a, end := st.acks[0], End(c, st.sender);
      if Number(a) == Number(end) {
        SameNumber(a, end);
        assert st.next == end + 1;
        assert forall i :: 0 <= i < |st.data| ==> st.data[i] >= st.sender.base;
      }
      assert forall i :: 0 <= i < |st'.acks| ==> st'.acks[i] == st.acks[i + 1];
    }
  }

  /** The receiver side after a packet has left the data channel. */
  lemma DequeueKeeps(c: Config, st: State, st': State)
    requires Inv(c, st) && st.data != [] && st'.data == st.data[1..] && st'.sender == st.sender
    requires st'.next == st.next || (st'.next == st.next + 1 && st.data[0] >= st.sender.base)
    ensures DataInv(c, st')
  {
    assert forall i :: 0 <= i < |st'.data| ==> st'.data[i] == st.data[i + 1];
  }

  lemma AcceptKeeps(c: Config, st: State)
    requires ValidConfig(c) && Inv(c, st) && st.receiver.status == U.Receiving && st.data != []
    requires st.data[0] == st.next <= |c.blocks|
    ensures Inv(c, Deliveries(c, st))
  {
    var st' := Deliveries(c, st);
    FlattenTakeSnoc(c.blocks, st.next - 1);
    NumberSucc(st.next);
    DequeueKeeps(c, st, st');
  }

  /** A packet that does not carry the expected block. */
  lemma OtherBlock(p: U.Params, r: U.Receiver, next: nat, index: nat, payload: Bytes)
    requires p.windowSize > 0 && r.expected == Number(next) && next != index
    requires -65536 < next - index < 65536
    ensures U.OnEvent(p, r, U.DataPacket(Number(index), payload))
            == if 0 < next - index < 32768 || index - next > 32768 then U.Reaction(r, Some(Number(index)))
               else U.Reaction(r.(status := U.OutOfOrder), None)
  {
    BehindMeaning(next, index);
    if Number(index) == Number(next) {
      SameNumber(index, next);
    }
  }

  lemma OldKeeps(c: Config, st: State)
    requires ValidConfig(c) && Inv(c, st) && st.receiver.status == U.Receiving && st.data != []
    requires 1 <= st.data[0] < st.next <= st.data[0] + 65535 && st.data[0] <= |c.blocks|
    ensures Inv(c, Deliveries(c, st))
  {
    OtherBlock(c.params, st.receiver, st.next, st.data[0], c.blocks[st.data[0] - 1]);
    NotAccepted(c, st, st.next - st.data[0] < 32768);
  }

  lemma AheadKeeps(c: Config, st: State)
    requires ValidConfig(c) && Inv(c, st) && st.receiver.status == U.Receiving && st.data != []
    requires st.next < st.data[0] <= |c.blocks| && st.data[0] - st.next <= 32768
    ensures Inv(c, Deliveries(c, st))
  {
    OtherBlock(c.params, st.receiver, st.next, st.data[0], c.blocks[st.data[0] - 1]);
    NotAccepted(c, st, false);
  }

  /** A packet the receiver does not append: it repeats an ACK or aborts. */
  lemma NotAccepted(c: Config, st: State, repeated: bool)
    requires ValidConfig(c) && Inv(c, st) && st.receiver.status == U.Receiving && st.data != []
    requires 1 <= st.data[0] <= |c.blocks| && Number(st.data[0]) != Number(st.next)
    requires repeated ==> st.data[0] < st.next < st.data[0] + 32768
    requires U.OnEvent(c.params, st.receiver, Arrival(c, st.data[0]))
             == if repeated then U.Reaction(st.receiver, Some(Number(st.data[0])))
                else U.Reaction(st.receiver.(status := U.OutOfOrder), None)
    ensures Inv(c, Deliveries(c, st))
  {
    DequeueKeeps(c, st, Deliveries(c, st));
  }

  /** The receiver takes a packet for the block it expects, for an old one, or for one
      too far ahead, and is right each time. */
  lemma DeliverKeeps(c: Config, st: State)
    requires ValidConfig(c) && Inv(c, st) && Span(c) <= 32769
    ensures Inv(c, Step(c, st, Deliver))
  {
    if st.receiver.status == U.Receiving && st.data != [] && 1 <= st.data[0] <= |c.blocks| {
      if st.data[0] == st.next {
        AcceptKeeps(c, st);
      } else if st.data[0] < st.next {
        OldKeeps(c, st);
      } else {
        AheadKeeps(c, st);
      }
    }
  }

  lemma UpsetKeeps(c: Config, st: State, e: U.Event)
    requires ValidConfig(c) && Inv(c, st)
    ensures Inv(c, Step(c, st, Upset(e)))
  {
  }

  /** `origin` says where each entry of the changed channel was before: still in order,
      except that a repeated entry has one origin. */
  ghost predicate Reshuffled(s: seq<nat>, s': seq<nat>, origin: seq<nat>) {
    && |origin| == |s'|
    && (forall i :: 0 <= i < |s'| ==> 0 <= origin[i] < |s| && s'[i] == s[origin[i]])
    && (forall i, j :: 0 <= i < j < |s'| ==> origin[i] <= origin[j])
  }

  lemma CutReshuffles(s: seq<nat>, from: nat, to: nat) returns (origin: seq<nat>)
    ensures Reshuffled(s, Cut(s, from, to), origin)
  {
    origin := seq(|Cut(s, from, to)|, i requires i >= 0 =>
                  if i < from || !(from <= to <= |s|) then i else i + (to - from));
  }

  lemma TwiceReshuffles(s: seq<nat>, at: nat) returns (origin: seq<nat>)
    ensures Reshuffled(s, Twice(s, at), origin)
  {
    origin := seq(|Twice(s, at)|, i requires i >= 0 => if i <= at || at >= |s| then i else i - 1);
  }

  lemma DataReshuffleKeeps(c: Config, st: State, data': seq<nat>, origin: seq<nat>)
    requires Inv(c, st) && Reshuffled(st.data, data', origin)
    ensures Inv(c, st.(data := data'))
  {
    var st' := st.(data := data');
    forall i, j | 0 <= i < j < |data'| && data'[j] < st.sender.base
      ensures data'[i] < st.sender.base
    {
      assert data'[i] == st.data[origin[i]] && data'[j] == st.data[origin[j]];
    }
  }

  lemma AckReshuffleKeeps(c: Config, st: State, acks': seq<nat>, origin: seq<nat>)
    requires Inv(c, st) && Reshuffled(st.acks, acks', origin)
    ensures Inv(c, st.(acks := acks'))
  {
    forall i, j | 0 <= i < j < |acks'|
      ensures acks'[i] <= acks'[j] + 32766
    {
      assert acks'[i] == st.acks[origin[i]] && acks'[j] == st.acks[origin[j]];
    }
  }

  lemma ChannelsKeep(c: Config, st: State, a: Action)
    requires ValidConfig(c) && Inv(c, st)
    requires a.LoseData? || a.RepeatData? || a.LoseAcks? || a.RepeatAck?
    ensures Inv(c, Step(c, st, a))
  {
    match a
    case LoseData(from, to) =>
      var origin := CutReshuffles(st.data, from, to);
      DataReshuffleKeeps(c, st, Cut(st.data, from, to), origin);
    case RepeatData(at) =>
      var origin := TwiceReshuffles(st.data, at);
      DataReshuffleKeeps(c, st, Twice(st.data, at), origin);
    case LoseAcks(from, to) =>
      var origin := CutReshuffles(st.acks, from, to);
      AckReshuffleKeeps(c, st, Cut(st.acks, from, to), origin);
    case RepeatAck(at) =>
      var origin := TwiceReshuffles(st.acks, at);
      AckReshuffleKeeps(c, st, Twice(st.acks, at), origin);
  }

  lemma StepKeeps(c: Config, st: State, a: Action)
    requires ValidConfig(c) && Inv(c, st) && Span(c) <= 32769
    ensures Inv(c, Step(c, st, a))
  {
    match a
    case Transmit => TransmitKeeps(c, st);
    case Hear(reply) => HearKeeps(c, st, reply);
    case TakeAck => TakeAckKeeps(c, st);
    case Deliver => DeliverKeeps(c, st);
    case Upset(e) => UpsetKeeps(c, st, e);
    case _ => ChannelsKeep(c, st, a);
  }

  lemma {:induction false} RunInv(c: Config, actions: seq<Action>)
    requires ValidConfig(c) && Span(c) <= 32769
    ensures Inv(c, Run(c, actions))
  {
    if actions == [] {
      InitInv(c);
    } else {
      RunInv(c, actions[..|actions| - 1]);
      StepKeeps(c, Run(c, actions[..|actions| - 1]), actions[|actions| - 1]);
    }
  }
}

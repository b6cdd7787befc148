/** The windowed sender serving `get` over a network that loses, duplicates and
    reorders packets freely: whatever was once sent may arrive at any later time, any
    number of times, or never. */
module Download {
  import opened Wire
  import opened Blocks
  import W = WindowSender
  import C = ClientGet

  /** The two ends' window sizes are equal when the option was negotiated. */
  datatype Config = Config(blocks: seq<Bytes>, blockSize: nat, serverWindow: nat, clientWindow: nat)

  ghost predicate ValidConfig(c: Config) {
    && c.blockSize > 0 && IsTransfer(c.blocks, c.blockSize)
    && 1 <= c.serverWindow <= 65535 && 1 <= c.clientWindow <= 65535
  }

  /** `data`: the indices of the blocks sent so far. `acks`: the numbers acknowledged so
      far. `next`: one more than the number of blocks the client has written. */
  datatype State = State(sender: W.Sender, waiting: bool, client: C.Client, next: nat,
                         data: set<nat>, acks: set<U16>)

  const Init := State(W.Start, false, C.Fresh, 1, {}, {})

  datatype Action =
    | Transmit
    | Hear(reply: W.Reply)
    | TakeAck(number: U16)
    | Deliver(index: nat)
    | Disturb(event: C.Event)

  function End(c: Config, s: W.Sender): int {
    W.WindowEnd(|c.blocks|, c.serverWindow, s.base)
  }

  predicate CanAct(c: Config, s: W.Sender) {
    s.status == W.Sending && 1 <= s.base <= |c.blocks| && s.retries < MAX_RETRIES && c.serverWindow > 0
  }

  function Indices(low: nat, high: int): (s: set<nat>)
    ensures forall i: nat :: (i in s <==> low <= i <= high)
    decreases high + 1 - low
  {
    if high < low then {} else Indices(low, high - 1) + {high}
  }

  function WithAck(acks: set<U16>, ack: Option<U16>): set<U16> {
    if ack.Some? then acks + {ack.value} else acks
  }

  function Deliveries(c: Config, st: State, index: nat): State
    requires 1 <= index <= |c.blocks|
  {
    var payload := c.blocks[index - 1];
    var (client, ack) := C.OnData(c.blockSize, c.clientWindow, st.client, Number(index), payload);
    st.(client := client,
        next := if Number(index) == st.client.expected
                then st.next + 1 + C.DrainCount(C.Append(st.client, payload)) else st.next,
        acks := WithAck(st.acks, ack))
  }

  /** The block of an empty file is sent once and then only awaited. */
  function Answered(c: Config, st: State, reply: W.Reply): State
    requires CanAct(c, st.sender)
  {
    var lone := c.blocks == [[]];
    var s := if lone then W.OnLoneReply(1, st.sender, reply)
             else W.OnReply(|c.blocks|, c.serverWindow, st.sender, reply);
    st.(sender := s, waiting := lone && s.status == W.Sending)
  }

  /** An action that is not possible in a state leaves it unchanged. */
  function Step(c: Config, st: State, a: Action): State {
    match a
    case Transmit =>
      if CanAct(c, st.sender) && !st.waiting
      then st.(data := st.data + Indices(st.sender.base, End(c, st.sender)), waiting := true)
      else st
    case Hear(reply) =>
      if CanAct(c, st.sender) && st.waiting && !reply.Ack?
      then Answered(c, st, reply)
      else st
    case TakeAck(number) =>
      if CanAct(c, st.sender) && st.waiting && number in st.acks
      then Answered(c, st, W.Ack(number))
      else st
    case Deliver(index) =>
      if st.client.status == C.Active && index in st.data && 1 <= index <= |c.blocks|
      then Deliveries(c, st, index)
      else st
    case Disturb(e) =>
      if st.client.status == C.Active && !e.DataPacket?
      then
        var (client, ack) := C.OnEvent(c.blockSize, c.clientWindow, st.client, e);
        st.(client := client, acks := WithAck(st.acks, ack))
      else st
  }

  function Run(c: Config, actions: seq<Action>): State {
    if actions == [] then Init
    else Step(c, Run(c, actions[..|actions| - 1]), actions[|actions| - 1])
  }

  /** The local file is exactly the first blocks of the served one, the buffer holds
      only true blocks that are still to come (late copies are buffered once a file of
      65535 blocks is complete, because the number then expected is 0), every ACK names a block already written,
      and either end finishing normally means the file is complete. */
  ghost predicate Safe(c: Config, st: State) {
    && 1 <= st.next <= |c.blocks| + 1
    && st.client.written == Flatten(c.blocks[..st.next - 1])
    && (forall k :: k in st.client.buffer ==>
          1 <= k <= |c.blocks| && st.client.buffer[k] == c.blocks[k - 1]
          && (k > st.next || st.next == |c.blocks| + 1 == 65536))
    && (forall a :: a in st.acks ==> a < st.next)
    && (st.client.status == C.Succeeded ==> st.client.written == Flatten(c.blocks))
    && (st.sender.status == W.Completed ==> st.client.written == Flatten(c.blocks))
  }

  /** A client window larger than the server's: the server's first window is full and
      no ACK of its end ever comes. */
  predicate Stalled(c: Config) {
    c.clientWindow > c.serverWindow && |c.blocks| > c.serverWindow
  }

  /** The largest index a run can send. */
  function Reach(c: Config): nat {
    if Stalled(c) then c.serverWindow else |c.blocks|
  }

  // ---------------------------------------------------------------- the invariant

  ghost predicate BufferInv(c: Config, buffer: map<U16, Bytes>) {
    forall k :: k in buffer ==> 1 <= k <= Reach(c) && buffer[k] == c.blocks[k - 1]
  }

  ghost predicate Inv(c: Config, st: State) {
    && 1 <= st.next <= Reach(c) + 1
    && st.client.expected == Number(st.next)
    && st.client.written == Joined(c.blocks, st.next - 1)
    && st.client.lastAck < st.next
    && BufferInv(c, st.client.buffer)
    && (forall k :: k in st.client.buffer ==> k > st.next || st.next == 65536)
    && (forall a :: a in st.acks ==> a < st.next)
    && (forall i :: i in st.data ==> 1 <= i <= Reach(c))
    && 1 <= st.sender.base <= |c.blocks|
    && st.sender.base <= st.next
    && (st.sender.status == W.Sending ==> CanAct(c, st.sender))
    && (st.client.status == C.Succeeded ==> st.next == |c.blocks| + 1)
    && (st.sender.status == W.Completed ==> st.next == |c.blocks| + 1)
    && (Stalled(c) ==> st.sender.base == 1 && st.client.lastAck == 0 && forall a :: a in st.acks ==> a == 0)
  }

  ghost predicate DrainInv(c: Config, d: C.Drained, next: nat) {
    && 1 <= next <= Reach(c) + 1
    && BufferInv(c, d.buffer)
    && (forall k :: k in d.buffer ==> k >= next)
    && d.expected == Number(next)
    && d.written == Joined(c.blocks, next - 1)
  }

  lemma DrainOneKeeps(c: Config, d: C.Drained, next: nat)
    requires Reach(c) <= 65535 && DrainInv(c, d, next) && d.expected in d.buffer
    ensures DrainInv(c, C.DrainOne(d), next + 1)
  {
    BufferedIsNext(c, d, next);
    NumberSucc(next);
  }

  lemma BufferedIsNext(c: Config, d: C.Drained, next: nat)
    requires Reach(c) <= 65535 && DrainInv(c, d, next) && d.expected in d.buffer
    ensures d.expected == next <= Reach(c)
  {
  }

  /** Draining a buffer of true blocks extends the file by the blocks that follow it. */
  lemma {:induction false} DrainMeaning(c: Config, d: C.Drained, next: nat)
    requires Reach(c) <= 65535 && DrainInv(c, d, next)
    ensures DrainInv(c, C.Drain(d), next + C.DrainCount(d))
    ensures C.Drain(d).expected !in C.Drain(d).buffer
    decreases |d.buffer|
  {
    if d.expected in d.buffer {
      DrainOneKeeps(c, d, next);
      C.DrainOneSmaller(d);
      DrainMeaning(c, C.DrainOne(d), next + 1);
      assert next + 1 + C.DrainCount(C.DrainOne(d)) == next + C.DrainCount(d);
    }
  }

  /** The expected block: it is the true one, and everything now due follows it. */
  lemma AcceptKeeps(c: Config, st: State, index: nat)
    requires ValidConfig(c) && Reach(c) <= 65535 && Inv(c, st)
    requires 1 <= index == st.next <= Reach(c)
    ensures Inv(c, Deliveries(c, st, index))
  {
    DrainedInv(c, st, index, C.Append(st.client, c.blocks[index - 1]));
    DeliveriesAccepted(c, st, index);
  }

  lemma DrainedInv(c: Config, st: State, index: nat, d: C.Drained)
    requires ValidConfig(c) && Reach(c) <= 65535 && Inv(c, st)
    requires 1 <= index == st.next <= Reach(c) && d == C.Append(st.client, c.blocks[index - 1])
    ensures Inv(c, AfterDrain(c, st, C.Drain(d), index + 1 + C.DrainCount(d), index == |c.blocks|))
  {
    AppendKeeps(c, st, index);
    DrainMeaning(c, d, index + 1);
    AcceptedInv(c, st, index, C.Drain(d), index + 1 + C.DrainCount(d));
  }

  lemma AppendKeeps(c: Config, st: State, index: nat)
    requires ValidConfig(c) && Reach(c) <= 65535 && Inv(c, st)
    requires 1 <= index == st.next <= Reach(c)
    ensures DrainInv(c, C.Append(st.client, c.blocks[index - 1]), index + 1)
  {
    NumberSucc(index);
  }

  lemma DeliveriesAccepted(c: Config, st: State, index: nat)
    requires 1 <= index == st.next <= Reach(c) && Number(index) == st.client.expected
    requires FullButLast(c.blocks, c.blockSize) && |c.blocks[|c.blocks| - 1]| < c.blockSize
    ensures var d := C.Append(st.client, c.blocks[index - 1]);
            Deliveries(c, st, index) == AfterDrain(c, st, C.Drain(d), index + 1 + C.DrainCount(d), index == |c.blocks|)
  {
    assert |c.blocks[index - 1]| < c.blockSize <==> index == |c.blocks|;
  }

  lemma AcceptedInv(c: Config, st: State, index: nat, d: C.Drained, next: nat)
    requires ValidConfig(c) && Reach(c) <= 65535 && Inv(c, st)
    requires 1 <= index == st.next <= Reach(c) && index < next
    requires DrainInv(c, d, next) && d.expected !in d.buffer
    ensures Inv(c, AfterDrain(c, st, d, next, index == |c.blocks|))
  {
    assert WrappingSub(d.expected, 1) == next - 1;
    assert forall k :: k in d.buffer && next <= 65535 ==> k != next;
  }

  /** The state once the expected block and all that follows it has been written. */
  function AfterDrain(c: Config, st: State, d: C.Drained, next: nat, isFinal: bool): State {
    var (client, ack) := C.Settle(c.clientWindow, st.client, d, isFinal);
    st.(client := client, next := next, acks := WithAck(st.acks, ack))
  }

  /** Any block ever sent, arriving at any time. */
  lemma DeliverKeeps(c: Config, st: State, index: nat)
    requires ValidConfig(c) && Reach(c) <= 65535 && Inv(c, st)
    ensures Inv(c, Step(c, st, Deliver(index)))
  {
    if st.client.status == C.Active && index in st.data {
      if Number(index) == st.client.expected {
        SameNumber(index, st.next);
        AcceptKeeps(c, st, index);
      } else {
        SetAsideKeeps(c, st, index);
      }
    }
  }

  /** A block that is not due is answered as a duplicate or buffered. */
  lemma SetAsideKeeps(c: Config, st: State, index: nat)
    requires ValidConfig(c) && Reach(c) <= 65535 && Inv(c, st)
    requires 1 <= index <= Reach(c) && Number(index) != st.client.expected
    ensures Inv(c, Deliveries(c, st, index))
  {
  }

  lemma TakeAckKeeps(c: Config, st: State, number: U16)
    requires ValidConfig(c) && Reach(c) <= 65535 && Inv(c, st)
    ensures Inv(c, Step(c, st, TakeAck(number)))
  {
  }

  lemma OthersKeep(c: Config, st: State, a: Action)
    requires ValidConfig(c) && Reach(c) <= 65535 && Inv(c, st)
    requires a.Transmit? || a.Hear? || a.Disturb?
    ensures Inv(c, Step(c, st, a))
  {
  }

  lemma {:induction false} RunInv(c: Config, actions: seq<Action>)
    requires ValidConfig(c) && Reach(c) <= 65535
    ensures Inv(c, Run(c, actions))
  {
    if actions != [] {
      var st, a := Run(c, actions[..|actions| - 1]), actions[|actions| - 1];
      RunInv(c, actions[..|actions| - 1]);
      match a
      case Deliver(index) => DeliverKeeps(c, st, index);
      case TakeAck(number) => TakeAckKeeps(c, st, number);
      case _ => OthersKeep(c, st, a);
    }
  }

  lemma RunSafe(c: Config, actions: seq<Action>)
    requires ValidConfig(c) && Reach(c) <= 65535
    ensures Safe(c, Run(c, actions))
  {
    RunInv(c, actions);
    InvSafe(c, Run(c, actions));
  }

  lemma InvSafe(c: Config, st: State)
    requires ValidConfig(c) && Reach(c) <= 65535 && Inv(c, st)
    ensures Safe(c, st)
  {
    JoinedIsFlatten(c.blocks, st.next - 1);
    assert c.blocks[..|c.blocks|] == c.blocks;
  }
}

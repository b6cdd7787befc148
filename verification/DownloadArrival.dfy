/** What the arrival of a block does to a download, told in unbounded indices, and when a
    download can complete at the server. */
module DownloadArrival {
  import opened Wire
  import opened Blocks
  import opened Download
  import opened DownloadTheorems
  import W = WindowSender
  import C = ClientGet

  /** The buffered blocks from `next` on. */
  function Behind(buffer: map<U16, Bytes>, next: nat): map<U16, Bytes> {
    map k | k in buffer && k >= next :: buffer[k]
  }

  /** From a buffer, the blocks from `next` up to the first gap at `next'` were taken. */
  ghost predicate TakenUpTo(buffer: map<U16, Bytes>, next: nat, buffer': map<U16, Bytes>, next': nat) {
    && next <= next'
    && (forall i :: next <= i < next' ==> i in buffer)
    && (next' <= 65535 ==> next' !in buffer)
    && buffer' == Behind(buffer, next')
  }

  lemma TakeFirst(buffer: map<U16, Bytes>, next: U16, buffer': map<U16, Bytes>, next': nat)
    requires next in buffer && TakenUpTo(buffer - {next}, next + 1, buffer', next')
    ensures TakenUpTo(buffer, next, buffer', next')
  {
    assert Behind(buffer - {next}, next') == Behind(buffer, next');
    assert forall i :: next < i && i in buffer - {next} ==> i in buffer;
  }

  lemma TakeNone(buffer: map<U16, Bytes>, next: nat)
    requires (forall k :: k in buffer ==> k >= next) && (next <= 65535 ==> next !in buffer)
    ensures TakenUpTo(buffer, next, buffer, next)
  {
    assert Behind(buffer, next) == buffer;
  }

  /** Draining takes exactly the blocks that follow without a gap. */
  lemma {:induction false} DrainExactly(c: Config, d: C.Drained, next: nat)
    requires Reach(c) <= 65535 && DrainInv(c, d, next)
    ensures TakenUpTo(d.buffer, next, C.Drain(d).buffer, next + C.DrainCount(d))
    decreases |d.buffer|
  {
    if d.expected in d.buffer {
      C.DrainOneSmaller(d);
      DrainOneKeeps(c, d, next);
      DrainExactly(c, C.DrainOne(d), next + 1);
      OneMoreTaken(c, d, next);
    } else {
      TakeNone(d.buffer, next);
    }
  }

  lemma {:induction false} OneMoreTaken(c: Config, d: C.Drained, next: nat)
    requires Reach(c) <= 65535 && DrainInv(c, d, next) && d.expected in d.buffer
    requires var d1 := C.DrainOne(d);
             TakenUpTo(d1.buffer, next + 1, C.Drain(d1).buffer, next + 1 + C.DrainCount(d1))
    ensures TakenUpTo(d.buffer, next, C.Drain(d).buffer, next + C.DrainCount(d))
  {
    BufferedIsNext(c, d, next);
    TakeFirst(d.buffer, next, C.Drain(d).buffer, next + C.DrainCount(d));
  }

  /** A block that is neither due nor new: it is answered with the last ACK. Once a file of
      65535 blocks is complete the number expected is 0, and late copies are set aside. */
  lemma OldArrival(c: Config, st: State, index: nat)
    requires ValidConfig(c) && Reach(c) <= 65535 && Inv(c, st) && st.client.status == C.Active
    requires 1 <= index < st.next && index in st.data
    ensures Step(c, st, Deliver(index))
         == if st.next <= 65535 then st.(acks := st.acks + {st.client.lastAck})
            else st.(client := st.client.(buffer := st.client.buffer[index := c.blocks[index - 1]]))
  {
  }

  /** A block ahead of its turn is set aside, however far ahead it is, and not acknowledged. */
  lemma EarlyArrival(c: Config, st: State, index: nat)
    requires ValidConfig(c) && Reach(c) <= 65535 && Inv(c, st) && st.client.status == C.Active
    requires st.next < index && index in st.data
    ensures Step(c, st, Deliver(index))
         == st.(client := st.client.(buffer := st.client.buffer[index := c.blocks[index - 1]]))
  {
  }

  /** The block that is due: it is written with all that follow it in the buffer, up to the
      first gap. The last block written is acknowledged, for all before it, exactly when at
      least a window was written since the last ACK or the block that came was the final one,
      and in that case `get` has succeeded. */
  lemma DueArrival(c: Config, st: State)
    requires ValidConfig(c) && Reach(c) <= 65535 && Inv(c, st) && st.client.status == C.Active && st.next in st.data
    ensures WrittenAndSettled(c, st, Step(c, st, Deliver(st.next)))
  {
    DueDelivery(c, st);
  }

  lemma DueDelivery(c: Config, st: State)
    requires ValidConfig(c) && Reach(c) <= 65535 && Inv(c, st) && 1 <= st.next <= Reach(c)
    ensures WrittenAndSettled(c, st, Deliveries(c, st, st.next))
  {
    AppendKeeps(c, st, st.next);
    DeliveriesAccepted(c, st, st.next);
    AcceptedSettled(c, st, C.Append(st.client, c.blocks[st.next - 1]), Deliveries(c, st, st.next));
  }

  ghost predicate WrittenAndSettled(c: Config, st: State, st': State) {
    var final := st.next == |c.blocks|;
    var due := st'.next - 1 - st.client.lastAck >= c.clientWindow || final;
    && st.next < st'.next <= |c.blocks| + 1
    && TakenUpTo(st.client.buffer, st.next + 1, st'.client.buffer, st'.next)
    && st'.client.expected == Number(st'.next)
    && st'.client.written == Joined(c.blocks, st'.next - 1)
    && st'.client.lastAck == (if due then st'.next - 1 else st.client.lastAck)
    && st'.client.status == (if final then C.Succeeded else st.client.status)
    && (forall a :: a in st'.acks <==> a in st.acks || (due && a == st'.next - 1))
    && st'.sender == st.sender && st'.waiting == st.waiting && st'.data == st.data
  }

  lemma AcceptedSettled(c: Config, st: State, d: C.Drained, st': State)
    requires Reach(c) <= 65535 && st.client.lastAck < st.next <= Reach(c)
    requires DrainInv(c, d, st.next + 1) && d.buffer == st.client.buffer
    requires st' == AfterDrain(c, st, C.Drain(d), st.next + 1 + C.DrainCount(d), st.next == |c.blocks|)
    ensures WrittenAndSettled(c, st, st')
  {
    var d', next' := DrainResult(c, d, st.next + 1);
    SettledAfter(c, st, d', next', st');
  }

  ghost predicate WrittenUpTo(c: Config, d: C.Drained, next: nat) {
    && 1 <= next <= |c.blocks| + 1 && next <= 65536
    && d.expected == Number(next) && d.written == Joined(c.blocks, next - 1)
  }

  lemma DrainResult(c: Config, d: C.Drained, next: nat) returns (d': C.Drained, next': nat)
    requires Reach(c) <= 65535 && DrainInv(c, d, next)
    ensures d' == C.Drain(d) && next' == next + C.DrainCount(d)
    ensures WrittenUpTo(c, d', next') && TakenUpTo(d.buffer, next, d'.buffer, next')
  {
    DrainMeaning(c, d, next);
    DrainExactly(c, d, next);
    d', next' := C.Drain(d), next + C.DrainCount(d);
  }

  lemma SettledAfter(c: Config, st: State, d: C.Drained, next': nat, st': State)
    requires st.client.lastAck < st.next < next'
    requires WrittenUpTo(c, d, next') && TakenUpTo(st.client.buffer, st.next + 1, d.buffer, next')
    requires st' == AfterDrain(c, st, d, next', st.next == |c.blocks|)
    ensures WrittenAndSettled(c, st, st')
  {
    SettleExactly(c, st, d, next', st.next == |c.blocks|);
  }

  lemma SettleExactly(c: Config, st: State, d: C.Drained, next': nat, final: bool)
    requires st.client.lastAck < next' <= 65536 && d.expected == Number(next')
    ensures var st' := AfterDrain(c, st, d, next', final);
            var due := next' - 1 - st.client.lastAck >= c.clientWindow || final;
            && st'.client.expected == d.expected && st'.client.written == d.written && st'.client.buffer == d.buffer
            && st'.client.lastAck == (if due then next' - 1 else st.client.lastAck)
            && st'.client.status == (if final then C.Succeeded else st.client.status)
            && (forall a :: a in st'.acks <==> a in st.acks || (due && a == next' - 1))
  {
    NumberSucc(st.client.lastAck);
    WrapDistance(next', st.client.lastAck + 1);
    assert WrappingSub(d.expected, 1) == next' - 1;
  }

  // ------------------------------------------------------------ completion

  lemma LastInOrder(c: Config, st: State)
    requires ValidConfig(c) && |c.blocks| <= 65535 && Inv(c, st) && InOrder(c, st, |c.blocks|)
    ensures var st' := Step(c, Step(c, st, Deliver(|c.blocks|)), TakeAck(|c.blocks|));
            st'.sender.status == W.Completed && st'.client.status == C.Succeeded
  {
    assert st.next == |c.blocks| && st.next in st.data;
    DueArrival(c, st);
    TakeFinalAck(c, Step(c, st, Deliver(|c.blocks|)));
  }

  lemma TakeFinalAck(c: Config, st: State)
    requires ValidConfig(c) && |c.blocks| <= 65535 && CanAct(c, st.sender) && st.waiting
    requires End(c, st.sender) == |c.blocks| && |c.blocks| in st.acks
    ensures Step(c, st, TakeAck(|c.blocks|)).sender.status == W.Completed
    ensures Step(c, st, TakeAck(|c.blocks|)).client == st.client
  {
  }

  /** A download can complete at both ends unless the client's window is so much larger than
      the server's that no ACK ever falls due. */
  lemma DownloadCompletesExactly(c: Config)
    requires ValidConfig(c) && |c.blocks| <= 65535
    ensures (exists actions: seq<Action> ::
               Run(c, actions).sender.status == W.Completed && Run(c, actions).client.status == C.Succeeded)
            <==> !Stalled(c)
    ensures (exists actions: seq<Action> :: Run(c, actions).sender.status == W.Completed) <==> !Stalled(c)
  {
    if Stalled(c) {
      forall actions: seq<Action>
        ensures Run(c, actions).sender.status != W.Completed
      {
        RunInv(c, actions);
      }
    } else {
      var n := |c.blocks|;
      var actions := ReachInOrder(c, n);
      RunInv(c, actions);
      RunSnoc(c, actions, Deliver(n));
      RunSnoc(c, actions + [Deliver(n)], TakeAck(n));
      LastInOrder(c, Run(c, actions));
      actions := actions + [Deliver(n)] + [TakeAck(n)];
      assert Run(c, actions).sender.status == W.Completed && Run(c, actions).client.status == C.Succeeded;
    }
  }
}

/** Main results about the joined state machine of module Link, with the exact bounds
    under which they hold. */
module LinkTheorems {
  import opened Wire
  import opened Blocks
  import opened Link
  import W = WindowSender
  import P = ClientPut
  import U = UploadReceiver

  lemma RunSnoc(c: Config, actions: seq<Action>, a: Action)
    requires c.params.windowSize > 0
    ensures Run(c, actions + [a]) == Step(c, Run(c, actions), a)
  {
    assert (actions + [a])[..|actions|] == actions;
  }

  /** The run that breaks a window of more than 32769 blocks: all of it is lost but its
      last block, which the half-range test mistakes for an old one. */
  function LastBlockAlone(c: Config): seq<Action>
    requires Span(c) > 0
  {
    [Transmit, LoseData(0, Span(c) - 1), Deliver]
  }

  lemma LastBlockAloneOutcome(c: Config)
    requires ValidConfig(c) && Span(c) >= 2
    ensures var st := Run(c, LastBlockAlone(c));
            && st.next == 1 && st.receiver.received == [] && st.data == []
            && st.waiting && st.sender == W.Start
            && (if Span(c) > 32769 then st.acks == [0, Span(c)] && st.receiver.status == U.Receiving
                else st.acks == [0] && st.receiver.status == U.OutOfOrder)
  {
    var k := Span(c);
    var sent := [] + [Transmit];
    var lost := sent + [LoseData(0, k - 1)];
    assert LastBlockAlone(c) == lost + [Deliver];
    RunSnoc(c, [], Transmit);
    RunSnoc(c, sent, LoseData(0, k - 1));
    RunSnoc(c, lost, Deliver);
    assert Run(c, sent).data == Range(1, k);
    assert Cut(Range(1, k), 0, k - 1) == [k];
    FarAhead(c, Run(c, lost), k);
  }

  /** A block further ahead than the first one, met by a receiver that has nothing yet:
      more than 32768 ahead it is taken for an old one. */
  lemma FarAhead(c: Config, st: State, k: nat)
    requires ValidConfig(c) && 2 <= k <= |c.blocks| && k <= 65535 && st.data == [k] && st.receiver == U.Fresh
    ensures Step(c, st, Deliver)
            == if k > 32769 then st.(data := [], acks := st.acks + [k])
               else st.(data := [], receiver := U.Fresh.(status := U.OutOfOrder))
  {
    assert Number(k) == k && Number(1) == 1;
    WrapNegative(1, k);
  }

  /** Go-Back-N safety over FIFO channels that lose and duplicate, for files of any
      length, across every wrap of the block number: it holds in all reachable states
      exactly when no window can hold more than 32769 blocks. */
  lemma SlidingWindowSafety(c: Config)
    requires ValidConfig(c)
    ensures (forall actions: seq<Action> :: Safe(c, Run(c, actions))) <==> Span(c) <= 32769
  {
    if Span(c) <= 32769 {
      forall actions: seq<Action>
        ensures Safe(c, Run(c, actions))
      {
        RunInv(c, actions);
        InvImpliesSafe(c, Run(c, actions));
      }
    } else {
      LastBlockAloneOutcome(c);
      var st := Run(c, LastBlockAlone(c));
      assert st.acks[1] >= st.next;
      assert !Safe(c, st);
    }
  }

  /** Beyond the bound a whole file can be reported sent with nothing received. */
  lemma LostFileReportedSent(c: Config)
    requires ValidConfig(c) && 32769 < |c.blocks| <= c.senderWindow
    ensures exists actions: seq<Action> ::
              Run(c, actions).sender.status == W.Completed && Run(c, actions).receiver.received == []
  {
    LastBlockAloneOutcome(c);
    var actions := LastBlockAlone(c);
    RunSnoc(c, actions, LoseAcks(0, 1));
    RunSnoc(c, actions + [LoseAcks(0, 1)], TakeAck);
    assert Run(c, actions + [LoseAcks(0, 1)]).acks == [|c.blocks|];
    assert Run(c, actions + [LoseAcks(0, 1)] + [TakeAck]).sender.status == W.Completed;
  }

  /** When the windowed sender completes a transfer, the receiver has finished it: it
      holds the file and has seen the short block that ends it. */
  lemma WindowedCompletion(data: Bytes, c: Config, actions: seq<Action>)
    requires ValidConfig(c) && c.rule == Windowed && Span(c) <= 32769
    requires c.blocks == Split(data, c.params.blockSize)
    ensures var st := Run(c, actions);
            st.sender.status == W.Completed ==> st.receiver.received == data && st.receiver.status == U.Finished
  {
    RunInv(c, actions);
    InvImpliesSafe(c, Run(c, actions));
    SplitIsTransfer(data, c.params.blockSize);
  }

  /** The "Out of order block" abort is reachable exactly when a window can hold more
      than one block: it is enough to lose the first one. */
  lemma OutOfOrderExactly(c: Config)
    requires ValidConfig(c)
    ensures (forall actions: seq<Action> :: Run(c, actions).receiver.status != U.OutOfOrder) <==> Span(c) <= 1
  {
    if Span(c) <= 1 {
      forall actions: seq<Action>
        ensures Run(c, actions).receiver.status != U.OutOfOrder
      {
        NeverOutOfOrder(c, actions);
      }
    } else {
      var actions := FirstBlockLost(c);
      assert Run(c, actions).receiver.status == U.OutOfOrder;
    }
  }

  lemma FirstBlockLost(c: Config) returns (actions: seq<Action>)
    requires ValidConfig(c) && Span(c) >= 2
    ensures Run(c, actions).receiver.status == U.OutOfOrder
  {
    var sent := [] + [Transmit];
    var lost := sent + [LoseData(0, 1)];
    actions := lost + [Deliver];
    RunSnoc(c, [], Transmit);
    RunSnoc(c, sent, LoseData(0, 1));
    RunSnoc(c, lost, Deliver);
    assert Run(c, sent).data == Range(1, Span(c));
    var st := Run(c, lost);
    assert st.data[0] == 2 && st.receiver == U.Fresh;
    AheadAborts(c, st);
  }

  lemma AheadAborts(c: Config, st: State)
    requires ValidConfig(c) && |c.blocks| >= 2 && st.data != [] && st.data[0] == 2 && st.receiver == U.Fresh
    ensures Step(c, st, Deliver).receiver.status == U.OutOfOrder
  {
    assert Number(2) == 2;
    WrapNegative(1, 2);
  }

  lemma {:induction false} NeverOutOfOrder(c: Config, actions: seq<Action>)
    requires ValidConfig(c) && Span(c) <= 1
    ensures Run(c, actions).receiver.status != U.OutOfOrder
  {
    if actions != [] {
      var before, a := actions[..|actions| - 1], actions[|actions| - 1];
      NeverOutOfOrder(c, before);
      RunInv(c, before);
      OneBlockWindow(c, Run(c, before), a);
    }
  }

  lemma OneBlockWindow(c: Config, st: State, a: Action)
    requires ValidConfig(c) && Span(c) <= 1 && Inv(c, st) && st.receiver.status != U.OutOfOrder
    ensures Step(c, st, a).receiver.status != U.OutOfOrder
  {
    if a == Deliver && Step(c, st, a) != st {
      var index := st.data[0];
      BehindMeaning(st.next, index);
      if Number(index) != Number(st.next) {
        assert index < st.next <= index + 2;
      }
    }
  }

  /** Upload end to end, for any length, any number of wraps and any ACK window the
      server negotiated: the two ends stay within one block of each other, the server
      never aborts for order, and when `put` succeeds the server has received the file.
      It then finishes, and writes it, exactly when the length is no multiple of the
      block size: otherwise `put` sends no short last block and the server, in every
      run, waits for one. */
  lemma UploadEndToEnd(data: Bytes, c: Config, actions: seq<Action>)
    requires ValidConfig(c) && c.rule == StopAndWait && c.blocks == P.PutBlocks(data, c.params.blockSize)
    ensures var st := Run(c, actions);
            && st.sender.base <= st.next <= st.sender.base + 1
            && st.receiver.status != U.OutOfOrder
            && st.receiver.received <= data
            && (st.sender.status == W.Completed ==> st.receiver.received == data)
            && (st.sender.status == W.Completed ==>
                  (st.receiver.status == U.Finished <==> |data| % c.params.blockSize != 0))
            && (st.receiver.status == U.Finished ==> st.receiver.received == data && |data| % c.params.blockSize != 0)
  {
    RunInv(c, actions);
    NeverOutOfOrder(c, actions);
    P.PutBlocksMeaning(data, c.params.blockSize);
    ShortLast(c);
    UploadState(c, Run(c, actions));
  }

  lemma UploadState(c: Config, st: State)
    requires ValidConfig(c) && c.rule == StopAndWait && Inv(c, st)
    ensures st.sender.base <= st.next <= st.sender.base + 1
    ensures st.receiver.received <= Flatten(c.blocks)
    ensures st.sender.status == W.Completed ==> st.receiver.received == Flatten(c.blocks)
    ensures st.sender.status == W.Completed ==> (st.receiver.status == U.Finished <==> LastIsShort(c))
    ensures st.receiver.status == U.Finished ==> st.receiver.received == Flatten(c.blocks) && LastIsShort(c)
  {
    InvImpliesSafe(c, st);
    FlattenPrefix(c.blocks, st.next - 1);
  }

  lemma ShortLast(c: Config)
    requires ValidConfig(c)
    ensures LastIsShort(c) <==> IsTransfer(c.blocks, c.params.blockSize)
  {
  }
}

/** Runs that complete: the promises of module LinkTheorems about a sender that has
    finished are about states that are reached, and exactly when. */
module Completion {
  import opened Wire
  import opened Blocks
  import opened Link
  import W = WindowSender
  import P = ClientPut
  import U = UploadReceiver
  import T = LinkTheorems

  ghost predicate Reaches(c: Config, st: State)
    requires c.params.windowSize > 0
  {
    exists actions: seq<Action> :: Run(c, actions) == st
  }

  lemma OneStep(c: Config, st: State, a: Action)
    requires c.params.windowSize > 0 && Reaches(c, st)
    ensures Reaches(c, Step(c, st, a))
  {
    var actions: seq<Action> :| Run(c, actions) == st;
    T.RunSnoc(c, actions, a);
  }

  ghost predicate WithinLimit(c: Config) {
    c.params.sizeLimit > 0 ==> |Flatten(c.blocks)| <= c.params.sizeLimit
  }

  // ------------------------------------------------------------ one window

  /** Nothing is under way and the window at `base` is to be sent. */
  ghost predicate Quiet(c: Config, st: State, base: nat) {
    && 1 <= base <= |c.blocks|
    && st.sender == W.Sender(base, 0, W.Sending) && !st.waiting
    && st.next == base
    && st.receiver == U.Receiver(Number(base), Flatten(c.blocks[..base - 1]), U.Receiving)
    && st.data == [] && st.acks == []
  }

  /** The window at `base` is under way and its blocks before `k` have been accepted. */
  ghost predicate Arriving(c: Config, st: State, base: nat, k: nat) {
    && st.sender == W.Sender(base, 0, W.Sending) && CanAct(c, st.sender) && st.waiting
    && base <= k <= W.WindowEnd(|c.blocks|, c.senderWindow, base) + 1
    && st.next == k
    && st.receiver == U.Receiver(Number(k), Flatten(c.blocks[..k - 1]), U.Receiving)
    && st.data == Range(k, W.WindowEnd(|c.blocks|, c.senderWindow, base))
  }

  /** The short last block has been accepted and its ACK is the last one under way. */
  ghost predicate Ending(c: Config, st: State, base: nat) {
    && st.sender == W.Sender(base, 0, W.Sending) && CanAct(c, st.sender) && st.waiting
    && End(c, st.sender) == |c.blocks| && st.next == |c.blocks| + 1
    && st.acks != [] && st.acks[|st.acks| - 1] == |c.blocks|
  }

  /** The blocks of the window up to `k` have been accepted. */
  ghost predicate AcceptedTo(c: Config, st: State, base: nat, k: nat) {
    if k == |c.blocks| && LastIsShort(c) then Ending(c, st, base) else Arriving(c, st, base, k + 1)
  }

  lemma SendWindow(c: Config, st: State, base: nat)
    requires ValidConfig(c) && Quiet(c, st, base)
    ensures Arriving(c, Step(c, st, Transmit), base, base)
  {
  }

  lemma BlockFits(c: Config, k: nat)
    requires 1 <= k <= |c.blocks|
    ensures Flatten(c.blocks[..k - 1]) + c.blocks[k - 1] == Flatten(c.blocks[..k])
    ensures |Flatten(c.blocks[..k])| <= |Flatten(c.blocks)|
  {
    FlattenTakeSnoc(c.blocks, k - 1);
    FlattenPrefix(c.blocks, k);
  }

  /** What the receiver does with the block it expects, within the limit. */
  lemma Expected(p: U.Params, r: U.Receiver, k: nat, payload: Bytes)
    requires p.windowSize > 0 && r.status == U.Receiving && r.expected == Number(k) && U.Fits(p, r, payload)
    ensures var reaction := U.OnEvent(p, r, U.DataPacket(Number(k), payload));
            && (|payload| >= p.blockSize ==>
                  reaction.receiver == U.Receiver(Number(k + 1), r.received + payload, U.Receiving))
            && (|payload| < p.blockSize ==> reaction.ack == Some(Number(k)))
  {
    NumberSucc(k);
  }

  lemma DeliverOne(c: Config, st: State, base: nat, k: nat)
    requires ValidConfig(c) && WithinLimit(c) && Arriving(c, st, base, k) && k <= End(c, st.sender)
    ensures AcceptedTo(c, Step(c, st, Deliver), base, k)
  {
    BlockFits(c, k);
    Expected(c.params, st.receiver, k, c.blocks[k - 1]);
    assert st.data[0] == k && st.data[1..] == Range(k + 1, End(c, st.sender));
  }

  lemma DeliverReached(c: Config, st: State, base: nat, k: nat) returns (st': State)
    requires ValidConfig(c) && WithinLimit(c) && Reaches(c, st) && Arriving(c, st, base, k) && k <= End(c, st.sender)
    ensures Reaches(c, st') && AcceptedTo(c, st', base, k)
  {
    DeliverOne(c, st, base, k);
    OneStep(c, st, Deliver);
    st' := Step(c, st, Deliver);
  }

  lemma DeliverRest(c: Config, st: State, base: nat, k: nat) returns (st': State)
    requires ValidConfig(c) && WithinLimit(c) && Reaches(c, st) && Arriving(c, st, base, k)
    requires k <= W.WindowEnd(|c.blocks|, c.senderWindow, base)
    ensures Reaches(c, st') && AcceptedTo(c, st', base, W.WindowEnd(|c.blocks|, c.senderWindow, base))
    decreases |c.blocks| - k
  {
    st' := DeliverReached(c, st, base, k);
    if k < W.WindowEnd(|c.blocks|, c.senderWindow, base) {
      st' := DeliverRest(c, st', base, k + 1);
    }
  }

  // ------------------------------------------------------------ passing it

  ghost predicate Passed(c: Config, st: State, end: nat) {
    if end == |c.blocks| then st.sender.status == W.Completed else Quiet(c, st, end + 1)
  }

  /** The ACK of the window's end is the only one under way. */
  lemma TakeLast(c: Config, st: State, end: nat)
    requires ValidConfig(c) && CanAct(c, st.sender) && st.waiting && end == End(c, st.sender) && st.acks == [end]
    ensures Step(c, st, TakeAck).sender
            == if end == |c.blocks| then st.sender.(status := W.Completed) else W.Sender(end + 1, 0, W.Sending)
    ensures Step(c, st, TakeAck)
            == st.(sender := Step(c, st, TakeAck).sender, waiting := false, acks := [])
  {
  }

  lemma PassEnding(c: Config, st: State, base: nat) returns (st': State)
    requires ValidConfig(c) && Reaches(c, st) && Ending(c, st, base)
    ensures Reaches(c, st') && st'.sender.status == W.Completed
  {
    var a := LoseAcks(0, |st.acks| - 1);
    var st1 := Step(c, st, a);
    OneStep(c, st, a);
    assert st1.acks == [|c.blocks|];
    TakeLast(c, st1, |c.blocks|);
    OneStep(c, st1, TakeAck);
    st' := Step(c, st1, TakeAck);
  }

  /** The whole window was accepted, whatever ACKs that gave rise to. They get lost, the
      sender times out and sends the window again, and its last block is answered as a
      duplicate. */
  lemma PassWindow(c: Config, st: State, base: nat) returns (st': State)
    requires ValidConfig(c) && Reaches(c, st) && !LoneBlock(c) && base <= |c.blocks|
    requires Arriving(c, st, base, W.WindowEnd(|c.blocks|, c.senderWindow, base) + 1)
    ensures Reaches(c, st') && Passed(c, st', W.WindowEnd(|c.blocks|, c.senderWindow, base))
  {
    st' := SendAgain(c, st, base);
    st' := LoseOthers(c, st', base);
    st' := HearAgain(c, st', base);
    st' := MoveOn(c, st', base);
  }

  /** The window at `base` was accepted and is tried a second time, with these packets
      and ACKs under way. */
  ghost predicate SecondTry(c: Config, st: State, base: nat, data: seq<nat>, acks: seq<nat>) {
    var end := W.WindowEnd(|c.blocks|, c.senderWindow, base);
    && 1 <= base <= end <= |c.blocks|
    && st.sender == W.Sender(base, 1, W.Sending) && st.waiting && st.next == end + 1
    && st.receiver == U.Receiver(Number(end + 1), Flatten(c.blocks[..end]), U.Receiving)
    && st.data == data && st.acks == acks
  }

  /** Only the last block of the window sent again arrives. */
  lemma LoseOthers(c: Config, st: State, base: nat) returns (st': State)
    requires ValidConfig(c) && Reaches(c, st) && 1 <= base <= |c.blocks|
    requires SecondTry(c, st, base, Range(base, W.WindowEnd(|c.blocks|, c.senderWindow, base)), [])
    ensures Reaches(c, st') && SecondTry(c, st', base, [W.WindowEnd(|c.blocks|, c.senderWindow, base)], [])
  {
    var end := W.WindowEnd(|c.blocks|, c.senderWindow, base);
    AllButLastLost(c, st, base, end);
    OneStep(c, st, LoseData(0, end - base));
    st' := st.(data := [end]);
  }

  lemma HearAgain(c: Config, st: State, base: nat) returns (st': State)
    requires ValidConfig(c) && Reaches(c, st)
    requires SecondTry(c, st, base, [W.WindowEnd(|c.blocks|, c.senderWindow, base)], [])
    ensures Reaches(c, st') && SecondTry(c, st', base, [], [W.WindowEnd(|c.blocks|, c.senderWindow, base)])
  {
    AnswerAgain(c, st, st.data[0]);
    OneStep(c, st, Deliver);
    st' := Step(c, st, Deliver);
  }

  lemma AllButLastLost(c: Config, st: State, base: nat, end: nat)
    requires c.params.windowSize > 0 && base <= end && st.data == Range(base, end)
    ensures Step(c, st, LoseData(0, end - base)) == st.(data := [end])
  {
    assert Cut(Range(base, end), 0, end - base) == [end];
  }

  lemma MoveOn(c: Config, st: State, base: nat) returns (st': State)
    requires ValidConfig(c) && Reaches(c, st)
    requires SecondTry(c, st, base, [], [W.WindowEnd(|c.blocks|, c.senderWindow, base)])
    ensures Reaches(c, st') && Passed(c, st', W.WindowEnd(|c.blocks|, c.senderWindow, base))
  {
    TakeLast(c, st, End(c, st.sender));
    OneStep(c, st, TakeAck);
    st' := Step(c, st, TakeAck);
  }

  lemma SendAgain(c: Config, st: State, base: nat) returns (st': State)
    requires ValidConfig(c) && Reaches(c, st) && !LoneBlock(c) && base <= |c.blocks|
    requires Arriving(c, st, base, W.WindowEnd(|c.blocks|, c.senderWindow, base) + 1)
    ensures Reaches(c, st')
    ensures SecondTry(c, st', base, Range(base, W.WindowEnd(|c.blocks|, c.senderWindow, base)), [])
  {
    OneStep(c, st, LoseAcks(0, |st.acks|));
    var st1 := st.(acks := []);
    assert Step(c, st, LoseAcks(0, |st.acks|)) == st1;
    OneStep(c, st1, Hear(W.Timeout));
    var st2 := st1.(sender := W.Sender(base, 1, W.Sending), waiting := false);
    assert Step(c, st1, Hear(W.Timeout)) == st2;
    OneStep(c, st2, Transmit);
    st' := Step(c, st2, Transmit);
  }

  lemma AnswerAgain(c: Config, st: State, end: nat)
    requires ValidConfig(c) && 1 <= end <= |c.blocks| && st.data == [end] && st.acks == []
    requires st.receiver.status == U.Receiving && st.receiver.expected == Number(end + 1) && st.next == end + 1
    ensures Step(c, st, Deliver) == st.(data := [], acks := [end])
  {
    OtherBlock(c.params, st.receiver, end + 1, end, c.blocks[end - 1]);
    assert Number(end + 1) != Number(end);
  }

  // ------------------------------------------------------------ the whole transfer

  lemma FromWindow(c: Config, st: State, base: nat) returns (st': State)
    requires ValidConfig(c) && WithinLimit(c) && Reaches(c, st) && Quiet(c, st, base)
    ensures Reaches(c, st') && st'.sender.status == W.Completed
    decreases |c.blocks| - base
  {
    SendWindow(c, st, base);
    OneStep(c, st, Transmit);
    var end := End(c, st.sender);
    st' := DeliverRest(c, Step(c, st, Transmit), base, base);
    if end == |c.blocks| && LastIsShort(c) {
      st' := PassEnding(c, st', base);
    } else {
      st' := PassWindow(c, st', base);
      if end < |c.blocks| {
        st' := FromWindow(c, st', end + 1);
      }
    }
  }

  lemma CompletingRun(c: Config) returns (actions: seq<Action>)
    requires ValidConfig(c) && WithinLimit(c)
    ensures Run(c, actions).sender.status == W.Completed
  {
    if c.blocks == [] {
      actions := [];
    } else {
      var a := LoseAcks(0, 1);
      assert Run(c, []) == Init(c);
      OneStep(c, Init(c), a);
      assert Quiet(c, Step(c, Init(c), a), 1);
      var st := FromWindow(c, Step(c, Init(c), a), 1);
      actions :| Run(c, actions) == st;
    }
  }

  lemma {:induction false} ReceivedWithinLimit(c: Config, actions: seq<Action>)
    requires ValidConfig(c)
    ensures c.params.sizeLimit > 0 ==> |Run(c, actions).receiver.received| <= c.params.sizeLimit
  {
    if actions != [] {
      ReceivedWithinLimit(c, actions[..|actions| - 1]);
    }
  }

  /** A transfer can complete, by either sender and in any length, exactly when the file
      keeps the server's size limit. */
  lemma CompletesExactly(c: Config)
    requires ValidConfig(c) && Span(c) <= 32769
    ensures (exists actions: seq<Action> :: Run(c, actions).sender.status == W.Completed) <==> WithinLimit(c)
  {
    if WithinLimit(c) {
      var actions := CompletingRun(c);
    }
    forall actions: seq<Action> | Run(c, actions).sender.status == W.Completed
      ensures WithinLimit(c)
    {
      ReceivedWithinLimit(c, actions);
      RunInv(c, actions);
      InvImpliesSafe(c, Run(c, actions));
    }
  }

  /** `put` on a length that is a multiple of the block size: some run succeeds with the
      server still waiting, and no run finishes at the server. */
  lemma PutNeverStored(data: Bytes, c: Config) returns (actions: seq<Action>)
    requires ValidConfig(c) && c.rule == StopAndWait && c.blocks == P.PutBlocks(data, c.params.blockSize)
    requires |data| % c.params.blockSize == 0 && WithinLimit(c)
    ensures var st := Run(c, actions);
            st.sender.status == W.Completed && st.receiver.received == data && st.receiver.status != U.Finished
    ensures forall others: seq<Action> :: Run(c, others).receiver.status != U.Finished
  {
    actions := CompletingRun(c);
    T.UploadEndToEnd(data, c, actions);
    forall others: seq<Action>
      ensures Run(c, others).receiver.status != U.Finished
    {
      T.UploadEndToEnd(data, c, others);
    }
  }
}

/** Main results about downloads with `get`, and the exact file size up to which they
    hold: its block numbers are compared without regard to the wrap. */
module DownloadTheorems {
  import opened Wire
  import opened Blocks
  import opened Download
  import W = WindowSender
  import C = ClientGet

  lemma RunSnoc(c: Config, actions: seq<Action>, a: Action)
    ensures Run(c, actions + [a]) == Step(c, Run(c, actions), a)
  {
    assert (actions + [a])[..|actions|] == actions;
  }

  /** Nothing was lost or reordered so far and block `k` is due. */
  ghost predicate InOrder(c: Config, st: State, k: nat) {
    && 1 <= k <= |c.blocks|
    && st.client.status == C.Active && st.client.buffer == map[] && st.next == k
    && st.client.expected == Number(k)
    && st.client.written == Joined(c.blocks, k - 1)
    && st.sender.status == W.Sending && st.sender.retries == 0 && st.waiting
    && 1 <= st.sender.base <= k <= End(c, st.sender)
    && (c.serverWindow == c.clientWindow ==> st.client.lastAck == Number(st.sender.base - 1))
    && (forall i: nat :: 1 <= i <= End(c, st.sender) ==> i in st.data)
  }

  /** Whether the client acknowledges block `k` when it arrives in order. */
  ghost predicate Due(c: Config, st: State, k: nat) {
    WrappingSub(Number(k + 1), WrappingAdd(st.client.lastAck, 1)) >= c.clientWindow
  }

  /** In-order delivery of a block that is not the last. */
  lemma DeliverInOrder(c: Config, st: State, k: nat)
    requires ValidConfig(c) && InOrder(c, st, k) && k < |c.blocks|
    ensures var st' := Step(c, st, Deliver(k));
            && st'.client == C.Client(Number(k + 1), if Due(c, st, k) then Number(k) else st.client.lastAck, map[],
                                      Joined(c.blocks, k), C.Active)
            && st'.next == k + 1 && st'.sender == st.sender && st'.waiting && st'.data == st.data
            && (Due(c, st, k) ==> Number(k) in st'.acks)
  {
    OnDataInOrder(c, st.client, k, Due(c, st, k));
  }

  /** Nothing is buffered and the expected block is not the last. */
  lemma OnDataInOrder(c: Config, client: C.Client, k: nat, due: bool)
    requires 1 <= k <= |c.blocks| && |c.blocks[k - 1]| >= c.blockSize
    requires client.buffer == map[] && client.expected == Number(k) && client.written == Joined(c.blocks, k - 1)
    requires due <==> WrappingSub(Number(k + 1), WrappingAdd(client.lastAck, 1)) >= c.clientWindow
    ensures C.OnData(c.blockSize, c.clientWindow, client, Number(k), c.blocks[k - 1])
         == (C.Client(Number(k + 1), if due then Number(k) else client.lastAck, map[], Joined(c.blocks, k),
                      client.status),
             if due then Some(Number(k)) else None)
    ensures C.DrainCount(C.Append(client, c.blocks[k - 1])) == 0
  {
    NumberSucc(k);
    WrapUndo(Number(k));
    var d := C.Append(client, c.blocks[k - 1]);
    assert d == C.Drained(map[], Number(k + 1), Joined(c.blocks, k));
    assert C.Drain(d) == d;
  }

  lemma SinceLastAck(base: nat, k: nat)
    requires 1 <= base <= k < base + 65535
    ensures WrappingSub(Number(k + 1), WrappingAdd(Number(base - 1), 1)) == k + 1 - base
  {
    NumberSucc(base - 1);
    WrapDistance(k + 1, base);
  }

  /** Any block can come to be due in order, unless the transfer stalls: with equal windows
      however long the file is, otherwise as far as block 65536. */
  lemma {:induction false} ReachInOrder(c: Config, k: nat) returns (actions: seq<Action>)
    requires ValidConfig(c) && !Stalled(c) && 1 <= k <= |c.blocks|
    requires c.serverWindow == c.clientWindow || k <= 65536
    ensures InOrder(c, Run(c, actions), k)
  {
    if k == 1 {
      actions := [] + [Transmit];
      RunSnoc(c, [], Transmit);
    } else {
      actions := ReachInOrder(c, k - 1);
      actions := OneBlockFurther(c, actions, k - 1);
    }
  }

  lemma OneBlockFurther(c: Config, before: seq<Action>, k: nat) returns (actions: seq<Action>)
    requires ValidConfig(c) && !Stalled(c) && InOrder(c, Run(c, before), k) && k < |c.blocks|
    requires c.serverWindow == c.clientWindow || k <= 65535
    ensures InOrder(c, Run(c, actions), k + 1)
  {
    actions := before;
    if k == End(c, Run(c, before).sender) {
      actions := MakeDue(c, before, k);
      actions := CrossWindow(c, actions, k);
    } else {
      var st := Run(c, before);
      if c.serverWindow == c.clientWindow {
        SinceLastAck(st.sender.base, k);
      }
      DeliverInOrder(c, st, k);
      RunSnoc(c, before, Deliver(k));
      actions := before + [Deliver(k)];
    }
  }

  /** At the window's end the client is made to acknowledge the block that is due: with
      equal windows it does so by itself, otherwise a repeated OACK sets its count back. */
  lemma MakeDue(c: Config, before: seq<Action>, k: nat) returns (actions: seq<Action>)
    requires ValidConfig(c) && !Stalled(c) && InOrder(c, Run(c, before), k) && k < |c.blocks|
    requires c.serverWindow == c.clientWindow || k <= 65535
    requires k == End(c, Run(c, before).sender)
    ensures InOrder(c, Run(c, actions), k) && Due(c, Run(c, actions), k) && k == End(c, Run(c, actions).sender)
  {
    if c.serverWindow == c.clientWindow {
      actions := before;
      SinceLastAck(Run(c, before).sender.base, k);
    } else {
      RunSnoc(c, before, Disturb(C.Oack));
      actions := before + [Disturb(C.Oack)];
      SinceLastAck(1, k);
    }
  }

  lemma CrossWindow(c: Config, before: seq<Action>, k: nat) returns (actions: seq<Action>)
    requires ValidConfig(c) && InOrder(c, Run(c, before), k) && k < |c.blocks|
    requires Due(c, Run(c, before), k) && k == End(c, Run(c, before).sender)
    ensures InOrder(c, Run(c, actions), k + 1)
  {
    DeliverInOrder(c, Run(c, before), k);
    RunSnoc(c, before, Deliver(k));
    actions := before + [Deliver(k)];
    RunSnoc(c, actions, TakeAck(Number(k)));
    RunSnoc(c, actions + [TakeAck(Number(k))], Transmit);
    NextWindow(c, Run(c, actions), k + 1);
    actions := actions + [TakeAck(Number(k))] + [Transmit];
  }

  lemma NextWindow(c: Config, st: State, k: nat)
    requires ValidConfig(c) && 1 < k <= |c.blocks|
    requires st.client == C.Client(Number(k), Number(k - 1), map[], Joined(c.blocks, k - 1), C.Active)
    requires st.next == k && st.sender.status == W.Sending && st.sender.retries == 0 && st.waiting
    requires 1 <= st.sender.base <= k - 1 == End(c, st.sender) && Number(k - 1) in st.acks
    requires forall i: nat :: 1 <= i <= k - 1 ==> i in st.data
    ensures InOrder(c, Step(c, Step(c, st, TakeAck(Number(k - 1))), Transmit), k)
  {
    var st1 := Step(c, st, TakeAck(Number(k - 1)));
    assert st1.sender == W.Sender(k, 0, W.Sending);
  }

  /** Past 65535 blocks a late copy of an old block carries the number that is due: it is
      taken for new. For any windows that get that far, the first block can follow block
      65536 in the local file. */
  lemma FirstBlockAgain(c: Config) returns (actions: seq<Action>)
    requires ValidConfig(c) && c.clientWindow <= c.serverWindow && |c.blocks| >= 65536
    ensures Run(c, actions).client.written == Flatten(c.blocks[..65536]) + c.blocks[0]
  {
    actions := ReachInOrder(c, 65536);
    var st := Run(c, actions);
    RunSnoc(c, actions, Deliver(1));
    RunSnoc(c, actions + [Deliver(1)], Deliver(65536));
    actions := actions + [Deliver(1)] + [Deliver(65536)];
    StaleBuffered(c, st);
    JoinedIsFlatten(c.blocks, 65536);
  }

  lemma StaleBuffered(c: Config, st: State)
    requires ValidConfig(c) && |c.blocks| >= 65536 && InOrder(c, st, 65536)
    ensures Step(c, Step(c, st, Deliver(1)), Deliver(65536)).client.written == Joined(c.blocks, 65536) + c.blocks[0]
  {
    var st1 := Step(c, st, Deliver(1));
    assert st1.client == st.client.(buffer := map[1 := c.blocks[0]]);
    DrainFirstBlock(c, C.Append(st1.client, c.blocks[65535]));
  }

  lemma DrainFirstBlock(c: Config, d: C.Drained)
    requires |c.blocks| >= 65536 && d == C.Drained(map[1 := c.blocks[0]], 1, Joined(c.blocks, 65536))
    ensures C.Drain(d).written == Joined(c.blocks, 65536) + c.blocks[0]
  {
    var d1 := C.DrainOne(d);
    assert d1.buffer == map[];
    assert C.Drain(d) == C.Drain(d1) == d1;
  }

  /** That is not the served file, unless it has the same block there. */
  lemma FirstBlockMisplaced(c: Config)
    requires ValidConfig(c) && |c.blocks| >= 65536
    ensures Flatten(c.blocks[..65536]) + c.blocks[0] <= Flatten(c.blocks)
            <==> |c.blocks| > 65536 && c.blocks[65536] == c.blocks[0]
  {
    var head, rest := c.blocks[..65536], c.blocks[65536..];
    assert c.blocks == head + rest;
    FlattenConcat(head, rest);
    PrefixBehind(Flatten(head), c.blocks[0], Flatten(rest));
    if rest != [] {
      assert rest[0] == c.blocks[65536];
      assert Flatten(rest) == rest[0] + Flatten(rest[1..]);
      assert |rest| == 1 ==> rest[1..] == [] && |rest[0]| < c.blockSize;
      assert |rest| > 1 ==> |rest[0]| == c.blockSize;
      assert |rest[0]| == |c.blocks[0]| ==> Flatten(rest)[..|rest[0]|] == rest[0];
    }
  }

  lemma PrefixBehind(head: Bytes, a: Bytes, b: Bytes)
    ensures head + a <= head + b <==> a <= b
  {
    if head + a <= head + b {
      assert forall i :: 0 <= i < |a| ==> a[i] == (head + a)[|head| + i] == (head + b)[|head| + i] == b[i];
    }
    if a <= b {
      assert b == a + b[|a|..];
      assert head + b == (head + a) + b[|a|..];
    }
  }

  /** With equal windows, or when block 65536 is the last, the local file can grow past the
      served one. */
  lemma StaleBlockWritten(c: Config) returns (actions: seq<Action>)
    requires ValidConfig(c) && c.clientWindow <= c.serverWindow
    requires |c.blocks| == 65536 || (|c.blocks| > 65536 && c.serverWindow == c.clientWindow)
    ensures |Run(c, actions).client.written| > |Flatten(c.blocks)|
  {
    var n := |c.blocks|;
    assert c.blocks[..n] == c.blocks;
    if n == 65536 {
      actions := FirstBlockAgain(c);
    } else {
      actions := ReachInOrder(c, n);
      JoinedIsFlatten(c.blocks, n);
      RunSnoc(c, actions, Deliver(n - 65536));
      StaleAccepted(c, Run(c, actions), n);
      actions := actions + [Deliver(n - 65536)];
    }
  }

  lemma StaleAccepted(c: Config, st: State, n: nat)
    requires ValidConfig(c) && |c.blocks| == n > 65536 && InOrder(c, st, n) && End(c, st.sender) == n
    ensures |Step(c, st, Deliver(n - 65536)).client.written| > |Joined(c.blocks, n)|
  {
    var stale := n - 65536;
    assert Number(stale) == Number(n);
    var d := C.Append(st.client, c.blocks[stale - 1]);
    assert C.Drain(d) == d;
  }

  /** Once block 65536 is due, any late copy of the first is taken for a block to come. */
  lemma StaleBlockBuffered(c: Config) returns (actions: seq<Action>)
    requires ValidConfig(c) && c.clientWindow <= c.serverWindow && |c.blocks| >= 65536
    ensures !Safe(c, Run(c, actions))
  {
    actions := ReachInOrder(c, 65536);
    RunSnoc(c, actions, Deliver(1));
    var st := Run(c, actions + [Deliver(1)]);
    actions := actions + [Deliver(1)];
    assert 1 in st.client.buffer && st.next == 65536;
  }

  /** Download end to end: over a network that loses, duplicates and reorders, all
      reachable states are safe exactly when the file has at most 65535 blocks, or the
      client's window is larger than the server's: then no ACK of the server's first
      window is ever due, and a longer file does not get past it. */
  lemma DownloadSafety(c: Config)
    requires ValidConfig(c)
    ensures (forall actions: seq<Action> :: Safe(c, Run(c, actions)))
            <==> |c.blocks| <= 65535 || c.clientWindow > c.serverWindow
  {
    if |c.blocks| <= 65535 || c.clientWindow > c.serverWindow {
      forall actions: seq<Action>
        ensures Safe(c, Run(c, actions))
      {
        RunSafe(c, actions);
      }
    } else {
      var actions := StaleBlockBuffered(c);
      assert !Safe(c, Run(c, actions));
    }
  }

  /** For a file the server has cut, and any two window sizes. */
  lemma DownloadedFile(data: Bytes, c: Config, actions: seq<Action>)
    requires ValidConfig(c) && c.blocks == Split(data, c.blockSize) && |c.blocks| <= 65535
    ensures var st := Run(c, actions);
            && st.client.written <= data
            && (st.client.status == C.Succeeded ==> st.client.written == data)
            && (st.sender.status == W.Completed ==> st.client.written == data)
  {
    SplitIsTransfer(data, c.blockSize);
    RunSafe(c, actions);
    SafePrefix(c, Run(c, actions));
  }

  lemma SafePrefix(c: Config, st: State)
    requires Safe(c, st)
    ensures st.client.written <= Flatten(c.blocks)
  {
    FlattenPrefix(c.blocks, st.next - 1);
  }
}

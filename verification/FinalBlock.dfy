/** When the final block of a download comes early: `get` ends only when that block
    arrives as the one expected, so a final block that is buffered is never noticed. */
module FinalBlock {
  import opened Wire
  import opened Arithmetic
  import opened Blocks
  import opened Download
  import opened DownloadTheorems
  import W = WindowSender
  import C = ClientGet

  /** Draining stops before the first block that is not there, and a block further on
      that is there is either written or still there. */
  lemma {:induction false} DrainReach(c: Config, d: C.Drained, next: nat, m: U16)
    requires Reach(c) <= 65535 && DrainInv(c, d, next) && next <= m
    ensures var d', next' := C.Drain(d), next + C.DrainCount(d);
            if m in d.buffer then next' > m || m in d'.buffer
            else next' <= m && m !in d'.buffer
    decreases |d.buffer|
  {
    if d.expected in d.buffer {
      BufferedIsNext(c, d, next);
      if next < m {
        DrainOneKeeps(c, d, next);
        C.DrainOneSmaller(d);
        DrainReach(c, C.DrainOne(d), next + 1, m);
      }
    }
  }

  /** The effect on one block `m` further on, or on the file as a whole, of accepting `index`. */
  lemma AcceptReach(c: Config, st: State, index: nat, m: U16)
    requires ValidConfig(c) && Reach(c) <= 65535 && Inv(c, st)
    requires 1 <= index == st.next <= Reach(c) && index < m
    ensures var st' := Deliveries(c, st, index);
            && (index < |c.blocks| ==> st'.client.status == st.client.status)
            && if m in st.client.buffer then st'.next > m || m in st'.client.buffer
               else st'.next <= m && m !in st'.client.buffer
  {
    AppendKeeps(c, st, index);
    DrainReach(c, C.Append(st.client, c.blocks[index - 1]), index + 1, m);
    DeliveriesAccepted(c, st, index);
  }

  // ------------------------------------------------------------ no way back

  /** The last block waits in the buffer, or all is written without `get` having ended. */
  ghost predicate Doomed(c: Config, st: State) {
    && st.client.status != C.Succeeded
    && (if st.next <= |c.blocks| then |c.blocks| in st.client.buffer else true)
  }

  lemma DoomedDelivery(c: Config, st: State, index: nat)
    requires ValidConfig(c) && |c.blocks| <= 65535 && Inv(c, st) && Doomed(c, st) && st.client.status == C.Active
    requires index in st.data
    ensures Doomed(c, Deliveries(c, st, index))
  {
    if Number(index) == st.client.expected {
      SameNumber(index, st.next);
      AcceptReach(c, st, index, |c.blocks|);
    }
  }

  lemma DoomedStays(c: Config, st: State, a: Action)
    requires ValidConfig(c) && |c.blocks| <= 65535 && Inv(c, st) && Doomed(c, st)
    ensures Doomed(c, Step(c, st, a))
  {
    if a.Deliver? && a.index in st.data && st.client.status == C.Active {
      DoomedDelivery(c, st, a.index);
    }
  }

  lemma {:induction false} DoomedForGood(c: Config, actions: seq<Action>, more: seq<Action>)
    requires ValidConfig(c) && |c.blocks| <= 65535 && Doomed(c, Run(c, actions))
    ensures Doomed(c, Run(c, actions + more))
    decreases |more|
  {
    if more == [] {
      assert actions + more == actions;
    } else {
      var before, a := more[..|more| - 1], more[|more| - 1];
      DoomedForGood(c, actions, before);
      assert actions + more == (actions + before) + [a];
      RunSnoc(c, actions + before, a);
      RunInv(c, actions + before);
      DoomedStays(c, Run(c, actions + before), a);
    }
  }

  /** Once the final block has been buffered, `get` never succeeds, whatever arrives;
      the file is still right if all of it gets written. */
  lemma EarlyFinalBlock(c: Config, actions: seq<Action>, more: seq<Action>)
    requires ValidConfig(c) && |c.blocks| <= 65535
    requires |c.blocks| in Run(c, actions).client.buffer && Run(c, actions).next <= |c.blocks|
    ensures var st := Run(c, actions + more);
            && st.client.status != C.Succeeded
            && (st.next == |c.blocks| + 1 ==> st.client.written == Flatten(c.blocks))
  {
    RunInv(c, actions);
    DoomedForGood(c, actions, more);
    RunSafe(c, actions + more);
    assert c.blocks[..|c.blocks|] == c.blocks;
  }

  // ------------------------------------------------------------ when it cannot happen

  /** Every window begins one behind a multiple of the window size. */
  lemma {:induction false} BaseAligned(c: Config, actions: seq<Action>)
    requires ValidConfig(c)
    ensures Run(c, actions).sender.base >= 1 && (Run(c, actions).sender.base - 1) % c.serverWindow == 0
  {
    if actions == [] {
      ModOf(0, 0, c.serverWindow);
    } else {
      var st := Run(c, actions[..|actions| - 1]);
      BaseAligned(c, actions[..|actions| - 1]);
      BaseMoves(c, st, actions[|actions| - 1]);
      ModSkip(st.sender.base - 1, c.serverWindow);
    }
  }

  lemma BaseMoves(c: Config, st: State, a: Action)
    requires ValidConfig(c)
    ensures Step(c, st, a).sender.base in {st.sender.base, st.sender.base + c.serverWindow}
  {
  }

  /** If the blocks before the last fill whole windows, the last one is a window by itself. */
  lemma LastWindow(c: Config, base: nat)
    requires ValidConfig(c) && (|c.blocks| - 1) % c.serverWindow == 0
    requires 1 <= base <= |c.blocks| && (base - 1) % c.serverWindow == 0
    ensures base < |c.blocks| ==> W.WindowEnd(|c.blocks|, c.serverWindow, base) < |c.blocks|
  {
    if base < |c.blocks| {
      MultipleApart(base - 1, |c.blocks| - 1, c.serverWindow);
    }
  }

  lemma MultipleApart(a: nat, b: nat, w: nat)
    requires w > 0 && a % w == 0 && b % w == 0 && a < b
    ensures a + w <= b
  {
    var p, q := a / w, b / w;
    assert a == p * w && b == q * w;
    if q <= p {
      MulMonotone(q, p, w);
    } else {
      MulMonotone(p + 1, q, w);
      assert (p + 1) * w == p * w + w;
    }
  }

  /** The last block is sent only when it is the one due, so it never waits. */
  ghost predicate LastComesAlone(c: Config, st: State) {
    && |c.blocks| !in st.client.buffer
    && (|c.blocks| in st.data ==> st.sender.base == |c.blocks|)
    && (st.next == |c.blocks| + 1 ==> st.client.status == C.Succeeded)
  }

  lemma AloneDelivery(c: Config, st: State, index: nat)
    requires ValidConfig(c) && |c.blocks| <= 65535 && Inv(c, st) && st.client.status == C.Active
    requires LastComesAlone(c, st) && index in st.data
    ensures LastComesAlone(c, Deliveries(c, st, index))
  {
    if Number(index) == st.client.expected {
      SameNumber(index, st.next);
      if index < |c.blocks| {
        AcceptReach(c, st, index, |c.blocks|);
      } else {
        LastAccepted(c, st);
      }
    }
  }

  lemma LastAccepted(c: Config, st: State)
    requires ValidConfig(c) && |c.blocks| <= 65535 && Inv(c, st) && st.next == |c.blocks| == Reach(c)
    requires |c.blocks| !in st.client.buffer
    ensures var st' := Deliveries(c, st, |c.blocks|);
            st'.client.status == C.Succeeded && |c.blocks| !in st'.client.buffer
  {
    AppendKeeps(c, st, |c.blocks|);
    DeliveriesAccepted(c, st, |c.blocks|);
    DrainAtEnd(c, C.Append(st.client, c.blocks[|c.blocks| - 1]));
  }

  lemma DrainAtEnd(c: Config, d: C.Drained)
    requires Reach(c) <= 65535 && DrainInv(c, d, |c.blocks| + 1)
    ensures C.Drain(d) == d
  {
    if d.expected in d.buffer {
      BufferedIsNext(c, d, |c.blocks| + 1);
    }
  }

  lemma AloneStays(c: Config, st: State, a: Action)
    requires ValidConfig(c) && |c.blocks| <= 65535 && Inv(c, st) && LastComesAlone(c, st)
    requires st.sender.base < |c.blocks| ==> End(c, st.sender) < |c.blocks|
    ensures LastComesAlone(c, Step(c, st, a))
  {
    if a.Deliver? && a.index in st.data && st.client.status == C.Active {
      AloneDelivery(c, st, a.index);
    }
  }

  lemma {:induction false} AloneAlways(c: Config, actions: seq<Action>)
    requires ValidConfig(c) && |c.blocks| <= 65535 && (|c.blocks| - 1) % c.serverWindow == 0
    ensures LastComesAlone(c, Run(c, actions))
  {
    if actions != [] {
      var before := actions[..|actions| - 1];
      AloneAlways(c, before);
      RunInv(c, before);
      BaseAligned(c, before);
      LastWindow(c, Run(c, before).sender.base);
      AloneStays(c, Run(c, before), actions[|actions| - 1]);
    }
  }

  // ------------------------------------------------------------ when it can

  /** The last two blocks change places. */
  lemma LastTwoSwapped(c: Config) returns (actions: seq<Action>)
    requires ValidConfig(c) && |c.blocks| <= 65535 && !Stalled(c) && (|c.blocks| - 1) % c.serverWindow != 0
    ensures var st := Run(c, actions);
            st.next == |c.blocks| + 1 && st.client.status == C.Active
  {
    var n := |c.blocks|;
    if n == 1 {
      ModOf(0, 0, c.serverWindow);
    }
    actions := ReachInOrder(c, n - 1);
    var st := Run(c, actions);
    BaseAligned(c, actions);
    if End(c, st.sender) == n - 1 {
      ModSkip(st.sender.base - 1, c.serverWindow);
    }
    RunInv(c, actions);
    RunSnoc(c, actions, Deliver(n));
    RunSnoc(c, actions + [Deliver(n)], Deliver(n - 1));
    SwappedDelivery(c, st);
    actions := actions + [Deliver(n)] + [Deliver(n - 1)];
  }

  lemma SwappedDelivery(c: Config, st: State)
    requires ValidConfig(c) && 2 <= |c.blocks| <= 65535 && Inv(c, st) && InOrder(c, st, |c.blocks| - 1)
    requires End(c, st.sender) == |c.blocks|
    ensures var n := |c.blocks|;
            var st' := Step(c, Step(c, st, Deliver(n)), Deliver(n - 1));
            st'.next == n + 1 && st'.client.status == C.Active
  {
    var n := |c.blocks|;
    var st1 := Step(c, st, Deliver(n));
    assert st1 == st.(client := st.client.(buffer := map[n := c.blocks[n - 1]]));
    DeliverKeeps(c, st, n);
    AcceptReach(c, st1, n - 1, n);
    DeliverKeeps(c, st1, n - 1);
    StillDue(c, Step(c, st1, Deliver(n - 1)));
  }

  /** A block in the buffer is never the one that is due. */
  lemma StillDue(c: Config, st: State)
    requires ValidConfig(c) && |c.blocks| <= 65535 && Inv(c, st)
    ensures st.next == |c.blocks| ==> |c.blocks| !in st.client.buffer
  {
  }

  /** Every run that writes the whole file ends in success exactly when the blocks before
      the last fill whole windows of the server, so that the last is sent by itself, or
      when no run gets that far. */
  lemma CompleteMeansSuccess(c: Config)
    requires ValidConfig(c) && |c.blocks| <= 65535
    ensures (forall actions: seq<Action> ::
               Run(c, actions).next == |c.blocks| + 1 ==> Run(c, actions).client.status == C.Succeeded)
            <==> (|c.blocks| - 1) % c.serverWindow == 0 || Stalled(c)
  {
    if Stalled(c) {
      forall actions: seq<Action>
        ensures Run(c, actions).next <= |c.blocks|
      {
        RunInv(c, actions);
      }
    } else if (|c.blocks| - 1) % c.serverWindow == 0 {
      forall actions: seq<Action>
        ensures LastComesAlone(c, Run(c, actions))
      {
        AloneAlways(c, actions);
      }
    } else {
      var actions := LastTwoSwapped(c);
      assert Run(c, actions).next == |c.blocks| + 1;
    }
  }
}

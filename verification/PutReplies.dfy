/** When `put` succeeds and when it fails, in terms of the replies alone. */
module PutReplies {
  import opened Wire
  import W = WindowSender
  import P = ClientPut

  function Timeouts(replies: seq<W.Reply>): nat {
    if replies == [] then 0 else (if replies[0].Timeout? then 1 else 0) + Timeouts(replies[1..])
  }

  /** None of the first `k` replies settles the block: no ACK of its number, no ERROR, no
      receive error, and with the `spent` timeouts before them fewer than five timeouts. An
      ACK of another block and an unknown packet settle nothing. */
  ghost predicate Unsettled(number: U16, spent: nat, replies: seq<W.Reply>, k: nat) {
    && k <= |replies|
    && (forall j :: 0 <= j < k ==> replies[j] != W.Ack(number) && !replies[j].ErrorPacket? && !replies[j].RecvFailed?)
    && spent + Timeouts(replies[..k]) < MAX_RETRIES
  }

  /** The reply at `k` is the ACK that the block was sent for, ... */
  ghost predicate AckedAt(number: U16, replies: seq<W.Reply>, k: nat) {
    k < |replies| && Unsettled(number, 0, replies, k) && replies[k] == W.Ack(number)
  }

  /** ... or it is an ERROR, a receive error or the fifth timeout. */
  ghost predicate FailedAt(number: U16, replies: seq<W.Reply>, k: nat) {
    && k < |replies| && Unsettled(number, 0, replies, k)
    && match replies[k]
       case ErrorPacket => true
       case RecvFailed => true
       case Timeout => Timeouts(replies[..k]) == MAX_RETRIES - 1
       case _ => false
  }

  function Copies(packet: Packet, count: nat): (packets: seq<Packet>)
    ensures |packets| == count && forall p :: p in packets ==> p == packet
  {
    if count == 0 then [] else [packet] + Copies(packet, count - 1)
  }

  function PacketOf(blocks: seq<Bytes>, base: nat): Packet
    requires 1 <= base <= |blocks|
  {
    Data(Number(base), blocks[base - 1])
  }

  function Sent(packets: seq<Packet>, rest: (seq<Packet>, W.Sender)): (seq<Packet>, W.Sender) {
    (packets + rest.0, rest.1)
  }

  lemma SentTwice(a: seq<Packet>, b: seq<Packet>, rest: (seq<Packet>, W.Sender))
    ensures Sent(a, Sent(b, rest)) == Sent(a + b, rest)
    ensures Sent([], rest) == rest
  {
    assert a + (b + rest.0) == (a + b) + rest.0;
    assert [] + rest.0 == rest.0;
  }

  lemma {:induction false} CopiesSnoc(packet: Packet, count: nat)
    ensures Copies(packet, count) + [packet] == Copies(packet, count + 1)
  {
    if count > 0 {
      CopiesSnoc(packet, count - 1);
      assert [packet] + (Copies(packet, count - 1) + [packet]) == ([packet] + Copies(packet, count - 1)) + [packet];
    }
  }

  /** One reply read: the block goes out once more. */
  lemma {:induction false} RunOne(blocks: seq<Bytes>, base: nat, retries: nat, replies: seq<W.Reply>)
    requires 1 <= base <= |blocks| && retries < MAX_RETRIES && replies != []
    ensures P.Run(blocks, W.Sender(base, retries, W.Sending), replies)
         == Sent([PacketOf(blocks, base)],
                 P.Run(blocks, P.OnReply(|blocks|, W.Sender(base, retries, W.Sending), replies[0]), replies[1..]))
  {
  }

  lemma {:induction false} UnsettledTail(number: U16, spent: nat, replies: seq<W.Reply>, k: nat)
    requires 0 < k <= |replies|
    ensures Unsettled(number, spent, replies, k)
            <==> && replies[0] != W.Ack(number) && !replies[0].ErrorPacket? && !replies[0].RecvFailed?
                 && Unsettled(number, spent + (if replies[0].Timeout? then 1 else 0), replies[1..], k - 1)
    ensures Timeouts(replies[..k]) == (if replies[0].Timeout? then 1 else 0) + Timeouts(replies[1..][..k - 1])
  {
    assert replies[..k][1..] == replies[1..][..k - 1];
    assert forall j :: 1 <= j < k ==> replies[j] == replies[1..][j - 1];
  }

  /** Until a reply settles the block, each one makes `put` send it again. */
  lemma {:induction false} SentAgain(blocks: seq<Bytes>, base: nat, spent: nat, replies: seq<W.Reply>, k: nat)
    requires 1 <= base <= |blocks| && Unsettled(Number(base), spent, replies, k)
    ensures P.Run(blocks, W.Sender(base, spent, W.Sending), replies)
         == Sent(Copies(PacketOf(blocks, base), k),
                 P.Run(blocks, W.Sender(base, spent + Timeouts(replies[..k]), W.Sending), replies[k..]))
    decreases k
  {
    if k == 0 {
      assert replies[0..] == replies;
      SentTwice([], [], P.Run(blocks, W.Sender(base, spent, W.Sending), replies));
    } else {
      UnsettledTail(Number(base), spent, replies, k);
      var spent' := spent + (if replies[0].Timeout? then 1 else 0);
      RunOne(blocks, base, spent, replies);
      SentAgain(blocks, base, spent', replies[1..], k - 1);
      assert replies[1..][k - 1..] == replies[k..];
      SentTwice([PacketOf(blocks, base)], Copies(PacketOf(blocks, base), k - 1),
                P.Run(blocks, W.Sender(base, spent + Timeouts(replies[..k]), W.Sending), replies[k..]));
    }
  }

  /** The reply at `k` after `k` that settled nothing. */
  lemma {:induction false} SettledBy(blocks: seq<Bytes>, base: nat, replies: seq<W.Reply>, k: nat)
    requires 1 <= base <= |blocks| && k < |replies| && Unsettled(Number(base), 0, replies, k)
    ensures var s := W.Sender(base, Timeouts(replies[..k]), W.Sending);
            P.Run(blocks, W.Sender(base, 0, W.Sending), replies)
            == Sent(Copies(PacketOf(blocks, base), k + 1),
                    P.Run(blocks, P.OnReply(|blocks|, s, replies[k]), replies[k + 1..]))
  {
    var s := W.Sender(base, Timeouts(replies[..k]), W.Sending);
    SentAgain(blocks, base, 0, replies, k);
    RunOne(blocks, base, s.retries, replies[k..]);
    assert replies[k..][0] == replies[k] && replies[k..][1..] == replies[k + 1..];
    SentTwice(Copies(PacketOf(blocks, base), k), [PacketOf(blocks, base)],
              P.Run(blocks, P.OnReply(|blocks|, s, replies[k]), replies[k + 1..]));
    CopiesSnoc(PacketOf(blocks, base), k);
  }

  /** The block's own ACK: it was sent once more than replies came before, and `put` goes on
      with the next block and all its retries, or is done. */
  lemma {:induction false} NextBlock(blocks: seq<Bytes>, base: nat, replies: seq<W.Reply>, k: nat)
    requires 1 <= base <= |blocks| && AckedAt(Number(base), replies, k)
    ensures var (packets, s) := P.Run(blocks, W.Sender(base, 0, W.Sending), replies);
            if base == |blocks| then packets == Copies(PacketOf(blocks, base), k + 1) && s.status == W.Completed
            else (packets, s) == Sent(Copies(PacketOf(blocks, base), k + 1),
                                      P.Run(blocks, W.Sender(base + 1, 0, W.Sending), replies[k + 1..]))
  {
    SettledBy(blocks, base, replies, k);
  }

  lemma {:induction false} FailedBlock(blocks: seq<Bytes>, base: nat, replies: seq<W.Reply>, k: nat)
    requires 1 <= base <= |blocks| && FailedAt(Number(base), replies, k)
    ensures var (packets, s) := P.Run(blocks, W.Sender(base, 0, W.Sending), replies);
            packets == Copies(PacketOf(blocks, base), k + 1) && s.status == W.Failed
  {
    SettledBy(blocks, base, replies, k);
  }

  lemma {:induction false} StillWaiting(blocks: seq<Bytes>, base: nat, replies: seq<W.Reply>)
    requires 1 <= base <= |blocks| && Unsettled(Number(base), 0, replies, |replies|)
    ensures P.Run(blocks, W.Sender(base, 0, W.Sending), replies).1.status == W.Sending
  {
    SentAgain(blocks, base, 0, replies, |replies|);
    assert replies[|replies|..] == [];
  }

  lemma {:induction false} UnsettledNext(number: U16, replies: seq<W.Reply>, k: nat)
    requires k < |replies| && Unsettled(number, 0, replies, k)
    ensures AckedAt(number, replies, k) || FailedAt(number, replies, k) || Unsettled(number, 0, replies, k + 1)
  {
    TimeoutsSnoc(replies[..k], replies[k]);
    assert replies[..k + 1] == replies[..k] + [replies[k]];
  }

  lemma {:induction false} TimeoutsSnoc(replies: seq<W.Reply>, reply: W.Reply)
    ensures Timeouts(replies + [reply]) == Timeouts(replies) + (if reply.Timeout? then 1 else 0)
  {
    if replies == [] {
      assert Timeouts([reply]) == (if reply.Timeout? then 1 else 0) + Timeouts([reply][1..]);
    } else {
      assert (replies + [reply])[1..] == replies[1..] + [reply];
      TimeoutsSnoc(replies[1..], reply);
    }
  }

  /** Some reply settles a block, or none has yet. */
  lemma Settles(number: U16, replies: seq<W.Reply>) returns (k: nat)
    ensures AckedAt(number, replies, k) || FailedAt(number, replies, k)
            || (k == |replies| && Unsettled(number, 0, replies, k))
  {
    k := 0;
    while k < |replies| && !AckedAt(number, replies, k) && !FailedAt(number, replies, k)
      invariant k <= |replies| && Unsettled(number, 0, replies, k)
    {
      UnsettledNext(number, replies, k);
      k := k + 1;
    }
  }

  /** Every block from `base` on got its ACK, each before its retries were used up. */
  ghost predicate AllAcked(total: nat, base: nat, replies: seq<W.Reply>)
    decreases |replies|
  {
    exists k :: 0 <= k < |replies| && AckedAt(Number(base), replies, k)
                && (base >= total || AllAcked(total, base + 1, replies[k + 1..]))
  }

  /** Some block from `base` on failed, and all before it got their ACKs. */
  ghost predicate OneFailed(total: nat, base: nat, replies: seq<W.Reply>)
    decreases |replies|
  {
    exists k :: 0 <= k < |replies|
                && (FailedAt(Number(base), replies, k)
                    || (AckedAt(Number(base), replies, k) && base < total
                        && OneFailed(total, base + 1, replies[k + 1..])))
  }

  lemma {:induction false} OutcomeExactly(blocks: seq<Bytes>, base: nat, replies: seq<W.Reply>)
    requires 1 <= base <= |blocks|
    ensures var status := P.Run(blocks, W.Sender(base, 0, W.Sending), replies).1.status;
            && (status == W.Completed <==> AllAcked(|blocks|, base, replies))
            && (status == W.Failed <==> OneFailed(|blocks|, base, replies))
    decreases |replies|
  {
    var k := Settles(Number(base), replies);
    if FailedAt(Number(base), replies, k) {
      FailedBlock(blocks, base, replies, k);
    } else if AckedAt(Number(base), replies, k) {
      NextBlock(blocks, base, replies, k);
      if base < |blocks| {
        OutcomeExactly(blocks, base + 1, replies[k + 1..]);
      }
    } else {
      StillWaiting(blocks, base, replies);
    }
    forall i: nat | AckedAt(Number(base), replies, i) || FailedAt(Number(base), replies, i)
      ensures i == k
    {
      SettledOnce(Number(base), replies, i, k);
    }
  }

  lemma {:induction false} SettledOnce(number: U16, replies: seq<W.Reply>, i: nat, k: nat)
    requires AckedAt(number, replies, i) || FailedAt(number, replies, i)
    requires AckedAt(number, replies, k) || FailedAt(number, replies, k)
             || (k == |replies| && Unsettled(number, 0, replies, k))
    ensures i == k
  {
    if i < k {
      BeforeUnsettled(number, replies, i, k);
    } else if k < i {
      BeforeUnsettled(number, replies, k, i);
    }
  }

  /** A reply that is passed over does not settle the block. */
  lemma {:induction false} BeforeUnsettled(number: U16, replies: seq<W.Reply>, i: nat, k: nat)
    requires i < k && Unsettled(number, 0, replies, k)
    ensures !AckedAt(number, replies, i) && !FailedAt(number, replies, i)
  {
    assert replies[..i + 1] == replies[..i] + [replies[i]];
    TimeoutsSnoc(replies[..i], replies[i]);
    TimeoutsGrow(replies[..k], i + 1);
    assert replies[..k][..i + 1] == replies[..i + 1];
  }

  lemma {:induction false} TimeoutsGrow(replies: seq<W.Reply>, i: nat)
    requires i <= |replies|
    ensures Timeouts(replies[..i]) <= Timeouts(replies)
    decreases |replies|
  {
    if i > 0 {
      TimeoutsGrow(replies[1..], i - 1);
      assert replies[..i][1..] == replies[1..][..i - 1];
    }
  }

  /** `put` after the handshake, on any replies: it succeeds exactly when every block gets
      its own ACK before an ERROR, a receive error or the fifth timeout, whatever stale ACKs
      and unknown packets come between, and fails exactly when one of these comes first. */
  lemma {:induction false} PutExactly(blocks: seq<Bytes>, replies: seq<W.Reply>)
    ensures var status := P.Run(blocks, P.Start(|blocks|), replies).1.status;
            && (status == W.Completed <==> blocks == [] || AllAcked(|blocks|, 1, replies))
            && (status == W.Failed <==> blocks != [] && OneFailed(|blocks|, 1, replies))
  {
    if blocks != [] {
      OutcomeExactly(blocks, 1, replies);
    }
  }
}

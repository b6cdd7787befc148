/** The data path of a multicast transfer (RFC 2090): one pass over the file, then
    selective retransmission of the blocks some member missed. */
module MulticastTransfer {
  import opened Wire
  import opened Arithmetic
  import opened Blocks
  import P = ClientPut
  import M = Multicast

  /** The pass cuts the file as the client's upload does: no empty last block.
      `sessionAt(i)` is the session when the wait for the ACKs of block i ends. */
  method SendPass(data: Bytes, blockSize: nat, sessionAt: nat -> M.Session)
    returns (sent: seq<Packet>, queue: set<U16>)
    requires blockSize > 0
    ensures sent == Numbered(P.PutBlocks(data, blockSize), 1)
    ensures queue == QueuedUpTo(|sent|, sessionAt)
  {
    sent, queue := SendPassLoop(data, blockSize, sessionAt, P.PutBlocks(data, blockSize));
  }

  method SendPassLoop(data: Bytes, blockSize: nat, sessionAt: nat -> M.Session, ghost blocks: seq<Bytes>)
    returns (sent: seq<Packet>, queue: set<U16>)
    requires blockSize > 0 && blocks == P.PutBlocks(data, blockSize)
    ensures sent == Numbered(blocks, 1)
    ensures queue == QueuedUpTo(|sent|, sessionAt)
  {
    var blockNum: U16, offset: nat := 1, 0;
    sent, queue := [], {};
    assert data[0..] == data && blocks[0..] == blocks;
    var final := false;
    while offset < |data| && !final
      invariant offset <= |data| && blockNum == Number(|sent| + 1)
      invariant Carries(sent, blocks, 1)
      invariant if final then |sent| == |blocks| else Left(data[offset..], blockSize, blocks, |sent|)
      invariant queue == QueuedUpTo(|sent|, sessionAt)
      decreases |data| - offset, if final then 0 else 1
    {
      var packet;
      packet, offset := CutPacket(data, blockSize, offset, blockNum, blocks, |sent|);
      CarriesSnoc(sent, packet, blocks, 1);
      NumberSucc(|sent| + 1);
      sent := sent + [packet];
      if !M.AllAcked(sessionAt(|sent|), blockNum) {
        queue := queue + {blockNum};
      }
      final := |packet.payload| < blockSize;
      blockNum := WrappingAdd(blockNum, 1);
    }
    if !final {
      assert data[offset..] == [];
      assert |blocks[|sent|..]| == 0;
    }
    CarriesNumbered(sent, blocks, 1);
    assert blocks[0..|blocks|] == blocks;
  }

  /** `rest` is what the file has left from block `i` (from 0) on. */
  ghost predicate Left(rest: Bytes, blockSize: nat, blocks: seq<Bytes>, i: nat) {
    blockSize > 0 && i <= |blocks| && P.PutBlocks(rest, blockSize) == blocks[i..]
  }

  /** The packet of the block at `offset`, and the offset behind it. */
  method CutPacket(data: Bytes, blockSize: nat, offset: nat, blockNum: U16, ghost blocks: seq<Bytes>, ghost k: nat)
    returns (packet: Packet, offset': nat)
    requires offset < |data| && blockNum == Number(k + 1) && Left(data[offset..], blockSize, blocks, k)
    ensures k < |blocks| && packet == Data(Number(k + 1), blocks[k])
    ensures offset < offset' <= |data| && Left(data[offset'..], blockSize, blocks, k + 1)
    ensures |packet.payload| < blockSize ==> k + 1 == |blocks|
  {
    var bytesToSend := Min(blockSize, |data| - offset);
    var blockData := data[offset..offset + bytesToSend];
    CutChunk(data, offset, blockData);
    P.TakeBlock(blocks, blockSize, k, data[offset..], blockData, data[offset + bytesToSend..]);
    packet, offset' := Data(blockNum, blockData), offset + bytesToSend;
  }

  /** The numbers of the first `n` blocks that some member failed to acknowledge in time. */
  function QueuedUpTo(n: nat, sessionAt: nat -> M.Session): set<U16> {
    if n == 0 then {}
    else QueuedUpTo(n - 1, sessionAt) + (if M.AllAcked(sessionAt(n), Number(n)) then {} else {Number(n)})
  }

  lemma {:induction false} QueuedMeaning(n: nat, sessionAt: nat -> M.Session, number: U16)
    ensures number in QueuedUpTo(n, sessionAt)
            <==> exists i :: 1 <= i <= n && !M.AllAcked(sessionAt(i), Number(i)) && Number(i) == number
  {
    if n > 0 {
      QueuedMeaning(n - 1, sessionAt, number);
      if exists i :: 1 <= i <= n && !M.AllAcked(sessionAt(i), Number(i)) && Number(i) == number {
        var i :| 1 <= i <= n && !M.AllAcked(sessionAt(i), Number(i)) && Number(i) == number;
        assert i == n || 1 <= i <= n - 1;
      }
    }
  }

  // ------------------------------------------------------------ whose ACK it was

  /** The numbers under which these blocks are acknowledged. */
  function NumbersOf(indices: set<nat>): set<U16> {
    set i | i in indices :: Number(i)
  }

  /** `received` are the blocks, among the first `n`, that each member has acknowledged. */
  ghost predicate Records(s: M.Session, received: map<M.Addr, set<nat>>, n: nat) {
    && received.Keys == s.clients.Keys
    && forall a :: a in received ==>
         s.clients[a].acked == NumbersOf(received[a]) && forall i :: i in received[a] ==> 1 <= i <= n
  }

  ghost predicate HeldByAll(received: map<M.Addr, set<nat>>, i: nat) {
    received != map[] && forall a :: a in received ==> i in received[a]
  }

  /** In a transfer of `n` blocks, one that counts as acknowledged by all is held by all,
      in whatever state the session has come to. */
  ghost predicate AcksAreTruthful(n: nat) {
    forall s: M.Session, received: map<M.Addr, set<nat>>, i: nat ::
      M.Reachable(s) && Records(s, received, n) && 1 <= i <= n && M.AllAcked(s, Number(i)) ==> HeldByAll(received, i)
  }

  /** The session keeps 16-bit numbers: these tell blocks apart up to 65536 of them, and
      past that the ACK of an old block also counts for the new one of the same number. */
  lemma AckedIsHeld(n: nat)
    ensures AcksAreTruthful(n) <==> n <= 65536
  {
    if n <= 65536 {
      forall s: M.Session, received: map<M.Addr, set<nat>>, i: nat
        | Records(s, received, n) && 1 <= i <= n && M.AllAcked(s, Number(i))
        ensures HeldByAll(received, i)
      {
        NumberedWithin(s, received, n, i);
      }
    } else {
      var s := OneAckReached();
      var received: map<M.Addr, set<nat>> := map[0 := {1}];
      assert NumbersOf({1}) == {1};
      assert 0 in s.clients && 0 in received;
      assert Records(s, received, n) && M.AllAcked(s, Number(65537)) && !HeldByAll(received, 65537);
    }
  }

  /** One client joins and acknowledges block 1. */
  lemma OneAckReached() returns (s: M.Session)
    ensures M.Reachable(s) && s.clients == map[0 := M.ClientState(0, {1}, 0, true)]
  {
    M.ReachNew(1);
    var joined := M.Join(M.New(1), 0, 0).0;
    M.ReachNext(M.New(1), joined);
    s := M.RecordAck(joined, 0, 1, 0);
    assert M.Acks(joined, s);
    M.ReachNext(joined, s);
  }

  lemma NumberedWithin(s: M.Session, received: map<M.Addr, set<nat>>, n: nat, i: nat)
    requires n <= 65536 && Records(s, received, n) && 1 <= i <= n && M.AllAcked(s, Number(i))
    ensures HeldByAll(received, i)
  {
    forall a | a in received
      ensures i in received[a]
    {
      assert Number(i) in NumbersOf(received[a]);
      var j :| j in received[a] && Number(j) == Number(i);
      SameNumber(i, j);
    }
    assert |received.Keys| == |s.clients.Keys|;
  }

  /** So in a pass over at most 65536 blocks whatever some member lacks is queued. */
  lemma LackedIsQueued(n: nat, sessionAt: nat -> M.Session, receivedAt: nat -> map<M.Addr, set<nat>>, i: nat)
    requires 1 <= i <= n <= 65536 && Records(sessionAt(i), receivedAt(i), n) && !HeldByAll(receivedAt(i), i)
    ensures Number(i) in QueuedUpTo(n, sessionAt)
  {
    if M.AllAcked(sessionAt(i), Number(i)) {
      NumberedWithin(sessionAt(i), receivedAt(i), n, i);
    }
    QueuedMeaning(n, sessionAt, Number(i));
  }

  // ------------------------------------------------------------ resending

  /** Panicked: the source computes `block_num - 1` in 16 bits, which stops a build with
      overflow checks at number 0 and wraps to 65535 in one without. */
  datatype Resending = Resent(packet: Packet) | Skipped | Panicked

  function Resend(data: Bytes, blockSize: nat, number: U16, overflowChecks: bool): Resending {
    if number == 0 && overflowChecks then Panicked
    else
      var offset: nat := WrappingSub(number, 1) * blockSize;
      if offset >= |data| then Skipped
      else Resent(Data(number, data[offset..offset + Min(blockSize, |data| - offset)]))
  }

  /** Block i (counted from 0 here) is the slice at offset i * blockSize. */
  lemma {:induction false} BlockAtOffset(data: Bytes, blockSize: nat, blocks: seq<Bytes>, i: nat, offset: nat)
    requires blockSize > 0 && blocks == P.PutBlocks(data, blockSize) && offset == i * blockSize
    ensures i < |blocks| <==> offset < |data|
    ensures i < |blocks| ==> blocks[i] == data[offset..offset + Min(blockSize, |data| - offset)]
    decreases i
  {
    if data == [] {
    } else if i == 0 {
      assert blocks[0] == data[..Min(blockSize, |data|)];
    } else {
      OneBlockOn(i, blockSize);
      if |data| >= blockSize {
        var rest := data[blockSize..];
        BlockAtOffset(rest, blockSize, blocks[1..], i - 1, offset - blockSize);
        if i < |blocks| {
          var n := Min(blockSize, |data| - offset);
          ShiftedSlice(data, blockSize, offset - blockSize, n);
        }
      } else {
        assert |blocks| == 1;
      }
    }
  }

  lemma OneBlockOn(i: nat, blockSize: nat)
    requires i >= 1
    ensures i * blockSize - blockSize == (i - 1) * blockSize && i * blockSize >= blockSize
  {
    MulMonotone(1, i, blockSize);
  }

  lemma ShiftedSlice(data: Bytes, shift: nat, offset: nat, n: nat)
    requires shift + offset + n <= |data|
    ensures data[shift..][offset..offset + n] == data[offset + shift..offset + shift + n]
  {
    var inner, outer := data[shift..][offset..offset + n], data[offset + shift..offset + shift + n];
    forall k | 0 <= k < n
      ensures inner[k] == outer[k]
    {
      assert inner[k] == data[shift..][offset + k];
    }
  }

  /** The same in terms of blocks: the number is looked up in the first turn. */
  function ResentBlock(blocks: seq<Bytes>, number: U16, overflowChecks: bool): Resending {
    var k := WrappingSub(number, 1);
    if number == 0 && overflowChecks then Panicked
    else if k < |blocks| then Resent(Data(number, blocks[k])) else Skipped
  }

  /** The slice at an offset is the block of that number, and an offset beyond the file
      is a number beyond the blocks. */
  lemma ResendIsBlock(data: Bytes, blockSize: nat, number: U16, overflowChecks: bool)
    requires blockSize > 0
    ensures Resend(data, blockSize, number, overflowChecks)
         == ResentBlock(P.PutBlocks(data, blockSize), number, overflowChecks)
  {
    var k := WrappingSub(number, 1);
    BlockAtOffset(data, blockSize, P.PutBlocks(data, blockSize), k, k * blockSize);
  }

  /** What is resent under the number of block i: that block in the first turn of the
      block number, and afterwards the block of the first turn with the same number. */
  lemma ResendMeaning(data: Bytes, blockSize: nat, blocks: seq<Bytes>, i: nat, overflowChecks: bool)
    requires blockSize > 0 && blocks == P.PutBlocks(data, blockSize) && 1 <= i <= |blocks|
    ensures Resend(data, blockSize, Number(i), overflowChecks)
            == if Number(i) == 0 && overflowChecks then Panicked
               else Resent(Data(Number(i), blocks[(i - 1) % 65536]))
  {
    assert WrappingSub(Number(i), 1) == (i - 1) % 65536;
    ResendIsBlock(data, blockSize, Number(i), overflowChecks);
  }

  /** Retransmission of block i repeats the packet first sent for it. */
  ghost predicate Faithful(data: Bytes, blockSize: nat, blocks: seq<Bytes>, i: nat, overflowChecks: bool)
    requires 1 <= i <= |blocks|
  {
    Resend(data, blockSize, Number(i), overflowChecks) == Resent(Data(Number(i), blocks[i - 1]))
  }

  lemma FaithfulExactly(data: Bytes, blockSize: nat, blocks: seq<Bytes>, i: nat, overflowChecks: bool)
    requires blockSize > 0 && blocks == P.PutBlocks(data, blockSize) && 1 <= i <= |blocks|
    ensures Faithful(data, blockSize, blocks, i, overflowChecks)
            <==> blocks[i - 1] == blocks[(i - 1) % 65536] && !(Number(i) == 0 && overflowChecks)
  {
    ResendMeaning(data, blockSize, blocks, i, overflowChecks);
  }

  /** In a build with overflow checks retransmission is faithful for every block just
      when the file has at most 65535 blocks, ... */
  lemma FidelityChecked(data: Bytes, blockSize: nat, blocks: seq<Bytes>)
    requires blockSize > 0 && blocks == P.PutBlocks(data, blockSize)
    ensures (forall i :: 1 <= i <= |blocks| ==> Faithful(data, blockSize, blocks, i, true)) <==> |blocks| <= 65535
  {
    if |blocks| <= 65535 {
      forall i | 1 <= i <= |blocks|
        ensures Faithful(data, blockSize, blocks, i, true)
      {
        FaithfulExactly(data, blockSize, blocks, i, true);
      }
    } else {
      FaithfulExactly(data, blockSize, blocks, 65536, true);
      assert !Faithful(data, blockSize, blocks, 65536, true);
    }
  }

  /** ... and in one without just when every later block repeats the one 65536 before
      it, so for every file of at most 65536 blocks. */
  lemma FidelityUnchecked(data: Bytes, blockSize: nat, blocks: seq<Bytes>)
    requires blockSize > 0 && blocks == P.PutBlocks(data, blockSize)
    ensures (forall i :: 1 <= i <= |blocks| ==> Faithful(data, blockSize, blocks, i, false))
            <==> forall i :: 0 <= i < |blocks| ==> blocks[i] == blocks[i % 65536]
  {
    forall i | 1 <= i <= |blocks|
      ensures Faithful(data, blockSize, blocks, i, false) <==> blocks[i - 1] == blocks[(i - 1) % 65536]
    {
      FaithfulExactly(data, blockSize, blocks, i, false);
    }
    if forall i :: 1 <= i <= |blocks| ==> Faithful(data, blockSize, blocks, i, false) {
      forall i | 0 <= i < |blocks|
        ensures blocks[i] == blocks[i % 65536]
      {
        assert Faithful(data, blockSize, blocks, i + 1, false);
      }
    }
  }

  /** The packets of one round up to a panic, and whether one happened. */
  datatype RoundLog = RoundLog(resent: seq<Packet>, panicked: bool)

  function After(packets: seq<Packet>, log: RoundLog): RoundLog {
    log.(resent := packets + log.resent)
  }

  function Round(data: Bytes, blockSize: nat, queue: seq<U16>, overflowChecks: bool): RoundLog {
    if queue == [] then RoundLog([], false)
    else
      match Resend(data, blockSize, queue[0], overflowChecks)
      case Panicked => RoundLog([], true)
      case Skipped => Round(data, blockSize, queue[1..], overflowChecks)
      case Resent(packet) => After([packet], Round(data, blockSize, queue[1..], overflowChecks))
  }

  lemma AfterTwice(a: seq<Packet>, b: seq<Packet>, log: RoundLog)
    ensures After(a, After(b, log)) == After(a + b, log)
    ensures After([], log) == log
  {
    assert a + (b + log.resent) == (a + b) + log.resent;
    assert [] + log.resent == log.resent;
  }

  /** One round of handle_retransmissions over the taken queue, in any order. */
  method ResendRound(data: Bytes, blockSize: nat, queue: seq<U16>, overflowChecks: bool)
    returns (resent: seq<Packet>, panicked: bool)
    requires blockSize > 0
    ensures RoundLog(resent, panicked) == Round(data, blockSize, queue, overflowChecks)
  {
    resent, panicked := [], false;
    var i := 0;
    ghost var whole := Round(data, blockSize, queue, overflowChecks);
    assert queue[0..] == queue;
    AfterTwice([], [], whole);
    while i < |queue|
      invariant 0 <= i <= |queue|
      invariant whole == After(resent, Round(data, blockSize, queue[i..], overflowChecks))
    {
      RoundStep(data, blockSize, queue, overflowChecks, i);
      var resending := ResendOne(data, blockSize, queue[i], overflowChecks);
      ResendIsBlock(data, blockSize, queue[i], overflowChecks);
      i := i + 1;
      if resending == Panicked {
        return resent, true;
      }
      if resending == Skipped {
        continue;
      }
      AfterTwice(resent, [resending.packet], Round(data, blockSize, queue[i..], overflowChecks));
      resent := resent + [resending.packet];
    }
  }

  lemma RoundStep(data: Bytes, blockSize: nat, queue: seq<U16>, overflowChecks: bool, i: nat)
    requires i < |queue|
    ensures var later := Round(data, blockSize, queue[i + 1..], overflowChecks);
            Round(data, blockSize, queue[i..], overflowChecks)
            == match Resend(data, blockSize, queue[i], overflowChecks)
               case Panicked => RoundLog([], true)
               case Skipped => later
               case Resent(packet) => After([packet], later)
  {
    assert queue[i..][0] == queue[i] && queue[i..][1..] == queue[i + 1..];
  }

  /** It cuts the block out of the file again, by its offset. */
  method ResendOne(data: Bytes, blockSize: nat, blockNum: U16, overflowChecks: bool) returns (r: Resending)
    requires blockSize > 0
    ensures r == ResentBlock(P.PutBlocks(data, blockSize), blockNum, overflowChecks)
  {
    if blockNum == 0 && overflowChecks {
      return Panicked;
    }
    var blockIndex := WrappingSub(blockNum, 1);
    var offset := blockIndex * blockSize;
    BlockAtOffset(data, blockSize, P.PutBlocks(data, blockSize), blockIndex, offset);
    if offset >= |data| {
      return Skipped;
    }
    var bytesToSend := Min(blockSize, |data| - offset);
    r := Resent(Data(blockNum, data[offset..offset + bytesToSend]));
  }

  /** For each entry of the queue, the packet that carried the block of that number. */
  ghost predicate Repeats(blocks: seq<Bytes>, queue: seq<U16>, resent: seq<Packet>) {
    && |resent| == |queue|
    && (forall k :: 0 <= k < |queue| ==>
          1 <= queue[k] <= |blocks| && resent[k] == Data(queue[k], blocks[queue[k] - 1]))
  }

  lemma RepeatsCons(blocks: seq<Bytes>, queue: seq<U16>, rest: seq<Packet>)
    requires queue != [] && 1 <= queue[0] <= |blocks| && Repeats(blocks, queue[1..], rest)
    ensures Repeats(blocks, queue, [Data(queue[0], blocks[queue[0] - 1])] + rest)
  {
    assert forall k :: 1 <= k < |queue| ==> queue[k] == queue[1..][k - 1];
  }

  lemma ResendInFirstTurn(data: Bytes, blockSize: nat, blocks: seq<Bytes>, n: U16, overflowChecks: bool)
    requires blockSize > 0 && blocks == P.PutBlocks(data, blockSize) && 1 <= n <= |blocks|
    ensures Resend(data, blockSize, n, overflowChecks) == Resent(Data(n, blocks[n - 1]))
  {
    ResendMeaning(data, blockSize, blocks, n, overflowChecks);
  }

  /** Up to 65535 blocks: whatever was queued during the pass, in whatever order it is
      taken, a round resends for each entry the very packet that the pass sent, and never
      stops early. */
  lemma {:induction false} RoundRepeatsPass(data: Bytes, blockSize: nat, blocks: seq<Bytes>,
                                            sessionAt: nat -> M.Session, queue: seq<U16>, overflowChecks: bool)
    requires blockSize > 0 && blocks == P.PutBlocks(data, blockSize) && |blocks| <= 65535
    requires forall n :: n in queue ==> n in QueuedUpTo(|blocks|, sessionAt)
    ensures !Round(data, blockSize, queue, overflowChecks).panicked
    ensures Repeats(blocks, queue, Round(data, blockSize, queue, overflowChecks).resent)
    decreases |queue|
  {
    if queue != [] {
      QueuedInRange(blocks, sessionAt, queue[0]);
      ResendInFirstTurn(data, blockSize, blocks, queue[0], overflowChecks);
      RoundRepeatsPass(data, blockSize, blocks, sessionAt, queue[1..], overflowChecks);
      RepeatsCons(blocks, queue, Round(data, blockSize, queue[1..], overflowChecks).resent);
    }
  }

  lemma QueuedInRange(blocks: seq<Bytes>, sessionAt: nat -> M.Session, n: U16)
    requires |blocks| <= 65535 && n in QueuedUpTo(|blocks|, sessionAt)
    ensures 1 <= n <= |blocks|
  {
    QueuedMeaning(|blocks|, sessionAt, n);
  }
}

/** The client's upload loop, `put`: one block at a time, resent until its own ACK
    arrives (RFC 1350, section 2). */
module ClientPut {
  import opened Wire
  import opened Arithmetic
  import opened Blocks
  import W = WindowSender

  /** The blocks `put` sends: those its read calls return until one returns nothing.
      A file whose length is a multiple of the block size ends with a full block. */
  function PutBlocks(data: Bytes, blockSize: nat): (blocks: seq<Bytes>)
    requires blockSize > 0
    decreases |data|
  {
    if data == [] then []
    else if |data| < blockSize then [data]
    else [data[..blockSize]] + PutBlocks(data[blockSize..], blockSize)
  }

  /** They carry the whole file, full blocks first; they end with a short block, as a
      transfer must, exactly when the length is no multiple of the block size. */
  lemma {:induction false} PutBlocksMeaning(data: Bytes, blockSize: nat)
    requires blockSize > 0
    ensures var blocks := PutBlocks(data, blockSize);
            && FullButLast(blocks, blockSize)
            && Flatten(blocks) == data
            && (IsTransfer(blocks, blockSize) <==> |data| % blockSize != 0)
    decreases |data|
  {
    if data == [] {
      ModOf(0, 0, blockSize);
    } else if |data| < blockSize {
      FlattenOne(data);
      ModOf(0, |data|, blockSize);
    } else {
      var blocks, rest := PutBlocks(data, blockSize), PutBlocks(data[blockSize..], blockSize);
      PutBlocksMeaning(data[blockSize..], blockSize);
      assert blocks[0] == data[..blockSize] && blocks[1..] == rest;
      assert data == data[..blockSize] + data[blockSize..];
      ModSkip(|data| - blockSize, blockSize);
      ConsFull(data[..blockSize], rest, blockSize);
    }
  }

  lemma ConsFull(block: Bytes, rest: seq<Bytes>, blockSize: nat)
    requires |block| == blockSize && FullButLast(rest, blockSize)
    ensures FullButLast([block] + rest, blockSize)
    ensures IsTransfer([block] + rest, blockSize) <==> IsTransfer(rest, blockSize)
  {
    var blocks := [block] + rest;
    assert forall i :: 0 <= i < |rest| ==> blocks[i + 1] == rest[i];
    assert forall i :: 0 < i < |blocks| ==> blocks[i] == rest[i - 1];
  }

  ghost predicate Live(total: nat, s: W.Sender) {
    1 <= s.base <= total && s.retries < MAX_RETRIES
  }

  /** One reply. Only a timeout costs a retry; an ACK of another block or an unknown
      packet makes the client send the block again. Running out of retries is an error. */
  function OnReply(total: nat, s: W.Sender, reply: W.Reply): (s': W.Sender)
    requires Live(total, s) && s.status == W.Sending
    ensures s'.status == W.Sending ==> Live(total, s')
  {
    match reply
    case Ack(number) =>
      if number == Number(s.base) then
        if s.base == total then s.(status := W.Completed) else W.Sender(s.base + 1, 0, W.Sending)
      else s
    case ErrorPacket => s.(status := W.Failed)
    case Garbage => s
    case RecvFailed => s.(status := W.Failed)
    case Timeout =>
      s.(retries := s.retries + 1, status := if s.retries + 1 >= MAX_RETRIES then W.Failed else W.Sending)
  }

  function Start(total: nat): W.Sender {
    W.Sender(1, 0, if total == 0 then W.Completed else W.Sending)
  }

  /** The packets sent and the state reached when the waits yield `replies`; the
      client is still waiting if these run out. */
  function Run(blocks: seq<Bytes>, s: W.Sender, replies: seq<W.Reply>): (seq<Packet>, W.Sender)
    requires s.status == W.Sending ==> Live(|blocks|, s)
    decreases |replies|
  {
    if s.status != W.Sending then ([], s)
    else
      var packet := Data(Number(s.base), blocks[s.base - 1]);
      if replies == [] then ([packet], s)
      else
        var (sent, s') := Run(blocks, OnReply(|blocks|, s, replies[0]), replies[1..]);
        ([packet] + sent, s')
  }

  /** `put` after the handshake. */
  method Put(file: W.FileReader, blockSize: nat, replies: seq<W.Reply>)
    returns (sent: seq<Packet>, outcome: W.Status)
    requires file.Valid() && file.position == 0 && blockSize > 0
    modifies file
    ensures var blocks := PutBlocks(file.content, blockSize);
            var (packets, s) := Run(blocks, Start(|blocks|), replies);
            sent == packets && outcome == s.status
  {
    ghost var blocks := PutBlocks(file.content, blockSize);
    ghost var whole := Run(blocks, Start(|blocks|), replies);
    var blockNum: U16, t := 1, 0;
    ghost var base := 1;
    sent := [];
    while true
      invariant file.Valid() && 1 <= base <= |blocks| + 1 && blockNum == Number(base) && 0 <= t <= |replies|
      invariant PutBlocks(file.Rest(), blockSize) == blocks[base - 1..]
      invariant var s := W.Sender(base, 0, if base > |blocks| then W.Completed else W.Sending);
                var (later, s') := Run(blocks, s, replies[t..]);
                whole.0 == sent + later && whole.1.status == s'.status
      decreases |blocks| + 1 - base
    {
      ghost var before := file.Rest();
      var data := file.Read(blockSize);
      if data == [] {
        assert before == [];
        return sent, W.Completed;
      }
      TakeBlock(blocks, blockSize, base - 1, before, data, file.Rest());
      var acked;
      ghost var sentBefore := sent;
      acked, sent, t, outcome := SendUntilAcked(blockNum, data, sent, replies, t, blocks, base, whole);
      if !acked {
        return sent, outcome;
      }
      if |data| < blockSize {
        return sent, W.Completed;
      }
      NumberSucc(base);
      blockNum := WrappingAdd(blockNum, 1);
      base := base + 1;
    }
  }

  lemma TakeBlock(blocks: seq<Bytes>, blockSize: nat, i: nat, rest: Bytes, chunk: Bytes, rest': Bytes)
    requires blockSize > 0 && i <= |blocks| && PutBlocks(rest, blockSize) == blocks[i..]
    requires rest == chunk + rest' && |chunk| == Min(blockSize, |rest|) && chunk != []
    ensures i < |blocks| && chunk == blocks[i]
    ensures PutBlocks(rest', blockSize) == blocks[i + 1..]
    ensures |chunk| < blockSize ==> i + 1 == |blocks|
  {
    assert blocks[i..][0] == blocks[i];
    if |rest| >= blockSize {
      assert rest[..blockSize] == chunk && rest[blockSize..] == rest';
      assert blocks[i..][1..] == blocks[i + 1..];
    } else {
      assert rest == chunk && rest' == [];
      assert |blocks[i..]| == 1;
    }
  }

  /** The inner loop: send the block, wait, and send it again until its ACK arrives. */
  method SendUntilAcked(blockNum: U16, data: Bytes, sent: seq<Packet>, replies: seq<W.Reply>, t: nat,
                        ghost blocks: seq<Bytes>, ghost base: nat, ghost whole: (seq<Packet>, W.Sender))
    returns (acked: bool, sent': seq<Packet>, t': nat, outcome: W.Status)
    requires 1 <= base <= |blocks| && blockNum == Number(base) && data == blocks[base - 1] && t <= |replies|
    requires var (later, s') := Run(blocks, W.Sender(base, 0, W.Sending), replies[t..]);
             whole.0 == sent + later && whole.1.status == s'.status
    ensures t' <= |replies|
    ensures acked ==>
              var s := W.Sender(base + 1, 0, if base == |blocks| then W.Completed else W.Sending);
              var (later, s') := Run(blocks, s, replies[t'..]);
              whole.0 == sent' + later && whole.1.status == s'.status
    ensures !acked ==> whole.0 == sent' && whole.1.status == outcome
  {
    sent', t', acked, outcome := sent, t, false, W.Sending;
    var retries := 0;
    while true
      invariant t' <= |replies| && 0 <= retries < MAX_RETRIES
      invariant var (later, s') := Run(blocks, W.Sender(base, retries, W.Sending), replies[t'..]);
                whole.0 == sent' + later && whole.1.status == s'.status
      decreases |replies| - t'
    {
      ghost var s := W.Sender(base, retries, W.Sending);
      ghost var later := Run(blocks, s, replies[t'..]).0;
      ghost var before := sent';
      sent' := sent' + [Data(blockNum, data)];
      if t' == |replies| {
        return false, sent', t', W.Sending;
      }
      var reply := replies[t'];
      assert replies[t'..][0] == reply && replies[t'..][1..] == replies[t' + 1..];
      assert before + later == sent' + Run(blocks, OnReply(|blocks|, s, reply), replies[t' + 1..]).0;
      t' := t' + 1;
      match reply {
        case Ack(number) =>
          if number == blockNum {
            return true, sent', t', W.Sending;
          }
        case ErrorPacket =>
          return false, sent', t', W.Failed;
        case RecvFailed =>
          return false, sent', t', W.Failed;
        case Timeout =>
          retries := retries + 1;
          if retries >= MAX_RETRIES {
            return false, sent', t', W.Failed;
          }
        case Garbage =>
      }
    }
  }
}

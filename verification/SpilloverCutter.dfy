/** The streaming NETASCII sender of main.rs: each read is encoded into a spillover
    buffer from which blocks are cut, because encoding may double a read. */
module SpilloverCutter {
  import opened Wire
  import opened Blocks
  import opened KeepingEncoder
  import W = WindowSender
  import B = SenderBounds

  /** Successive non-empty reads of at most one block each; the end of file follows. */
  ghost predicate ValidReads(chunks: seq<Bytes>, blockSize: nat) {
    forall i :: 0 <= i < |chunks| ==> 1 <= |chunks[i]| <= blockSize
  }

  class Cutter {
    const blockSize: nat
    const windowSize: nat
    ghost const blocks: seq<Bytes>
    var unread: seq<Bytes>
    var spillover: Bytes
    var blockNum: U16
    var eofReached: bool
    ghost var cut: nat

    /** What is still to be cut into blocks. */
    ghost function Pending(): Bytes
      reads this
    {
      spillover + EncodePieces(unread)
    }

    /** Between iterations the spillover is below two blocks. */
    ghost predicate Valid()
      reads this
    {
      && blockSize > 0 && windowSize > 0
      && ValidReads(unread, blockSize)
      && cut <= |blocks| && blockNum == Number(cut + 1)
      && (cut < |blocks| ==> Split(Pending(), blockSize) == blocks[cut..])
      && (cut == |blocks| ==> eofReached)
      && |spillover| < 2 * blockSize
      && (eofReached ==> unread == [] && spillover == [])
    }

    constructor (chunks: seq<Bytes>, blockSize: nat, windowSize: nat)
      requires blockSize > 0 && windowSize > 0 && ValidReads(chunks, blockSize)
      ensures Valid() && !eofReached && cut == 0
      ensures blocks == Split(EncodePieces(chunks), blockSize)
      ensures this.blockSize == blockSize && this.windowSize == windowSize
    {
      this.blockSize, this.windowSize := blockSize, windowSize;
      this.blocks := Split(EncodePieces(chunks), blockSize);
      unread, spillover, blockNum, eofReached, cut := chunks, [], 1, false, 0;
      new;
      assert Pending() == EncodePieces(chunks);
      assert blocks[0..] == blocks;
    }

    /** Splits one full block off the front of the spillover. */
    method CutFull() returns (packet: Packet)
      requires Valid'(3) && !eofReached && |spillover| >= blockSize && cut < |blocks|
      modifies this`spillover, this`blockNum, this`cut
      ensures Valid() && cut == old(cut) + 1
      ensures packet == Data(Number(cut), blocks[cut - 1])
      ensures |packet.payload| == blockSize && |spillover| == |old(spillover)| - blockSize
    {
      ghost var before := Pending();
      var blockData := spillover[..blockSize];
      spillover := spillover[blockSize..];
      assert before == blockData + Pending();
      TakeChunk(blocks, blockSize, cut, before, blockData, Pending());
      packet := Data(blockNum, blockData);
      NumberSucc(cut + 1);
      blockNum := WrappingAdd(blockNum, 1);
      cut := cut + 1;
    }

    /** `Valid` with the spillover below `limit` blocks: it holds with three just after
        a read has been encoded. */
    ghost predicate Valid'(limit: nat)
      reads this
    {
      && blockSize > 0 && windowSize > 0
      && ValidReads(unread, blockSize)
      && cut < |blocks| && blockNum == Number(cut + 1)
      && Split(Pending(), blockSize) == blocks[cut..]
      && |spillover| < limit * blockSize
    }

    /** Reads once. The spillover is below one block whenever this is called. */
    method ReadMore() returns (more: bool)
      requires Valid'(1) && !eofReached
      modifies this`unread, this`spillover, this`eofReached
      ensures Valid'(3) && more == !eofReached
      ensures more ==> |unread| == |old(unread)| - 1
      ensures !more ==> unread == [] && spillover == old(spillover)
    {
      if unread == [] {
        eofReached := true;
        return false;
      }
      var bytesRead := unread[0];
      ghost var before := Pending();
      var encoded := ConvertToNetascii(bytesRead);
      spillover := spillover + encoded;
      unread := unread[1..];
      assert Pending() == before;
      more := true;
    }

    /** Cuts a full block and adds it to the window that began with block `start` + 1. */
    method EmitFull(packets: seq<Packet>, ghost start: nat) returns (packets': seq<Packet>)
      requires Valid'(3) && !eofReached && |spillover| >= blockSize
      requires cut == start + |packets| && packets == Numbered(blocks[start..cut], start + 1) && NoneEmpty(packets)
      modifies this`spillover, this`blockNum, this`cut
      ensures Valid() && cut == old(cut) + 1 && |packets'| == |packets| + 1
      ensures packets' == Numbered(blocks[start..cut], start + 1) && NoneEmpty(packets')
    {
      var packet := CutFull();
      NumberedSnoc(blocks, start + 1, |packets|);
      packets' := packets + [packet];
    }

    /** At the end of file what is left is cut up as far as the window has room. */
    method DrainAtEof(room: nat) returns (packets: seq<Packet>)
      requires blockSize > 0 && room > 0 && cut < |blocks| && blockNum == Number(cut + 1)
      requires Split(spillover, blockSize) == blocks[cut..]
      modifies this`spillover, this`blockNum, this`cut
      ensures |packets| <= room && cut == old(cut) + |packets| <= |blocks| && blockNum == Number(cut + 1)
      ensures packets == Numbered(blocks[old(cut)..cut], old(cut) + 1) && NoneEmpty(packets)
      ensures spillover == [] && cut < |blocks| ==> cut + 1 == |blocks| && blocks[cut] == []
      ensures spillover == [] || |packets| == room
      ensures |old(spillover)| < blockSize ==> spillover == []
    {
      packets := [];
      ghost var start := cut;
      while spillover != [] && |packets| < room
        invariant |packets| <= room && cut == start + |packets| <= |blocks| && blockNum == Number(cut + 1)
        invariant packets == Numbered(blocks[start..cut], start + 1) && NoneEmpty(packets)
        invariant cut < |blocks| ==> Split(spillover, blockSize) == blocks[cut..]
        invariant cut == |blocks| ==> spillover == []
        invariant |old(spillover)| < blockSize ==> spillover == [] || packets == []
        invariant packets == [] ==> spillover == old(spillover)
        decreases |spillover|
      {
        var packet := CutAtEof();
        NumberedSnoc(blocks, start + 1, |packets|);
        packets := packets + [packet];
        if |packet.payload| < blockSize {
          break;
        }
      }
      if spillover == [] && cut < |blocks| {
        EmptyRest(blocks, cut, blockSize);
      }
    }

    /** Splits off the next block once there is nothing more to read. */
    method CutAtEof() returns (packet: Packet)
      requires blockSize > 0 && spillover != [] && cut < |blocks| && blockNum == Number(cut + 1)
      requires Split(spillover, blockSize) == blocks[cut..]
      modifies this`spillover, this`blockNum, this`cut
      ensures cut == old(cut) + 1 && blockNum == Number(cut + 1)
      ensures packet == Data(Number(cut), blocks[cut - 1])
      ensures |spillover| < |old(spillover)| && (|old(spillover)| <= blockSize ==> spillover == [])
      ensures packet.payload != []
      ensures cut < |blocks| ==> Split(spillover, blockSize) == blocks[cut..]
      ensures cut == |blocks| ==> spillover == []
      ensures |packet.payload| < blockSize ==> spillover == [] && cut == |blocks|
    {
      ghost var before := spillover;
      var blockData;
      if |spillover| > blockSize {
        blockData, spillover := spillover[..blockSize], spillover[blockSize..];
      } else {
        blockData, spillover := spillover, [];
      }
      assert before == blockData + spillover;
      TakeChunk(blocks, blockSize, cut, before, blockData, spillover);
      NumberSucc(cut + 1);
      packet := Data(blockNum, blockData);
      blockNum := WrappingAdd(blockNum, 1);
      cut := cut + 1;
    }

    /** The loop that fills one window. */
    method BuildWindow() returns (packets: seq<Packet>)
      requires Valid() && !eofReached
      modifies this
      ensures Valid() && |packets| <= windowSize && cut == old(cut) + |packets|
      ensures packets == Numbered(blocks[old(cut)..cut], old(cut) + 1) && NoneEmpty(packets)
      ensures !eofReached ==> |packets| == windowSize
      ensures eofReached && cut < |blocks| ==> cut + 1 == |blocks| && blocks[cut] == []
    {
      packets := [];
      ghost var start := cut;
      while |packets| < windowSize && !eofReached
        invariant Valid() && !eofReached && |packets| <= windowSize && cut == start + |packets|
        invariant packets == Numbered(blocks[start..cut], start + 1) && NoneEmpty(packets)
        decreases windowSize - |packets|, |unread|
      {
        if |spillover| >= blockSize {
          packets := EmitFull(packets, start);
          continue;
        }
        var more := ReadMore();
        if !more {
          packets := Finish(packets, start);
          return;
        }
        if |spillover| >= blockSize {
          packets := EmitFull(packets, start);
        }
      }
    }

    /** The end-of-file branch of that loop: less than one block is left, so that the
        window takes all of it. */
    method Finish(packets: seq<Packet>, ghost start: nat) returns (packets': seq<Packet>)
      requires Valid'(1) && eofReached && unread == []
      requires cut == start + |packets| && packets == Numbered(blocks[start..cut], start + 1) && NoneEmpty(packets)
      requires |packets| < windowSize
      modifies this`spillover, this`blockNum, this`cut
      ensures Valid() && |packets'| <= windowSize && cut == start + |packets'|
      ensures packets' == Numbered(blocks[start..cut], start + 1) && NoneEmpty(packets')
      ensures cut < |blocks| ==> cut + 1 == |blocks| && blocks[cut] == []
    {
      ghost var before := cut;
      assert Pending() == spillover;
      var last := DrainAtEof(windowSize - |packets|);
      NumberedJoin(blocks, start, before, cut);
      packets' := packets + last;
      if cut < |blocks| {
        assert Pending() == [] && Split([], blockSize) == [[]];
        EmptyRest(blocks, cut, blockSize);
      }
    }
  }

  /** When nothing is left but a block is still due, it is the empty last one. */
  lemma EmptyRest(blocks: seq<Bytes>, cut: nat, blockSize: nat)
    requires blockSize > 0 && cut < |blocks| && Split([], blockSize) == blocks[cut..]
    ensures cut + 1 == |blocks| && blocks[cut] == []
  {
    assert Split([], blockSize) == [[]];
    assert blocks[cut..][0] == blocks[cut];
  }

  lemma NumberedJoin(blocks: seq<Bytes>, a: nat, b: nat, c: nat)
    requires a <= b <= c <= |blocks|
    ensures Numbered(blocks[a..c], a + 1) == Numbered(blocks[a..b], a + 1) + Numbered(blocks[b..c], b + 1)
  {
  }

  // ---------------------------------------------------------------- the transfer

  /** What is sent in windows: all blocks, or all but an empty last one. */
  function InWindows(blocks: seq<Bytes>): seq<Bytes>
    requires blocks != []
  {
    if blocks[|blocks| - 1] == [] then blocks[..|blocks| - 1] else blocks
  }

  /** The one wait after the empty last block: a duplicate ACK passes, an error does not. */
  function AfterLast(number: U16, reply: W.Reply): W.Status {
    if W.JudgeAck(number, reply) == W.Rejected then W.Failed else W.Completed
  }

  /** A whole transfer of this sender: the windowed transfer, and an empty last block
      behind it, sent once. Every round on the wire takes one of the replies. */
  function Transfer(blocks: seq<Bytes>, windowSize: nat, replies: nat -> W.Reply): W.Log
    requires windowSize > 0 && blocks != []
  {
    if blocks == [[]] then W.Log([[Data(1, [])]], W.AwaitAck(1, W.Start, replies, 0))
    else Closed(blocks, W.Drive(InWindows(blocks), windowSize, W.Start, replies, 0), replies)
  }

  function Closed(blocks: seq<Bytes>, log: W.Log, replies: nat -> W.Reply): W.Log
    requires blocks != []
  {
    if InWindows(blocks) == blocks || log.outcome != W.Completed then log
    else
      var number := Number(|blocks|);
      W.Log(log.rounds + [[Data(number, [])]], AfterLast(number, replies(|log.rounds|)))
  }

  /** What it puts on the wire: the windows of the blocks in order, each one to five times,
      and if all of them were acknowledged the empty last block, once. Together that is the
      whole partition, under its numbers. */
  lemma TransferMeaning(blocks: seq<Bytes>, blockSize: nat, windowSize: nat, replies: nat -> W.Reply)
    returns (windowed: W.Log, counts: seq<nat>)
    requires blockSize > 0 && windowSize > 0 && IsTransfer(blocks, blockSize) && blocks != [[]]
    ensures Transfer(blocks, windowSize, replies) == Closed(blocks, windowed, replies)
    ensures B.IsTranscript(windowed, B.Windows(InWindows(blocks), windowSize, 1), counts)
    ensures B.Answered(InWindows(blocks), windowSize, 1, counts, windowed.outcome, replies, 0)
    ensures Flatten(B.Windows(InWindows(blocks), windowSize, 1))
            + (if InWindows(blocks) == blocks then [] else [Data(Number(|blocks|), [])])
            == Numbered(blocks, 1)
  {
    windowed := W.Drive(InWindows(blocks), windowSize, W.Start, replies, 0);
    counts := B.WholeTranscript(InWindows(blocks), windowSize, replies);
    WholePartition(blocks, windowSize);
  }

  lemma WholePartition(blocks: seq<Bytes>, windowSize: nat)
    requires windowSize > 0 && blocks != []
    ensures Flatten(B.Windows(InWindows(blocks), windowSize, 1))
            + (if InWindows(blocks) == blocks then [] else [Data(Number(|blocks|), [])])
            == Numbered(blocks, 1)
  {
    B.WindowsPartition(InWindows(blocks), windowSize, 1);
    assert InWindows(blocks)[0..] == InWindows(blocks);
  }

  /** Where the t-th window ends, counted from 0, when each is acknowledged at once. */
  function EndAt(total: nat, windowSize: nat, t: nat): nat {
    Min(if t == 0 then windowSize else EndAt(total, windowSize, t - 1) + windowSize, total)
  }

  ghost predicate PromptAt(total: nat, windowSize: nat, replies: nat -> W.Reply, t: nat) {
    replies(t) == W.Ack(Number(EndAt(total, windowSize, t)))
  }

  ghost predicate Prompt(total: nat, windowSize: nat, replies: nat -> W.Reply) {
    forall t: nat :: PromptAt(total, windowSize, replies, t)
  }

  lemma PromptReplies(total: nat, windowSize: nat) returns (replies: nat -> W.Reply)
    ensures Prompt(total, windowSize, replies)
  {
    replies := (t: nat) => W.Ack(Number(EndAt(total, windowSize, t)));
  }

  /** The window at `base` is the t-th. */
  predicate IsWindow(total: nat, windowSize: nat, base: nat, t: nat) {
    1 <= base <= total && base == if t == 0 then 1 else EndAt(total, windowSize, t - 1) + 1
  }

  lemma WindowAt(total: nat, windowSize: nat, replies: nat -> W.Reply, base: nat, t: nat)
    requires windowSize > 0 && IsWindow(total, windowSize, base, t) && Prompt(total, windowSize, replies)
    ensures var end := W.WindowEnd(total, windowSize, base);
            && replies(t) == W.Ack(Number(end))
            && (end < total ==> IsWindow(total, windowSize, end + 1, t + 1))
            && (end == total ==> replies(t + 1) == W.Ack(Number(total)))
  {
    assert PromptAt(total, windowSize, replies, t) && PromptAt(total, windowSize, replies, t + 1);
    assert EndAt(total, windowSize, t) == W.WindowEnd(total, windowSize, base);
  }

  ghost predicate PromptLog(total: nat, replies: nat -> W.Reply, t: nat, log: W.Log) {
    log.outcome == W.Completed && replies(t + |log.rounds|) == W.Ack(Number(total))
  }

  lemma OneRoundMore(total: nat, replies: nat -> W.Reply, t: nat, round: seq<Packet>, log: W.Log)
    requires PromptLog(total, replies, t + 1, log)
    ensures PromptLog(total, replies, t, W.Prepend([round], log))
  {
    assert t + 1 + |log.rounds| == t + |[round] + log.rounds|;
  }

  lemma OneWindow(blocks: seq<Bytes>, windowSize: nat, replies: nat -> W.Reply, base: nat, t: nat)
    requires windowSize > 0 && 1 <= base <= |blocks|
    requires replies(t) == W.Ack(Number(W.WindowEnd(|blocks|, windowSize, base)))
    ensures var end := W.WindowEnd(|blocks|, windowSize, base);
            W.Resume(blocks, windowSize, base, 0, replies, t)
            == W.Prepend([W.Window(blocks, windowSize, base)],
                         if end == |blocks| then W.Log([], W.Completed)
                         else W.Resume(blocks, windowSize, end + 1, 0, replies, t + 1))
  {
    W.DriveStep(blocks, windowSize, base, 0, replies, t);
  }

  lemma PromptWindow(blocks: seq<Bytes>, windowSize: nat, replies: nat -> W.Reply, base: nat, t: nat)
    requires windowSize > 0 && Prompt(|blocks|, windowSize, replies) && IsWindow(|blocks|, windowSize, base, t)
    requires var end := W.WindowEnd(|blocks|, windowSize, base);
             end < |blocks| ==>
               PromptLog(|blocks|, replies, t + 1, W.Resume(blocks, windowSize, end + 1, 0, replies, t + 1))
    ensures PromptLog(|blocks|, replies, t, W.Resume(blocks, windowSize, base, 0, replies, t))
  {
    var end := W.WindowEnd(|blocks|, windowSize, base);
    WindowAt(|blocks|, windowSize, replies, base, t);
    OneWindow(blocks, windowSize, replies, base, t);
    var later := if end == |blocks| then W.Log([], W.Completed)
                 else W.Resume(blocks, windowSize, end + 1, 0, replies, t + 1);
    OneRoundMore(|blocks|, replies, t, W.Window(blocks, windowSize, base), later);
  }

  lemma {:induction false} PromptlyAcked(blocks: seq<Bytes>, windowSize: nat, replies: nat -> W.Reply, base: nat,
                                         t: nat)
    requires windowSize > 0 && Prompt(|blocks|, windowSize, replies) && IsWindow(|blocks|, windowSize, base, t)
    ensures PromptLog(|blocks|, replies, t, W.Resume(blocks, windowSize, base, 0, replies, t))
    decreases |blocks| - base
  {
    var end := W.WindowEnd(|blocks|, windowSize, base);
    if end < |blocks| {
      WindowAt(|blocks|, windowSize, replies, base, t);
      PromptlyAcked(blocks, windowSize, replies, end + 1, t + 1);
    }
    PromptWindow(blocks, windowSize, replies, base, t);
  }

  /** The empty last block can be lost unnoticed: it is sent once, and the ACK of the block
      before it, arriving again, is taken for success. */
  lemma LostEmptyBlock(blocks: seq<Bytes>, windowSize: nat) returns (replies: nat -> W.Reply)
    requires windowSize > 0 && |blocks| >= 2 && blocks[|blocks| - 1] == []
    ensures var rounds := W.Drive(InWindows(blocks), windowSize, W.Start, replies, 0).rounds;
            && Transfer(blocks, windowSize, replies) == W.Log(rounds + [[Data(Number(|blocks|), [])]], W.Completed)
            && replies(|rounds|) == W.Ack(Number(|blocks| - 1))
  {
    var body := InWindows(blocks);
    replies := PromptReplies(|body|, windowSize);
    PromptlyAcked(body, windowSize, replies, 1, 0);
    AckedAgain(|blocks|, replies(|W.Drive(body, windowSize, W.Start, replies, 0).rounds|));
  }

  lemma AckedAgain(n: nat, reply: W.Reply)
    requires n >= 2 && reply == W.Ack(Number(n - 1))
    ensures AfterLast(Number(n), reply) == W.Completed
  {
    BehindMeaning(n, n - 1);
  }

  /** Success exactly: of an empty file after the ACK of block 1 within five waits and before
      any ERROR; otherwise of the windows, and then of an empty last block after one wait that
      yields its own ACK or that of a block less than half a turn before it. */
  lemma SuccessExactly(blocks: seq<Bytes>, windowSize: nat, replies: nat -> W.Reply)
    requires windowSize > 0 && blocks != []
    ensures blocks == [[]] ==>
              (Transfer(blocks, windowSize, replies).outcome == W.Completed
               <==> exists k: nat :: k < MAX_RETRIES && W.AckedAt(1, replies, 0, k))
    ensures blocks != [[]] ==>
              var log := W.Drive(InWindows(blocks), windowSize, W.Start, replies, 0);
              Transfer(blocks, windowSize, replies).outcome
              == if log.outcome != W.Completed || blocks[|blocks| - 1] != [] then log.outcome
                 else if exists j: nat :: j < 32768 && AckBehind(replies(|log.rounds|), |blocks|, j) then W.Completed
                 else W.Failed
  {
    if blocks == [[]] {
      W.AwaitAckExactly(1, W.Start, replies, 0);
    } else {
      var log := W.Drive(InWindows(blocks), windowSize, W.Start, replies, 0);
      AfterLastExactly(|blocks|, replies(|log.rounds|));
    }
  }

  /** The reply is the ACK of the number `j` before that of block `index`. */
  ghost predicate AckBehind(reply: W.Reply, index: nat, j: nat) {
    reply == W.Ack((index - j) % 65536)
  }

  lemma AfterLastExactly(n: nat, reply: W.Reply)
    ensures AfterLast(Number(n), reply)
         == if exists j: nat :: j < 32768 && AckBehind(reply, n, j) then W.Completed else W.Failed
  {
    if reply.Ack? {
      var j := WrappingSub(Number(n), reply.number);
      assert (n - j) % 65536 == reply.number;
      assert AckBehind(reply, n, j);
      forall i: nat | i < 32768 && AckBehind(reply, n, i)
        ensures i == j
      {
        BehindBy(n, i);
      }
    }
  }

  lemma BehindBy(n: nat, j: nat)
    requires j < 65536
    ensures WrappingSub(Number(n), (n - j) % 65536) == j
  {
  }

  /** Success means that the last block was acknowledged, whatever the replies, exactly
      when the file does not end with an empty block. */
  lemma SuccessMeansAcked(blocks: seq<Bytes>, windowSize: nat)
    requires windowSize > 0 && blocks != [] && blocks != [[]]
    ensures (forall replies: nat -> W.Reply :: B.EndsAcked(blocks, Transfer(blocks, windowSize, replies), replies, 0))
            <==> blocks[|blocks| - 1] != []
  {
    if blocks[|blocks| - 1] != [] {
      forall replies: nat -> W.Reply
        ensures B.EndsAcked(blocks, Transfer(blocks, windowSize, replies), replies, 0)
      {
        ShortLastAcked(blocks, windowSize, replies);
      }
    } else {
      assert |blocks| == 1 ==> blocks == [[]];
      var replies := LostEmptyBlock(blocks, windowSize);
      NotAcked(blocks, windowSize, replies);
    }
  }

  lemma ShortLastAcked(blocks: seq<Bytes>, windowSize: nat, replies: nat -> W.Reply)
    requires windowSize > 0 && blocks != [] && blocks[|blocks| - 1] != []
    ensures B.EndsAcked(blocks, Transfer(blocks, windowSize, replies), replies, 0)
  {
    B.DriveEnds(blocks, windowSize, W.Start, replies, 0);
  }

  lemma NotAcked(blocks: seq<Bytes>, windowSize: nat, replies: nat -> W.Reply)
    requires windowSize > 0 && |blocks| >= 2
    requires Transfer(blocks, windowSize, replies).outcome == W.Completed
    requires var n := |Transfer(blocks, windowSize, replies).rounds|;
             n > 0 && replies(n - 1) == W.Ack(Number(|blocks| - 1))
    ensures !B.EndsAcked(blocks, Transfer(blocks, windowSize, replies), replies, 0)
  {
    assert Number(|blocks| - 1) != Number(|blocks|);
  }

  /** send_file_data_streaming of main.rs in NETASCII mode, when its waits yield `replies`.
      Whatever the sizes of the reads, what is sent is the transfer of the encoded pieces
      cut into full blocks and one short one. */
  method SendNetascii(chunks: seq<Bytes>, blockSize: nat, windowSize: nat, replies: nat -> W.Reply)
    returns (rounds: seq<seq<Packet>>, outcome: W.Status)
    requires blockSize > 0 && windowSize > 0 && ValidReads(chunks, blockSize)
    ensures W.Log(rounds, outcome) == Transfer(Split(EncodePieces(chunks), blockSize), windowSize, replies)
  {
    if chunks == [] {
      var ok := W.AwaitAckLoop(1, replies);
      return [[Data(1, [])]], if ok then W.Completed else W.Failed;
    }
    ghost var blocks := Split(EncodePieces(chunks), blockSize);
    SplitIsTransfer(EncodePieces(chunks), blockSize);
    NothingLost(chunks, blockSize);
    var cutter := new Cutter(chunks, blockSize, windowSize);
    rounds, outcome := SendLoop(cutter, replies, blocks);
  }

  lemma NothingLost(chunks: seq<Bytes>, blockSize: nat)
    requires blockSize > 0 && ValidReads(chunks, blockSize) && chunks != []
    ensures Split(EncodePieces(chunks), blockSize) != [[]]
  {
    assert |KeepAt(chunks[0], 0)| >= 1;
    assert EncodeKeeping(chunks[0]) == KeepAt(chunks[0], 0) + KeepFrom(chunks[0], 1);
    SplitIsTransfer(EncodePieces(chunks), blockSize);
    FlattenOne<Byte>([]);
  }

  /** How far the loop has come: `rounds` were sent and the blocks before `cut` passed. */
  ghost predicate Progress(blocks: seq<Bytes>, windowSize: nat, replies: nat -> W.Reply, cut: nat,
                           rounds: seq<seq<Packet>>) {
    && windowSize > 0 && blocks != [] && cut <= |InWindows(blocks)| != 0
    && W.Resume(InWindows(blocks), windowSize, 1, 0, replies, 0)
       == if cut == |InWindows(blocks)| then W.Log(rounds, W.Completed)
          else W.Prepend(rounds, W.Resume(InWindows(blocks), windowSize, cut + 1, 0, replies, |rounds|))
  }

  /** Its loop over windows, for a file that is not empty. */
  method SendLoop(cutter: Cutter, replies: nat -> W.Reply, ghost blocks: seq<Bytes>)
    returns (rounds: seq<seq<Packet>>, outcome: W.Status)
    requires cutter.Valid() && !cutter.eofReached && cutter.cut == 0 && cutter.blocks == blocks
    requires IsTransfer(blocks, cutter.blockSize) && blocks != [[]]
    modifies cutter
    ensures W.Log(rounds, outcome) == Transfer(blocks, cutter.windowSize, replies)
  {
    rounds, outcome := [], W.Sending;
    W.PrependNothing(W.Resume(InWindows(blocks), cutter.windowSize, 1, 0, replies, 0));
    while outcome == W.Sending
      invariant outcome == W.Sending ==> cutter.Valid() && !cutter.eofReached
      invariant outcome == W.Sending ==> Progress(blocks, cutter.windowSize, replies, cutter.cut, rounds)
      invariant outcome != W.Sending ==> W.Log(rounds, outcome) == Transfer(blocks, cutter.windowSize, replies)
      decreases outcome == W.Sending, |blocks| - cutter.cut
    {
      rounds, outcome := SendNext(cutter, rounds, replies, blocks);
    }
  }

  ghost predicate NoneEmpty(packets: seq<Packet>) {
    forall k :: 0 <= k < |packets| ==> packets[k].payload != []
  }

  /** One iteration: the outcome is Sending when the loop goes on. */
  method SendNext(cutter: Cutter, sent: seq<seq<Packet>>, replies: nat -> W.Reply, ghost blocks: seq<Bytes>)
    returns (rounds: seq<seq<Packet>>, outcome: W.Status)
    requires cutter.Valid() && !cutter.eofReached && cutter.blocks == blocks
    requires IsTransfer(blocks, cutter.blockSize) && blocks != [[]]
    requires Progress(blocks, cutter.windowSize, replies, cutter.cut, sent)
    modifies cutter
    ensures if outcome == W.Sending
            then cutter.Valid() && !cutter.eofReached && cutter.cut > old(cutter.cut)
                 && Progress(blocks, cutter.windowSize, replies, cutter.cut, rounds)
            else W.Log(rounds, outcome) == Transfer(blocks, cutter.windowSize, replies)
  {
    ghost var start := cutter.cut;
    var packets := cutter.BuildWindow();
    if packets == [] {
      rounds, outcome := SendEmptyLast(cutter, sent, replies, blocks);
      return;
    }
    CutIsWindow(blocks, cutter.blockSize, cutter.windowSize, packets, start, cutter.cut, cutter.eofReached);
    var acked, ended;
    acked, ended, rounds :=
      PassWindow(packets, cutter.blockSize, cutter.windowSize, sent, replies, blocks, start, cutter.cut);
    if !acked {
      return rounds, W.GaveUp;
    }
    if ended {
      return rounds, W.Completed;
    }
    if cutter.eofReached {
      rounds, outcome := SendEmptyLast(cutter, rounds, replies, blocks);
      return;
    }
    outcome := W.Sending;
  }

  /** A window that was built is the next one of the transfer. */
  lemma CutIsWindow(blocks: seq<Bytes>, blockSize: nat, windowSize: nat, packets: seq<Packet>, start: nat, cut: nat,
                    eof: bool)
    requires IsTransfer(blocks, blockSize) && start < cut <= |blocks| && cut - start == |packets| <= windowSize
    requires packets == Numbered(blocks[start..cut], start + 1) && NoneEmpty(packets)
    requires !eof ==> |packets| == windowSize
    requires eof && cut < |blocks| ==> cut + 1 == |blocks| && blocks[cut] == []
    ensures cut <= |InWindows(blocks)| && W.WindowEnd(|InWindows(blocks)|, windowSize, start + 1) == cut
    ensures packets == W.Window(InWindows(blocks), windowSize, start + 1)
    ensures |packets[|packets| - 1].payload| < blockSize <==> cut == |blocks|
    ensures cut == |blocks| ==> InWindows(blocks) == blocks
  {
    assert packets[|packets| - 1].payload == blocks[cut - 1];
    assert InWindows(blocks)[start..cut] == blocks[start..cut];
  }

  /** The retry loop around one window, and the look at its last packet. */
  method PassWindow(packets: seq<Packet>, blockSize: nat, windowSize: nat, sent: seq<seq<Packet>>,
                    replies: nat -> W.Reply,
                    ghost blocks: seq<Bytes>, ghost start: nat, ghost cut: nat)
    returns (acked: bool, ended: bool, rounds: seq<seq<Packet>>)
    requires Progress(blocks, windowSize, replies, start, sent) && start < cut <= |InWindows(blocks)| && blocks != [[]]
    requires packets == W.Window(InWindows(blocks), windowSize, start + 1) && packets != []
    requires W.WindowEnd(|InWindows(blocks)|, windowSize, start + 1) == cut
    requires |packets[|packets| - 1].payload| < blockSize <==> cut == |blocks|
    requires cut == |blocks| ==> InWindows(blocks) == blocks
    ensures !acked ==> W.Log(rounds, W.GaveUp) == Transfer(blocks, windowSize, replies)
    ensures acked ==> Progress(blocks, windowSize, replies, cut, rounds) && (ended <==> cut == |blocks|)
    ensures acked && ended ==> W.Log(rounds, W.Completed) == Transfer(blocks, windowSize, replies)
  {
    ghost var body := InWindows(blocks);
    var more, t';
    acked, more, t' := W.SendWindow(packets, replies, |sent|, body, windowSize, start + 1);
    ghost var later := W.Continue(body, windowSize, start + 1, acked, replies, t');
    W.PrependTwice(sent, more, later);
    rounds := sent + more;
    W.PrependLast(rounds, later.outcome);
    // Only the last packet of a window can be short.
    ended := |packets[|packets| - 1].payload| < blockSize;
  }

  /** All blocks so far were full: the empty last one is sent by itself, once. */
  method SendEmptyLast(cutter: Cutter, sent: seq<seq<Packet>>, replies: nat -> W.Reply, ghost blocks: seq<Bytes>)
    returns (rounds: seq<seq<Packet>>, outcome: W.Status)
    requires cutter.Valid() && cutter.blocks == blocks && blocks != [[]]
    requires cutter.cut + 1 == |blocks| && blocks[cutter.cut] == []
    requires Progress(blocks, cutter.windowSize, replies, cutter.cut, sent)
    ensures W.Log(rounds, outcome) == Transfer(blocks, cutter.windowSize, replies) && outcome != W.Sending
  {
    var last := [Data(cutter.blockNum, [])];
    rounds, outcome := sent + [last], AfterLast(cutter.blockNum, replies(|sent|));
  }
}

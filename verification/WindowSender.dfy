/** The windowed DATA sender of the server (RFC 7440): a specification as a small
    state machine driven by the replies the socket yields, and the two methods of
    the source, buffered and streaming, proved against it. */
module WindowSender {
  import opened Wire
  import opened Blocks

  /** What one wait on the socket yields: a packet of at least four bytes that is an
      ACK or an ERROR, anything else that arrives, a receive error, or a timeout. */
  datatype Reply = Ack(number: U16) | ErrorPacket | Garbage | RecvFailed | Timeout

  datatype Verdict = Matched | Duplicate | Rejected

  /** wait_for_ack_with_duplicate_handling: Ok(true), Ok(false) or Err. */
  function JudgeAck(expected: U16, reply: Reply): Verdict {
    match reply
    case Ack(number) =>
      if number == expected then Matched
      else if IsBehind(expected, number) then Duplicate
      else Rejected
    case _ => Rejected
  }

  /** GaveUp is the source's "max retries exceeded", which it reports as Ok(()). */
  datatype Status = Sending | Completed | GaveUp | Failed

  /** `base` is the unbounded index of the first block of the current window. */
  datatype Sender = Sender(base: nat, retries: nat, status: Status)

  const Start := Sender(1, 0, Sending)

  function WindowEnd(total: nat, windowSize: nat, base: nat): int {
    Min(base + windowSize - 1, total)
  }

  function Window(blocks: seq<Bytes>, windowSize: nat, base: nat): (packets: seq<Packet>)
    requires windowSize > 0 && 1 <= base <= |blocks|
  {
    Numbered(blocks[base - 1..WindowEnd(|blocks|, windowSize, base)], base)
  }

  ghost predicate Live(total: nat, s: Sender) {
    1 <= s.base <= total && s.retries <= MAX_RETRIES && (s.status == Sending ==> s.retries < MAX_RETRIES)
  }

  /** One reply: the window is finished by an ACK of its last block and by nothing
      else; every other reply costs one of the retries. */
  function OnReply(total: nat, windowSize: nat, s: Sender, reply: Reply): (s': Sender)
    requires windowSize > 0 && Live(total, s) && s.status == Sending
    ensures Live(total, s')
  {
    var end := WindowEnd(total, windowSize, s.base);
    match JudgeAck(Number(end), reply)
    case Matched =>
      if end == total then s.(status := Completed) else Sender(end + 1, 0, Sending)
    case _ =>
      s.(retries := s.retries + 1, status := if s.retries + 1 >= MAX_RETRIES then GaveUp else Sending)
  }

  /** What a whole transfer put on the wire, one entry per transmission of a window. */
  datatype Log = Log(rounds: seq<seq<Packet>>, outcome: Status)

  function Prepend(rounds: seq<seq<Packet>>, log: Log): Log {
    log.(rounds := rounds + log.rounds)
  }

  /** The transfer from state `s` when the t-th wait and the later ones yield `replies`. */
  function Drive(blocks: seq<Bytes>, windowSize: nat, s: Sender, replies: nat -> Reply, t: nat): Log
    requires windowSize > 0 && Live(|blocks|, s)
    decreases |blocks| - s.base, MAX_RETRIES - s.retries, if s.status == Sending then 1 else 0
  {
    if s.status != Sending then Log([], s.status)
    else
      Prepend([Window(blocks, windowSize, s.base)],
              Drive(blocks, windowSize, OnReply(|blocks|, windowSize, s, replies(t)), replies, t + 1))
  }

  /** One reply while a single block waits for its ACK (wait_for_ack, used for the block of
      an empty file): the block is not sent again, an ERROR fails at once, and so does a fifth wait in vain. */
  function OnLoneReply(expected: U16, s: Sender, reply: Reply): (s': Sender)
    requires s.status == Sending && s.retries < MAX_RETRIES
    ensures s'.base == s.base && s'.status != GaveUp
    ensures s'.status == Sending ==> s'.retries == s.retries + 1 < MAX_RETRIES
  {
    match reply
    case Ack(number) => if number == expected then s.(status := Completed) else OneTryLess(s)
    case ErrorPacket => s.(status := Failed)
    case _ => OneTryLess(s)
  }

  function OneTryLess(s: Sender): Sender {
    s.(retries := s.retries + 1, status := if s.retries + 1 >= MAX_RETRIES then Failed else s.status)
  }

  /** How the waits for that ACK end. */
  function AwaitAck(expected: U16, s: Sender, replies: nat -> Reply, t: nat): Status
    requires s.status == Sending ==> s.retries < MAX_RETRIES
    decreases MAX_RETRIES - s.retries, if s.status == Sending then 1 else 0
  {
    if s.status != Sending then s.status else AwaitAck(expected, OnLoneReply(expected, s, replies(t)), replies, t + 1)
  }

  /** It succeeds exactly when one of the five replies is the ACK and no ERROR came before. */
  lemma {:induction false} AwaitAckExactly(expected: U16, s: Sender, replies: nat -> Reply, t: nat)
    requires s.status == Sending && s.retries < MAX_RETRIES
    ensures AwaitAck(expected, s, replies, t) == Completed
            <==> exists k: nat :: t <= k < t + MAX_RETRIES - s.retries && AckedAt(expected, replies, t, k)
    decreases MAX_RETRIES - s.retries
  {
    var s' := OnLoneReply(expected, s, replies(t));
    assert AwaitAck(expected, s, replies, t) == AwaitAck(expected, s', replies, t + 1);
    if s'.status == Completed {
      assert AckedAt(expected, replies, t, t);
      return;
    }
    if s'.status == Sending {
      AwaitAckExactly(expected, s', replies, t + 1);
    }
    if k: nat :| t <= k < t + MAX_RETRIES - s.retries && AckedAt(expected, replies, t, k) {
      assert k > t && s'.status == Sending;
      assert AckedAt(expected, replies, t + 1, k);
    }
    if AwaitAck(expected, s, replies, t) == Completed {
      var k: nat :| t + 1 <= k < t + 1 + MAX_RETRIES - s'.retries && AckedAt(expected, replies, t + 1, k);
      assert replies(t) != ErrorPacket;
      assert AckedAt(expected, replies, t, k);
    }
  }

  /** Waiting from the t-th reply on, the k-th is the ACK and none before it an ERROR. */
  ghost predicate AckedAt(expected: U16, replies: nat -> Reply, t: nat, k: nat) {
    replies(k) == Ack(expected) && forall j: nat :: t <= j < k ==> replies(j) != ErrorPacket
  }

  lemma PrependTwice(a: seq<seq<Packet>>, b: seq<seq<Packet>>, log: Log)
    ensures Prepend(a, Prepend(b, log)) == Prepend(a + b, log)
  {
    assert a + (b + log.rounds) == (a + b) + log.rounds;
  }

  /** A whole transfer. An empty file is one empty block, sent once. */
  function Transfer(data: Bytes, blockSize: nat, windowSize: nat, replies: nat -> Reply): Log
    requires blockSize > 0 && windowSize > 0
  {
    if data == [] then
      Log([[Data(1, [])]], AwaitAck(1, Start, replies, 0))
    else
      Drive(Split(data, blockSize), windowSize, Start, replies, 0)
  }

  // ---------------------------------------------------------------- the methods

  method AwaitAckLoop(expected: U16, replies: nat -> Reply) returns (ok: bool)
    ensures AwaitAck(expected, Start, replies, 0) == if ok then Completed else Failed
  {
    var retry := 0;
    while retry < MAX_RETRIES
      invariant 0 <= retry <= MAX_RETRIES
      invariant AwaitAck(expected, Start, replies, 0)
             == AwaitAck(expected, Sender(1, retry, if retry == MAX_RETRIES then Failed else Sending), replies, retry)
    {
      match replies(retry) {
        case Ack(number) =>
          if number == expected {
            return true;
          }
        case ErrorPacket =>
          return false;
        case _ =>
      }
      retry := retry + 1;
    }
    ok := false;
  }

  /** What follows once the window at `base` has been tried `retries` times in vain. */
  ghost function Resume(blocks: seq<Bytes>, windowSize: nat, base: nat, retries: nat, replies: nat -> Reply,
                        t: nat): Log
    requires windowSize > 0 && 1 <= base <= |blocks| && retries <= MAX_RETRIES
  {
    if retries >= MAX_RETRIES then Log([], GaveUp)
    else Drive(blocks, windowSize, Sender(base, retries, Sending), replies, t)
  }

  /** What follows once the window at `base` has been acknowledged or given up. */
  ghost function Continue(blocks: seq<Bytes>, windowSize: nat, base: nat, acked: bool, replies: nat -> Reply,
                          t: nat): Log
    requires windowSize > 0 && 1 <= base <= |blocks|
  {
    var end := WindowEnd(|blocks|, windowSize, base);
    if !acked then Log([], GaveUp)
    else if end == |blocks| then Log([], Completed)
    else Drive(blocks, windowSize, Sender(end + 1, 0, Sending), replies, t)
  }

  lemma DriveStep(blocks: seq<Bytes>, windowSize: nat, base: nat, retries: nat, replies: nat -> Reply, t: nat)
    requires windowSize > 0 && 1 <= base <= |blocks| && retries < MAX_RETRIES
    ensures Resume(blocks, windowSize, base, retries, replies, t)
            == Prepend([Window(blocks, windowSize, base)],
                       if JudgeAck(Number(WindowEnd(|blocks|, windowSize, base)), replies(t)) == Matched
                       then Continue(blocks, windowSize, base, true, replies, t + 1)
                       else Resume(blocks, windowSize, base, retries + 1, replies, t + 1))
  {
    var s := Sender(base, retries, Sending);
    var s' := OnReply(|blocks|, windowSize, s, replies(t));
    assert Drive(blocks, windowSize, s, replies, t)
        == Prepend([Window(blocks, windowSize, base)], Drive(blocks, windowSize, s', replies, t + 1));
    if s'.status != Sending {
      assert Drive(blocks, windowSize, s', replies, t + 1) == Log([], s'.status);
    }
  }

  /** The retry loop around one window. */
  method SendWindow(packets: seq<Packet>, replies: nat -> Reply, t: nat,
                    ghost blocks: seq<Bytes>, ghost windowSize: nat, ghost base: nat)
    returns (acked: bool, rounds: seq<seq<Packet>>, t': nat)
    requires windowSize > 0 && 1 <= base <= |blocks| && packets == Window(blocks, windowSize, base)
    ensures Resume(blocks, windowSize, base, 0, replies, t)
            == Prepend(rounds, Continue(blocks, windowSize, base, acked, replies, t'))
    ensures t' == t + |rounds|
  {
    var retries := 0;
    var lastBlock := packets[|packets| - 1].number;
    assert lastBlock == Number(WindowEnd(|blocks|, windowSize, base));
    rounds, t' := [], t;
    while true
      invariant 0 <= retries <= MAX_RETRIES && t' == t + |rounds|
      invariant Resume(blocks, windowSize, base, 0, replies, t)
             == Prepend(rounds, Resume(blocks, windowSize, base, retries, replies, t'))
      decreases MAX_RETRIES - retries
    {
      if retries >= MAX_RETRIES {
        return false, rounds, t';
      }
      DriveStep(blocks, windowSize, base, retries, replies, t');
      var verdict := JudgeAck(lastBlock, replies(t'));
      PrependTwice(rounds, [packets],
                   if verdict == Matched then Continue(blocks, windowSize, base, true, replies, t' + 1)
                   else Resume(blocks, windowSize, base, retries + 1, replies, t' + 1));
      rounds := rounds + [packets];
      t' := t' + 1;
      if verdict == Matched {
        return true, rounds, t';
      }
      retries := retries + 1;
    }
  }

  /** The packet of the block at `offset`, and the offset behind it. */
  method CutPacket(data: Bytes, blockSize: nat, offset: nat, blockNum: U16, ghost blocks: seq<Bytes>, ghost i: nat)
    returns (packet: Packet, offset': nat)
    requires offset <= |data| && blockNum == Number(i + 1) && Remaining(data[offset..], blockSize, blocks, i)
    ensures packet == Data(Number(i + 1), blocks[i]) && offset' == offset + |packet.payload| <= |data|
    ensures |packet.payload| <= blockSize
    ensures |packet.payload| < blockSize <==> i + 1 == |blocks|
    ensures |packet.payload| == blockSize ==> Remaining(data[offset'..], blockSize, blocks, i + 1)
  {
    var bytesToSend := Min(blockSize, |data| - offset);
    var payload := if offset < |data| then data[offset..offset + bytesToSend] else [];
    CutChunk(data, offset, payload);
    TakeChunk(blocks, blockSize, i, data[offset..], payload, data[offset + bytesToSend..]);
    packet, offset' := Data(blockNum, payload), offset + bytesToSend;
  }

  /** The loop of send_file_data_buffered that cuts one window out of the file. */
  method CutWindow(data: Bytes, blockSize: nat, windowSize: nat, offset: nat, blockNum: U16,
                   ghost blocks: seq<Bytes>, ghost base: nat)
    returns (packets: seq<Packet>, eof: bool)
    requires windowSize > 0 && offset <= |data| && base >= 1 && blockNum == Number(base)
    requires Remaining(data[offset..], blockSize, blocks, base - 1)
    ensures packets == Window(blocks, windowSize, base)
    ensures eof == (WindowEnd(|blocks|, windowSize, base) == |blocks|)
  {
    var tempOffset: nat, tempNum: U16 := offset, blockNum;
    packets, eof := [], false;
    while |packets| < windowSize && tempOffset <= |data| && !eof
      invariant |packets| <= windowSize && tempOffset <= |data|
      invariant Carries(packets, blocks, base)
      invariant tempNum == Number(base + |packets|)
      invariant eof == (base - 1 + |packets| == |blocks|)
      invariant !eof ==> Remaining(data[tempOffset..], blockSize, blocks, base - 1 + |packets|)
      decreases windowSize - |packets|
    {
      NumberSucc(base + |packets|);
      var packet;
      packet, tempOffset := CutPacket(data, blockSize, tempOffset, tempNum, blocks, base - 1 + |packets|);
      CarriesSnoc(packets, packet, blocks, base);
      packets := packets + [packet];
      tempNum := WrappingAdd(tempNum, 1);
      if |packet.payload| < blockSize {
        eof := true;
        break;
      }
    }
    CarriesNumbered(packets, blocks, base);
  }

  /** The loop that moves past an acknowledged window. */
  method Advance(data: Bytes, blockSize: nat, packets: seq<Packet>, offset: nat, blockNum: U16,
                 ghost blocks: seq<Bytes>, ghost base: nat)
    returns (offset': nat, blockNum': U16, complete: bool)
    requires offset <= |data| && base >= 1 && blockNum == Number(base) && packets != []
    requires Remaining(data[offset..], blockSize, blocks, base - 1)
    requires base - 1 + |packets| <= |blocks|
    requires packets == Numbered(blocks[base - 1..base - 1 + |packets|], base)
    ensures complete == (base - 1 + |packets| == |blocks|)
    ensures !complete ==> offset' <= |data| && blockNum' == Number(base + |packets|)
    ensures !complete ==> Remaining(data[offset'..], blockSize, blocks, base - 1 + |packets|)
  {
    assert Carries(packets, blocks, base);
    offset', blockNum', complete := offset, blockNum, false;
    var j := 0;
    while j < |packets|
      invariant 0 <= j <= |packets| && offset' <= |data|
      invariant blockNum' == Number(base + j)
      invariant Remaining(data[offset'..], blockSize, blocks, base - 1 + j)
    {
      NumberSucc(base + j);
      offset' := Behind(data, blockSize, offset', blocks, base - 1 + j, packets[j].payload);
      blockNum' := WrappingAdd(packets[j].number, 1);
      if |packets[j].payload| < blockSize {
        return offset', blockNum', true;
      }
      j := j + 1;
    }
  }

  /** The offset behind block `i`, which is `payload`. */
  method Behind(data: Bytes, blockSize: nat, offset: nat, ghost blocks: seq<Bytes>, ghost i: nat, payload: Bytes)
    returns (offset': nat)
    requires offset <= |data| && Remaining(data[offset..], blockSize, blocks, i) && payload == blocks[i]
    ensures offset' == offset + |payload| <= |data|
    ensures |payload| < blockSize <==> i + 1 == |blocks|
    ensures |payload| >= blockSize ==> Remaining(data[offset'..], blockSize, blocks, i + 1)
  {
    ghost var chunk := data[offset..offset + Min(blockSize, |data| - offset)];
    CutChunk(data, offset, chunk);
    TakeChunk(blocks, blockSize, i, data[offset..], chunk, data[offset + |chunk|..]);
    offset' := offset + |payload|;
  }

  /** send_file_data_buffered. */
  method SendBuffered(data: Bytes, blockSize: nat, windowSize: nat, replies: nat -> Reply)
    returns (rounds: seq<seq<Packet>>, outcome: Status)
    requires blockSize > 0 && windowSize > 0
    ensures Log(rounds, outcome) == Transfer(data, blockSize, windowSize, replies)
  {
    if data == [] {
      var ok := AwaitAckLoop(1, replies);
      return [[Data(1, [])]], if ok then Completed else Failed;
    }
    ghost var blocks := Split(data, blockSize);
    rounds, outcome := SendBlocks(data, blockSize, windowSize, replies, blocks,
                                  Resume(blocks, windowSize, 1, 0, replies, 0));
  }

  /** Cuts, sends and passes one window. */
  method OneWindow(data: Bytes, blockSize: nat, windowSize: nat, offset: nat, blockNum: U16, replies: nat -> Reply,
                   t: nat,
                   ghost blocks: seq<Bytes>, ghost base: nat)
    returns (sent: seq<seq<Packet>>, t': nat, status: Status, offset': nat, blockNum': U16)
    requires windowSize > 0 && offset <= |data| && base >= 1 && blockNum == Number(base)
    requires Remaining(data[offset..], blockSize, blocks, base - 1)
    ensures status in {Sending, Completed, GaveUp}
    ensures Resume(blocks, windowSize, base, 0, replies, t)
         == Prepend(sent, AfterWindow(blocks, windowSize, base, status, replies, t'))
    ensures status == Sending ==>
              var end := WindowEnd(|blocks|, windowSize, base);
              && base <= end < |blocks| && offset' <= |data| && blockNum' == Number(end + 1)
              && Remaining(data[offset'..], blockSize, blocks, end)
  {
    offset', blockNum' := offset, blockNum;
    var packets, eof := CutWindow(data, blockSize, windowSize, offset, blockNum, blocks, base);
    var acked;
    acked, sent, t' := SendWindow(packets, replies, t, blocks, windowSize, base);
    if !acked {
      status := GaveUp;
      return;
    }
    var complete;
    offset', blockNum', complete := Advance(data, blockSize, packets, offset, blockNum, blocks, base);
    status := if complete then Completed else Sending;
  }

  /** What follows once the window at `base` has been passed, with more to send, or ended
      the transfer. */
  ghost function AfterWindow(blocks: seq<Bytes>, windowSize: nat, base: nat, status: Status, replies: nat -> Reply,
                             t: nat): Log
    requires windowSize > 0 && 1 <= base <= |blocks|
  {
    var end := WindowEnd(|blocks|, windowSize, base);
    if status == Sending && end < |blocks| then Resume(blocks, windowSize, end + 1, 0, replies, t)
    else Log([], status)
  }

  /** Its loop over windows, entered for a file that is not empty. */
  method SendBlocks(data: Bytes, blockSize: nat, windowSize: nat, replies: nat -> Reply, ghost blocks: seq<Bytes>,
                    ghost whole: Log)
    returns (rounds: seq<seq<Packet>>, outcome: Status)
    requires blockSize > 0 && windowSize > 0 && blocks == Split(data, blockSize)
    requires whole == Resume(blocks, windowSize, 1, 0, replies, 0)
    ensures Log(rounds, outcome) == whole
  {
    assert data[0..] == data && blocks[0..] == blocks;
    var blockNum: U16, offset: nat, t := 1, 0, 0;
    ghost var base := 1;
    rounds, outcome := [], Sending;
    PrependNothing(whole);
    while offset <= |data| && outcome == Sending
      invariant outcome in {Sending, Completed, GaveUp}
      invariant outcome != Sending ==> whole == Log(rounds, outcome)
      invariant outcome == Sending ==>
                  && offset <= |data| && 1 <= base <= |blocks| && blockNum == Number(base)
                  && Remaining(data[offset..], blockSize, blocks, base - 1)
                  && whole == Prepend(rounds, Resume(blocks, windowSize, base, 0, replies, t))
      decreases |blocks| - base, if outcome == Sending then 1 else 0
    {
      var sent, t';
      sent, t', outcome, offset, blockNum :=
        OneWindow(data, blockSize, windowSize, offset, blockNum, replies, t, blocks, base);
      ghost var later := AfterWindow(blocks, windowSize, base, outcome, replies, t');
      PrependTwice(rounds, sent, later);
      PrependLast(rounds + sent, outcome);
      rounds, t := rounds + sent, t';
      if outcome == Sending {
        base := WindowEnd(|blocks|, windowSize, base) + 1;
      }
    }
  }

  lemma PrependNothing(log: Log)
    ensures Prepend([], log) == log
  {
    assert [] + log.rounds == log.rounds;
  }

  lemma PrependLast(rounds: seq<seq<Packet>>, status: Status)
    ensures Prepend(rounds, Log([], status)) == Log(rounds, status)
  {
  }

  /** A file that delivers its content in order, as many bytes as asked for or all
      that are left. */
  class FileReader {
    const content: Bytes
    var position: nat

    ghost predicate Valid()
      reads this
    {
      position <= |content|
    }

    ghost function Rest(): Bytes
      requires Valid()
      reads this
    {
      content[position..]
    }

    constructor (content: Bytes)
      ensures Valid() && this.content == content && Rest() == content
    {
      this.content := content;
      position := 0;
    }

    method Read(limit: nat) returns (chunk: Bytes)
      requires Valid()
      modifies this
      ensures Valid()
      ensures |chunk| == Min(limit, |old(Rest())|)
      ensures old(Rest()) == chunk + Rest()
    {
      var end := Min(position + limit, |content|);
      chunk := content[position..end];
      position := end;
    }
  }

  /** The loop of the streaming sender that reads one window from the file (octet mode). */
  method ReadWindow(file: FileReader, blockSize: nat, windowSize: nat, blockNum: U16,
                    ghost blocks: seq<Bytes>, ghost base: nat)
    returns (packets: seq<Packet>, blockNum': U16, eof: bool)
    requires file.Valid() && blockSize > 0 && windowSize > 0 && blockNum == Number(base)
    requires base >= 1 && Remaining(file.Rest(), blockSize, blocks, base - 1)
    modifies file
    ensures file.Valid()
    ensures packets == Window(blocks, windowSize, base)
    ensures eof == (WindowEnd(|blocks|, windowSize, base) == |blocks|)
    ensures blockNum' == Number(WindowEnd(|blocks|, windowSize, base) + 1)
    ensures !eof ==> Remaining(file.Rest(), blockSize, blocks, WindowEnd(|blocks|, windowSize, base))
  {
    packets, blockNum', eof := [], blockNum, false;
    while |packets| < windowSize && !eof
      invariant file.Valid() && |packets| <= windowSize
      invariant Carries(packets, blocks, base)
      invariant blockNum' == Number(base + |packets|)
      invariant eof == (base - 1 + |packets| == |blocks|)
      invariant !eof ==> Remaining(file.Rest(), blockSize, blocks, base - 1 + |packets|)
      decreases windowSize - |packets|
    {
      ghost var before := file.Rest();
      var chunk := file.Read(blockSize);
      TakeChunk(blocks, blockSize, base - 1 + |packets|, before, chunk, file.Rest());
      CarriesSnoc(packets, Data(blockNum', chunk), blocks, base);
      NumberSucc(base + |packets|);
      var isFinal := |chunk| < blockSize;
      packets := packets + [Data(blockNum', chunk)];
      blockNum' := WrappingAdd(blockNum', 1);
      if isFinal {
        eof := true;
        break;
      }
    }
    CarriesNumbered(packets, blocks, base);
  }

  /** send_file_data_streaming of the server in octet mode: read by read, it puts on
      the wire what the buffered sender does. */
  method SendStreaming(file: FileReader, blockSize: nat, windowSize: nat, replies: nat -> Reply)
    returns (rounds: seq<seq<Packet>>, outcome: Status)
    requires file.Valid() && file.position == 0 && blockSize > 0 && windowSize > 0
    modifies file
    ensures Log(rounds, outcome) == Transfer(file.content, blockSize, windowSize, replies)
  {
    if |file.content| == 0 {
      var ok := AwaitAckLoop(1, replies);
      return [[Data(1, [])]], if ok then Completed else Failed;
    }
    ghost var blocks := Split(file.content, blockSize);
    rounds, outcome := StreamBlocks(file, blockSize, windowSize, replies, blocks,
                                    Resume(blocks, windowSize, 1, 0, replies, 0));
  }

  /** Its loop over windows, entered for a file that is not empty. */
  method StreamBlocks(file: FileReader, blockSize: nat, windowSize: nat, replies: nat -> Reply,
                      ghost blocks: seq<Bytes>, ghost whole: Log)
    returns (rounds: seq<seq<Packet>>, outcome: Status)
    requires file.Valid() && blockSize > 0 && windowSize > 0 && blocks == Split(file.Rest(), blockSize)
    requires whole == Resume(blocks, windowSize, 1, 0, replies, 0)
    modifies file
    ensures Log(rounds, outcome) == whole
  {
    assert blocks[0..] == blocks;
    var blockNum: U16, t := 1, 0;
    var eofReached := false;
    ghost var base := 1;
    rounds := [];
    PrependNothing(whole);
    while true
      invariant file.Valid() && !eofReached && 1 <= base <= |blocks| && blockNum == Number(base)
      invariant Remaining(file.Rest(), blockSize, blocks, base - 1)
      invariant whole == Prepend(rounds, Resume(blocks, windowSize, base, 0, replies, t))
      decreases |blocks| - base
    {
      var packets;
      packets, blockNum, eofReached := ReadWindow(file, blockSize, windowSize, blockNum, blocks, base);
      var acked, sent, t' := SendWindow(packets, replies, t, blocks, windowSize, base);
      PrependTwice(rounds, sent, Continue(blocks, windowSize, base, acked, replies, t'));
      rounds, t := rounds + sent, t';
      // The final flag is set on the last packet of the window that met the end of file.
      if !acked || eofReached {
        outcome := if acked then Completed else GaveUp;
        PrependLast(rounds, outcome);
        return;
      }
      base := WindowEnd(|blocks|, windowSize, base) + 1;
    }
  }
}

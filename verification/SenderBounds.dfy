/** What every transfer of the windowed sender puts on the wire, whatever the replies:
    the windows of the block partition in order, each one to five times. */
module SenderBounds {
  import opened Wire
  import opened Arithmetic
  import opened Blocks
  import opened WindowSender

  /** The windows of a transfer from the block at `base` on. */
  function Windows(blocks: seq<Bytes>, windowSize: nat, base: nat): seq<seq<Packet>>
    requires windowSize > 0 && 1 <= base <= |blocks| + 1
    decreases |blocks| + 1 - base
  {
    if base > |blocks| then []
    else [Window(blocks, windowSize, base)] + Windows(blocks, windowSize, WindowEnd(|blocks|, windowSize, base) + 1)
  }

  function Repeat<T>(x: T, count: nat): seq<T> {
    if count == 0 then [] else [x] + Repeat(x, count - 1)
  }

  /** The j-th window counts[j] times in a row. */
  function Expand<T>(windows: seq<T>, counts: seq<nat>): seq<T>
    requires |counts| <= |windows|
  {
    if counts == [] then [] else Repeat(windows[0], counts[0]) + Expand(windows[1..], counts[1..])
  }

  /** Grouping into windows neither loses, repeats, reorders nor renumbers a block,
      and no window is empty or larger than the window size. */
  lemma {:induction false} WindowsPartition(blocks: seq<Bytes>, windowSize: nat, base: nat)
    requires windowSize > 0 && 1 <= base <= |blocks| + 1
    ensures Flatten(Windows(blocks, windowSize, base)) == Numbered(blocks[base - 1..], base)
    ensures forall w :: w in Windows(blocks, windowSize, base) ==> 1 <= |w| <= windowSize
    decreases |blocks| + 1 - base
  {
    if base <= |blocks| {
      var end := WindowEnd(|blocks|, windowSize, base);
      var ws := Windows(blocks, windowSize, base);
      WindowsPartition(blocks, windowSize, end + 1);
      assert ws[1..] == Windows(blocks, windowSize, end + 1);
      assert Numbered(blocks[base - 1..], base) == ws[0] + Numbered(blocks[end..], end + 1);
    }
  }

  /** The number of times each window is transmitted, the current one counted from
      its first transmission. */
  function Attempts(blocks: seq<Bytes>, windowSize: nat, s: Sender, replies: nat -> Reply, t: nat): (counts: seq<nat>)
    requires windowSize > 0 && Live(|blocks|, s) && s.status == Sending
    ensures counts != []
    decreases |blocks| - s.base, MAX_RETRIES - s.retries
  {
    var s' := OnReply(|blocks|, windowSize, s, replies(t));
    if s'.status != Sending then [s.retries + 1]
    else if s'.base == s.base then Attempts(blocks, windowSize, s', replies, t + 1)
    else [s.retries + 1] + Attempts(blocks, windowSize, s', replies, t + 1)
  }

  ghost predicate IsTranscript(log: Log, windows: seq<seq<Packet>>, counts: seq<nat>) {
    && 1 <= |counts| <= |windows|
    && (forall j :: 0 <= j < |counts| ==> 1 <= counts[j] <= MAX_RETRIES)
    && log.rounds == Expand(windows, counts)
    && log.outcome in {Completed, GaveUp}
    && (log.outcome == Completed ==> |counts| == |windows|)
    && (log.outcome == GaveUp ==> counts[|counts| - 1] == MAX_RETRIES)
  }

  lemma LastWindow(w: seq<Packet>, n: nat, outcome: Status, windows: seq<seq<Packet>>)
    requires 1 <= n <= MAX_RETRIES && windows != [] && windows[0] == w
    requires (outcome == Completed && |windows| == 1) || (outcome == GaveUp && n == MAX_RETRIES)
    ensures IsTranscript(Log(Repeat(w, n), outcome), windows, [n])
  {
    assert Expand(windows, [n]) == Repeat(w, n) + Expand(windows[1..], [n][1..]);
  }

  lemma OneMoreWindow(w: seq<Packet>, n: nat, log: Log, windows: seq<seq<Packet>>, counts: seq<nat>)
    requires 1 <= n <= MAX_RETRIES && windows != [] && windows[0] == w
    requires IsTranscript(log, windows[1..], counts)
    ensures IsTranscript(Prepend(Repeat(w, n), log), windows, [n] + counts)
  {
    assert ([n] + counts)[1..] == counts;
    assert ([n] + counts)[|counts|] == counts[|counts| - 1];
  }

  lemma {:induction false} DriveTranscript(blocks: seq<Bytes>, windowSize: nat, s: Sender, replies: nat -> Reply,
                                           t: nat)
    requires windowSize > 0 && Live(|blocks|, s) && s.status == Sending
    ensures IsTranscript(Prepend(Repeat(Window(blocks, windowSize, s.base), s.retries),
                                 Drive(blocks, windowSize, s, replies, t)),
                         Windows(blocks, windowSize, s.base),
                         Attempts(blocks, windowSize, s, replies, t))
    decreases |blocks| - s.base, MAX_RETRIES - s.retries
  {
    var s' := OnReply(|blocks|, windowSize, s, replies(t));
    if s'.status == Sending {
      DriveTranscript(blocks, windowSize, s', replies, t + 1);
    }
    TranscriptBefore(blocks, windowSize, s, replies, t);
  }

  /** From the rest of a transfer to the transfer from one transmission earlier. */
  lemma {:induction false} TranscriptBefore(blocks: seq<Bytes>, windowSize: nat, s: Sender, replies: nat -> Reply,
                                            t: nat)
    requires windowSize > 0 && Live(|blocks|, s) && s.status == Sending
    requires var s' := OnReply(|blocks|, windowSize, s, replies(t));
             s'.status == Sending ==>
               IsTranscript(Prepend(Repeat(Window(blocks, windowSize, s'.base), s'.retries),
                                    Drive(blocks, windowSize, s', replies, t + 1)),
                            Windows(blocks, windowSize, s'.base),
                            Attempts(blocks, windowSize, s', replies, t + 1))
    ensures IsTranscript(Prepend(Repeat(Window(blocks, windowSize, s.base), s.retries),
                                 Drive(blocks, windowSize, s, replies, t)),
                         Windows(blocks, windowSize, s.base),
                         Attempts(blocks, windowSize, s, replies, t))
  {
    var s' := OnReply(|blocks|, windowSize, s, replies(t));
    UnfoldDrive(blocks, windowSize, s, replies, t);
    if s'.status != Sending {
      LastWindow(Window(blocks, windowSize, s.base), s.retries + 1, s'.status, Windows(blocks, windowSize, s.base));
    } else if s'.base != s.base {
      NextTranscript(blocks, windowSize, s, s', replies, t);
    }
  }

  /** The window at `s` is passed, and what follows is a transcript. */
  lemma {:induction false} NextTranscript(blocks: seq<Bytes>, windowSize: nat, s: Sender, s': Sender,
                                          replies: nat -> Reply, t: nat)
    requires windowSize > 0 && Live(|blocks|, s) && s.status == Sending && Live(|blocks|, s') && s'.status == Sending
    requires s'.retries == 0
    requires var windows := Windows(blocks, windowSize, s.base);
             && windows != [] && windows[0] == Window(blocks, windowSize, s.base)
             && windows[1..] == Windows(blocks, windowSize, s'.base)
    requires IsTranscript(Prepend(Repeat(Window(blocks, windowSize, s'.base), s'.retries),
                                  Drive(blocks, windowSize, s', replies, t + 1)),
                          Windows(blocks, windowSize, s'.base),
                          Attempts(blocks, windowSize, s', replies, t + 1))
    ensures IsTranscript(Prepend(Repeat(Window(blocks, windowSize, s.base), s.retries + 1),
                                 Drive(blocks, windowSize, s', replies, t + 1)),
                         Windows(blocks, windowSize, s.base),
                         [s.retries + 1] + Attempts(blocks, windowSize, s', replies, t + 1))
  {
    var log' := Drive(blocks, windowSize, s', replies, t + 1);
    PrependNone(Window(blocks, windowSize, s'.base), log');
    OneMoreWindow(Window(blocks, windowSize, s.base), s.retries + 1, log', Windows(blocks, windowSize, s.base),
                  Attempts(blocks, windowSize, s', replies, t + 1));
  }

  lemma PrependNone(w: seq<Packet>, log: Log)
    ensures Prepend(Repeat(w, 0), log) == log
  {
    assert [] + log.rounds == log.rounds;
  }

  /** One transmission, its place in the list of windows, and what it leads to. */
  lemma {:induction false} UnfoldDrive(blocks: seq<Bytes>, windowSize: nat, s: Sender, replies: nat -> Reply, t: nat)
    requires windowSize > 0 && Live(|blocks|, s) && s.status == Sending
    ensures var w := Window(blocks, windowSize, s.base);
            var s' := OnReply(|blocks|, windowSize, s, replies(t));
            var windows := Windows(blocks, windowSize, s.base);
            var log' := Drive(blocks, windowSize, s', replies, t + 1);
            && Prepend(Repeat(w, s.retries), Drive(blocks, windowSize, s, replies, t))
               == Prepend(Repeat(w, s.retries + 1), log')
            && windows != [] && windows[0] == w
            && (s'.status != Sending ==> log' == Log([], s'.status))
            && (s'.status == Completed ==> |windows| == 1)
            && (s'.base != s.base ==> windows[1..] == Windows(blocks, windowSize, s'.base) && s'.retries == 0)
            && (s'.base == s.base && s'.status != Completed ==> s'.retries == s.retries + 1)
            && (s'.status == GaveUp ==> s.retries + 1 == MAX_RETRIES)
            && s'.status in {Sending, Completed, GaveUp}
            && (s'.status != Sending ==> s'.base == s.base)
  {
    var w := Window(blocks, windowSize, s.base);
    RepeatSnoc(w, s.retries);
    PrependTwice(Repeat(w, s.retries), [w],
                 Drive(blocks, windowSize, OnReply(|blocks|, windowSize, s, replies(t)), replies, t + 1));
  }

  lemma {:induction false} RepeatSnoc<T>(x: T, count: nat)
    ensures Repeat(x, count + 1) == Repeat(x, count) + [x]
    ensures |Repeat(x, count)| == count
  {
    if count > 0 {
      RepeatSnoc(x, count - 1);
    } else {
      assert Repeat(x, 1) == [x] + Repeat(x, 0);
    }
  }

  lemma {:induction false} FlattenRepeat<T>(x: seq<T>, count: nat)
    ensures |Flatten(Repeat(x, count))| == count * |x|
  {
    if count > 0 {
      FlattenRepeat(x, count - 1);
      assert Repeat(x, count)[1..] == Repeat(x, count - 1);
      assert count * |x| == |x| + (count - 1) * |x|;
    }
  }

  lemma {:induction false} ExpandSize<T>(windows: seq<seq<T>>, counts: seq<nat>)
    requires |counts| <= |windows|
    requires forall j :: 0 <= j < |counts| ==> counts[j] <= MAX_RETRIES
    ensures |Flatten(Expand(windows, counts))| <= MAX_RETRIES * |Flatten(windows)|
  {
    if counts != [] {
      ExpandSize(windows[1..], counts[1..]);
      FlattenConcat(Repeat(windows[0], counts[0]), Expand(windows[1..], counts[1..]));
      FlattenRepeat(windows[0], counts[0]);
      MulMonotone(counts[0], MAX_RETRIES, |windows[0]|);
    }
  }

  // ------------------------------------------------------------ what the replies were

  /** Of `count` replies from the t-th on, none is the ACK of this number, except for the
      last one if the window was passed. */
  ghost predicate Tried(number: U16, count: nat, replies: nat -> Reply, t: nat, passed: bool) {
    forall i: nat :: t <= i < t + count ==> (replies(i) == Ack(number) <==> passed && i == t + count - 1)
  }

  /** Each window from the one at `base` on was tried until the ACK of its last block came
      and no longer; only one that was given up, and that is the last, was tried in vain. */
  ghost predicate Answered(blocks: seq<Bytes>, windowSize: nat, base: nat, counts: seq<nat>, outcome: Status,
                           replies: nat -> Reply, t: nat)
    requires windowSize > 0 && base >= 1
    decreases |counts|
  {
    counts != [] ==>
      var end := WindowEnd(|blocks|, windowSize, base);
      && base <= |blocks|
      && Tried(Number(end), counts[0], replies, t, |counts| > 1 || outcome == Completed)
      && Answered(blocks, windowSize, end + 1, counts[1..], outcome, replies, t + counts[0])
  }

  lemma AnsweredLast(blocks: seq<Bytes>, windowSize: nat, base: nat, n: nat, outcome: Status,
                     replies: nat -> Reply, t: nat)
    requires windowSize > 0 && 1 <= base <= |blocks|
    requires Tried(Number(WindowEnd(|blocks|, windowSize, base)), n, replies, t, outcome == Completed)
    ensures Answered(blocks, windowSize, base, [n], outcome, replies, t)
  {
    assert [n][1..] == [];
  }

  lemma AnsweredMore(blocks: seq<Bytes>, windowSize: nat, base: nat, n: nat, counts: seq<nat>, outcome: Status,
                     replies: nat -> Reply, t: nat)
    requires windowSize > 0 && 1 <= base <= |blocks| && counts != []
    requires Tried(Number(WindowEnd(|blocks|, windowSize, base)), n, replies, t, true)
    requires Answered(blocks, windowSize, WindowEnd(|blocks|, windowSize, base) + 1, counts, outcome, replies, t + n)
    ensures Answered(blocks, windowSize, base, [n] + counts, outcome, replies, t)
  {
    assert ([n] + counts)[1..] == counts;
  }

  /** One reply more; it is the ACK of this number exactly when it is judged a match. */
  lemma TriedOnce(number: U16, count: nat, replies: nat -> Reply, t: nat)
    requires count <= t && Tried(number, count, replies, t - count, false)
    ensures Tried(number, count + 1, replies, t - count, JudgeAck(number, replies(t)) == Matched)
  {
  }

  /** What one reply does to the state and to what is left of the transfer. */
  lemma {:induction false} OneReply(blocks: seq<Bytes>, windowSize: nat, s: Sender, replies: nat -> Reply, t: nat)
    requires windowSize > 0 && Live(|blocks|, s) && s.status == Sending
    ensures var end := WindowEnd(|blocks|, windowSize, s.base);
            var s' := OnReply(|blocks|, windowSize, s, replies(t));
            var log, log' := Drive(blocks, windowSize, s, replies, t), Drive(blocks, windowSize, s', replies, t + 1);
            && log.outcome == log'.outcome && |log.rounds| == 1 + |log'.rounds|
            && (s'.status != Sending ==> log' == Log([], s'.status))
            && s' == (if JudgeAck(Number(end), replies(t)) != Matched
                      then Sender(s.base, s.retries + 1, if s.retries + 1 >= MAX_RETRIES then GaveUp else Sending)
                      else if end == |blocks| then s.(status := Completed)
                      else Sender(end + 1, 0, Sending))
  {
  }

  lemma {:induction false} AttemptsAnswered(blocks: seq<Bytes>, windowSize: nat, s: Sender, replies: nat -> Reply,
                                            t: nat)
    requires windowSize > 0 && Live(|blocks|, s) && s.status == Sending && s.retries <= t
    requires Tried(Number(WindowEnd(|blocks|, windowSize, s.base)), s.retries, replies, t - s.retries, false)
    ensures Answered(blocks, windowSize, s.base, Attempts(blocks, windowSize, s, replies, t),
                     Drive(blocks, windowSize, s, replies, t).outcome, replies, t - s.retries)
    decreases |blocks| - s.base, MAX_RETRIES - s.retries
  {
    var s' := OnReply(|blocks|, windowSize, s, replies(t));
    var outcome := Drive(blocks, windowSize, s', replies, t + 1).outcome;
    OneReply(blocks, windowSize, s, replies, t);
    TriedOnce(Number(WindowEnd(|blocks|, windowSize, s.base)), s.retries, replies, t);
    if s'.status != Sending {
      AnsweredLast(blocks, windowSize, s.base, s.retries + 1, outcome, replies, t - s.retries);
    } else {
      AttemptsAnswered(blocks, windowSize, s', replies, t + 1);
      if s'.base != s.base {
        AnsweredMore(blocks, windowSize, s.base, s.retries + 1, Attempts(blocks, windowSize, s', replies, t + 1),
                     outcome, replies, t - s.retries);
      }
    }
  }

  /** If it is complete, the last reply it took, waiting from the t-th on, was the ACK of
      its last block. */
  ghost predicate EndsAcked(blocks: seq<Bytes>, log: Log, replies: nat -> Reply, t: nat) {
    log.rounds != [] && (log.outcome == Completed ==> replies(t + |log.rounds| - 1) == Ack(Number(|blocks|)))
  }

  lemma {:induction false} DriveEnds(blocks: seq<Bytes>, windowSize: nat, s: Sender, replies: nat -> Reply, t: nat)
    requires windowSize > 0 && Live(|blocks|, s) && s.status == Sending
    ensures EndsAcked(blocks, Drive(blocks, windowSize, s, replies, t), replies, t)
    decreases |blocks| - s.base, MAX_RETRIES - s.retries
  {
    var s' := OnReply(|blocks|, windowSize, s, replies(t));
    OneReply(blocks, windowSize, s, replies, t);
    if s'.status == Sending {
      DriveEnds(blocks, windowSize, s', replies, t + 1);
    }
  }

  lemma {:induction false} WholeTranscript(blocks: seq<Bytes>, windowSize: nat, replies: nat -> Reply)
    returns (counts: seq<nat>)
    requires windowSize > 0 && blocks != []
    ensures var log, windows := Drive(blocks, windowSize, Start, replies, 0), Windows(blocks, windowSize, 1);
            IsTranscript(log, windows, counts) && Answered(blocks, windowSize, 1, counts, log.outcome, replies, 0)
  {
    AttemptsAnswered(blocks, windowSize, Start, replies, 0);
    DriveTranscript(blocks, windowSize, Start, replies, 0);
    counts := Attempts(blocks, windowSize, Start, replies, 0);
    PrependNone(Window(blocks, windowSize, 1), Drive(blocks, windowSize, Start, replies, 0));
  }

  /** Bounded retransmission: whatever replies the socket yields, a transfer stops,
      sends the windows in order and each of them one to five times, until its own ACK
      arrives, and never more than 5 * (len/blockSize + 1) DATA packets; it completes only
      after the ACK of the last block and gives up only after five transmissions of one
      window, all in vain. An empty file completes exactly when one of five waits yields the
      ACK of block 1 with no ERROR before it. */
  lemma {:induction false} BoundedTransfer(data: Bytes, blockSize: nat, windowSize: nat, replies: nat -> Reply)
    requires blockSize > 0 && windowSize > 0
    ensures var blocks := Split(data, blockSize);
            var log := Transfer(data, blockSize, windowSize, replies);
            && (data != [] ==> EndsAcked(blocks, log, replies, 0))
            && (data != [] ==> exists counts ::
                  IsTranscript(log, Windows(blocks, windowSize, 1), counts)
                  && Answered(blocks, windowSize, 1, counts, log.outcome, replies, 0))
            && (data == [] ==> log.rounds == Windows(blocks, windowSize, 1) && log.outcome in {Completed, Failed})
            && (data == [] ==>
                  (log.outcome == Completed <==> exists k: nat :: k < MAX_RETRIES && AckedAt(1, replies, 0, k)))
            && |Flatten(log.rounds)| <= MAX_RETRIES * (|data| / blockSize + 1)
  {
    var blocks := Split(data, blockSize);
    SplitCount(data, blockSize);
    if data == [] {
      EmptyTransfer(blockSize, windowSize);
      FlattenOne([Data(1, [])]);
      AwaitAckExactly(1, Start, replies, 0);
    } else {
      var counts := WholeTranscript(blocks, windowSize, replies);
      DriveEnds(blocks, windowSize, Start, replies, 0);
      RoundsSize(blocks, windowSize, counts);
    }
  }

  lemma RoundsSize(blocks: seq<Bytes>, windowSize: nat, counts: seq<nat>)
    requires windowSize > 0 && blocks != [] && |counts| <= |Windows(blocks, windowSize, 1)|
    requires forall j :: 0 <= j < |counts| ==> counts[j] <= MAX_RETRIES
    ensures |Flatten(Expand(Windows(blocks, windowSize, 1), counts))| <= MAX_RETRIES * |blocks|
  {
    ExpandSize(Windows(blocks, windowSize, 1), counts);
    WindowsPartition(blocks, windowSize, 1);
    assert blocks[0..] == blocks;
  }

  lemma EmptyTransfer(blockSize: nat, windowSize: nat)
    requires blockSize > 0 && windowSize > 0
    ensures Windows(Split([], blockSize), windowSize, 1) == [[Data(1, [])]]
  {
    var blocks := Split([], blockSize);
    assert blocks == [[]];
    assert Window(blocks, windowSize, 1) == [Data(1, [])];
    assert WindowEnd(1, windowSize, 1) == 1 && Windows(blocks, windowSize, 2) == [];
  }

  // ------------------------------------------------------------ giving up

  lemma {:induction false} OnlyTimeouts(blocks: seq<Bytes>, windowSize: nat, s: Sender, replies: nat -> Reply, t: nat)
    requires windowSize > 0 && Live(|blocks|, s) && s.status == Sending
    requires forall i: nat :: replies(i) == Timeout
    ensures Drive(blocks, windowSize, s, replies, t).outcome == GaveUp
    decreases MAX_RETRIES - s.retries
  {
    var s' := OnReply(|blocks|, windowSize, s, replies(t));
    OneReply(blocks, windowSize, s, replies, t);
    if s'.status == Sending {
      OnlyTimeouts(blocks, windowSize, s', replies, t + 1);
    }
  }

  /** Giving up, which the source reports as success, can happen to every file but the
      empty one. */
  lemma CanGiveUp(data: Bytes, blockSize: nat, windowSize: nat)
    requires blockSize > 0 && windowSize > 0
    ensures (forall replies: nat -> Reply :: Transfer(data, blockSize, windowSize, replies).outcome != GaveUp)
            <==> data == []
  {
    if data == [] {
      forall replies: nat -> Reply
        ensures Transfer(data, blockSize, windowSize, replies).outcome != GaveUp
      {
        BoundedTransfer(data, blockSize, windowSize, replies);
      }
    } else {
      var replies: nat -> Reply := _ => Timeout;
      OnlyTimeouts(Split(data, blockSize), windowSize, Start, replies, 0);
      assert Transfer(data, blockSize, windowSize, replies).outcome == GaveUp;
    }
  }
}

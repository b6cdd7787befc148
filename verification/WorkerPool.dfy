/** The worker pool: how received packets are dealt to worker queues, and how replies
    are batched. */
module WorkerPool {
  import opened Wire
  import opened Arithmetic

  const USIZE_LIMIT: nat := 0x1_0000_0000_0000_0000

  // ------------------------------------------------------------ round robin

  /** The worker that gets the packet offered when `offered` were offered before it: the
      counter of the source wraps at 2^64. */
  function WorkerFor(offered: nat, workers: nat): (w: nat)
    requires workers > 0
    ensures w < workers
  {
    offered % USIZE_LIMIT % workers
  }

  /** How many of the first `offered` packets were offered to worker `w`. */
  function Share(offered: nat, workers: nat, w: nat): nat
    requires workers > 0
  {
    if offered == 0 then 0
    else Share(offered - 1, workers, w) + (if WorkerFor(offered - 1, workers) == w then 1 else 0)
  }

  /** Shares in the first turn of the counter, in closed form. */
  lemma {:induction false} FirstTurnShare(offered: nat, workers: nat, w: nat)
    requires w < workers && offered <= USIZE_LIMIT
    ensures Share(offered, workers, w) == EvenShare(offered / workers, offered % workers, w)
  {
    if offered == 0 {
      ModOf(0, 0, workers);
      QuotientUnique(0, workers, 0);
    } else {
      var k := offered - 1;
      FirstTurnShare(k, workers, w);
      ShareSucc(k, workers, w);
      DivModSucc(k, workers);
      OneShareMore(k / workers, k % workers, workers, w);
    }
  }

  lemma ShareSucc(k: nat, workers: nat, w: nat)
    requires workers > 0 && k < USIZE_LIMIT
    ensures Share(k + 1, workers, w) == Share(k, workers, w) + (if k % workers == w then 1 else 0)
  {
    assert k % USIZE_LIMIT == k;
  }

  function EvenShare(rounds: int, extra: int, w: nat): int {
    rounds + (if w < extra then 1 else 0)
  }

  /** The closed form one packet on, in terms of quotient and remainder alone. */
  lemma OneShareMore(q: int, r: int, workers: nat, w: nat)
    requires r < workers && w < workers
    ensures EvenShare(q, r, w) + (if r == w then 1 else 0)
            == if r + 1 == workers then EvenShare(q + 1, 0, w) else EvenShare(q, r + 1, w)
  {
  }

  ghost predicate Fair(offered: nat, workers: nat) {
    workers > 0
    && forall u, v :: 0 <= u < workers && 0 <= v < workers ==>
         Share(offered, workers, u) <= Share(offered, workers, v) + 1
  }

  /** Round robin is fair to one packet until the counter has wrapped, and one packet
      later exactly when the number of workers divides 2^64. */
  lemma RoundRobinFairness(workers: nat)
    requires 0 < workers < USIZE_LIMIT
    ensures forall offered :: 0 <= offered <= USIZE_LIMIT ==> Fair(offered, workers)
    ensures Fair(USIZE_LIMIT + 1, workers) <==> USIZE_LIMIT % workers == 0
  {
    forall offered | 0 <= offered <= USIZE_LIMIT
      ensures Fair(offered, workers)
    {
      FairInFirstTurn(offered, workers);
    }
    OneAfterWrap(workers, USIZE_LIMIT + 1);
  }

  lemma OneAfterWrap(workers: nat, offered: nat)
    requires 0 < workers < USIZE_LIMIT && offered == USIZE_LIMIT + 1
    ensures Fair(offered, workers) <==> USIZE_LIMIT % workers == 0
  {
    var m := USIZE_LIMIT % workers;
    ModOf(0, 0, workers);
    assert WorkerFor(USIZE_LIMIT, workers) == 0;
    forall w | 0 <= w < workers
      ensures Share(offered, workers, w)
              == USIZE_LIMIT / workers + (if w < m then 1 else 0) + (if w == 0 then 1 else 0)
    {
      FirstTurnShare(USIZE_LIMIT, workers, w);
    }
    if m > 0 {
      assert Share(offered, workers, 0) == Share(offered, workers, m) + 2;
    }
  }

  lemma FairInFirstTurn(offered: nat, workers: nat)
    requires workers > 0 && offered <= USIZE_LIMIT
    ensures Fair(offered, workers)
  {
    forall w | 0 <= w < workers
      ensures Share(offered, workers, w) == offered / workers + (if w < offered % workers then 1 else 0)
    {
      FirstTurnShare(offered, workers, w);
    }
  }

  // ------------------------------------------------------------ dispatch

  /** wrapping_add on the counter. */
  method NextCounter(counter: nat, ghost offered: nat) returns (counter': nat)
    requires counter == offered % USIZE_LIMIT
    ensures counter' == (offered + 1) % USIZE_LIMIT
  {
    counter' := (counter + 1) % USIZE_LIMIT;
  }

  /** The workers whose turn it is for `count` packets when `offered` came before them. */
  function Turns(offered: nat, count: nat, workers: nat): (turns: seq<nat>)
    requires workers > 0
    ensures |turns| == count
    ensures forall k :: 0 <= k < count ==> turns[k] == WorkerFor(offered + k, workers)
  {
    if count == 0 then [] else Turns(offered, count - 1, workers) + [WorkerFor(offered + count - 1, workers)]
  }

  /** The packets whose turn falls to worker `w`, in order. */
  function Dealt<T>(packets: seq<T>, turns: seq<nat>, w: nat): seq<T>
    requires |packets| == |turns|
  {
    if packets == [] then []
    else
      var n := |packets| - 1;
      Dealt(packets[..n], turns[..n], w) + (if turns[n] == w then [packets[n]] else [])
  }

  function UpTo<T>(s: seq<T>, count: nat): seq<T> {
    if |s| <= count then s else s[..count]
  }

  /** A queue that takes what is dealt to it, in order, until it is full. */
  lemma UpToSnoc<T>(s: seq<T>, x: T, count: nat)
    ensures UpTo(s + [x], count) == if |UpTo(s, count)| < count then UpTo(s, count) + [x] else UpTo(s, count)
  {
  }

  /** A worker is dealt as many packets as its share grows by. */
  lemma {:induction false} DealtShare<T>(packets: seq<T>, offered: nat, workers: nat, w: nat)
    requires workers > 0
    ensures Share(offered, workers, w) + |Dealt(packets, Turns(offered, |packets|, workers), w)|
            == Share(offered + |packets|, workers, w)
  {
    if packets != [] {
      var n := |packets| - 1;
      DealtShare(packets[..n], offered, workers, w);
      assert Turns(offered, n + 1, workers)[..n] == Turns(offered, n, workers);
    }
  }

  /** What the queues hold once `packets` have been dealt to them. */
  ghost predicate Kept<T>(queues: seq<seq<T>>, packets: seq<T>, turns: seq<nat>, capacity: nat, queues': seq<seq<T>>) {
    && |packets| == |turns| && |queues'| == |queues|
    && forall w :: 0 <= w < |queues| ==> queues'[w] == UpTo(queues[w] + Dealt(packets, turns, w), capacity)
  }

  ghost predicate TakesOne<T>(before: seq<seq<T>>, w: nat, packet: T, capacity: nat, after: seq<seq<T>>) {
    && w < |before|
    && after == if |before[w]| < capacity then before[w := before[w] + [packet]] else before
  }

  lemma KeptSnoc<T>(queues: seq<seq<T>>, packets: seq<T>, turns: seq<nat>, capacity: nat, i: nat,
                    before: seq<seq<T>>, after: seq<seq<T>>)
    requires i < |packets| == |turns| && Kept(queues, packets[..i], turns[..i], capacity, before)
    requires TakesOne(before, turns[i], packets[i], capacity, after)
    ensures Kept(queues, packets[..i + 1], turns[..i + 1], capacity, after)
  {
    forall w | 0 <= w < |queues|
      ensures after[w] == UpTo(queues[w] + Dealt(packets[..i + 1], turns[..i + 1], w), capacity)
    {
      DealtSnoc(packets, turns, i, w);
      var dealt := Dealt(packets[..i], turns[..i], w);
      if w == turns[i] {
        UpToSnoc(queues[w] + dealt, packets[i], capacity);
        assert queues[w] + (dealt + [packets[i]]) == (queues[w] + dealt) + [packets[i]];
      }
    }
  }

  lemma DealtSnoc<T>(packets: seq<T>, turns: seq<nat>, i: nat, w: nat)
    requires i < |packets| == |turns|
    ensures var dealt := Dealt(packets[..i], turns[..i], w);
            Dealt(packets[..i + 1], turns[..i + 1], w) == if turns[i] == w then dealt + [packets[i]] else dealt
  {
    assert packets[..i + 1][..i] == packets[..i] && turns[..i + 1][..i] == turns[..i];
  }

  /** The receiver's queues and counters. `offers` and `enqueued` are history. */
  class Dispatcher<T> {
    const capacity: nat
    const workers: nat
    var queues: seq<seq<T>>
    var counter: nat
    var received: nat
    var dropped: nat
    ghost var offered: nat
    ghost var enqueued: nat

    /** Nothing received is unaccounted for and no queue is over its capacity. */
    ghost predicate Valid()
      reads this
    {
      && workers > 0 && |queues| == workers
      && (forall w :: 0 <= w < workers ==> |queues[w]| <= capacity)
      && received == offered == dropped + enqueued
      && counter == offered % USIZE_LIMIT
    }

    constructor (workers: nat, capacity: nat)
      requires workers > 0
      ensures Valid() && received == 0 && this.workers == workers && this.capacity == capacity
      ensures forall w :: 0 <= w < workers ==> queues[w] == []
    {
      this.workers, this.capacity := workers, capacity;
      queues := seq(workers, _ => []);
      counter, received, dropped, offered, enqueued := 0, 0, 0, 0, 0;
    }

    /** `Valid` while a batch is being dealt, with `left` packets of it to go. */
    ghost predicate Dealing(left: nat)
      reads this
    {
      && workers > 0 && |queues| == workers
      && (forall w :: 0 <= w < workers ==> |queues[w]| <= capacity)
      && offered + left == received && offered == dropped + enqueued
      && counter == offered % USIZE_LIMIT
    }

    /** Offers one packet to the next worker; a full queue drops it. */
    method Offer(packet: T, ghost left: nat)
      requires Dealing(left) && left > 0
      modifies this`queues, this`counter, this`dropped, this`offered, this`enqueued
      ensures Dealing(left - 1)
      ensures TakesOne(old(queues), WorkerFor(old(offered), workers), packet, capacity, queues)
    {
      var idx := counter % workers;
      assert idx == WorkerFor(offered, workers);
      counter := NextCounter(counter, offered);
      offered := offered + 1;
      if |queues[idx]| < capacity {
        queues := queues[idx := queues[idx] + [packet]];
        enqueued := enqueued + 1;
      } else {
        dropped := dropped + 1;
      }
    }

    /** One received batch: each queue takes, in order, what is dealt to its worker, up
        to its capacity. */
    method Dispatch(packets: seq<T>)
      requires Valid()
      modifies this
      ensures Valid() && received == old(received) + |packets|
      ensures Kept(old(queues), packets, Turns(old(offered), |packets|, workers), capacity, queues)
    {
      received := received + |packets|;
      DispatchLoop(packets, Turns(offered, |packets|, workers));
    }

    method DispatchLoop(packets: seq<T>, ghost turns: seq<nat>)
      requires Dealing(|packets|) && |turns| == |packets|
      requires forall k :: 0 <= k < |turns| ==> turns[k] == WorkerFor(offered + k, workers)
      modifies this`queues, this`counter, this`dropped, this`offered, this`enqueued
      ensures Dealing(0)
      ensures Kept(old(queues), packets, turns, capacity, queues)
    {
      ghost var queues0, offered0 := queues, offered;
      for i := 0 to |packets|
        invariant Dealing(|packets| - i) && offered == offered0 + i
        invariant Kept(queues0, packets[..i], turns[..i], capacity, queues)
      {
        DispatchOne(packets, i, turns, queues0);
      }
      assert packets[..|packets|] == packets && turns[..|packets|] == turns;
    }

    method DispatchOne(packets: seq<T>, i: nat, ghost turns: seq<nat>, ghost queues0: seq<seq<T>>)
      requires i < |packets| == |turns| && Dealing(|packets| - i)
      requires turns[i] == WorkerFor(offered, workers)
      requires Kept(queues0, packets[..i], turns[..i], capacity, queues)
      modifies this`queues, this`counter, this`dropped, this`offered, this`enqueued
      ensures Dealing(|packets| - (i + 1)) && offered == old(offered) + 1
      ensures Kept(queues0, packets[..i + 1], turns[..i + 1], capacity, queues)
    {
      ghost var before := queues;
      Offer(packets[i], |packets| - i);
      KeptSnoc(queues0, packets, turns, capacity, i, before, queues);
    }

    /** A worker takes the oldest packet of its queue. */
    method Take(w: nat) returns (packet: Option<T>)
      requires Valid() && w < workers
      modifies this`queues
      ensures Valid()
      ensures if old(queues)[w] == [] then packet == None && queues == old(queues)
              else packet == Some(old(queues)[w][0]) && queues == old(queues)[w := old(queues)[w][1..]]
    {
      if queues[w] == [] {
        return None;
      }
      packet := Some(queues[w][0]);
      queues := queues[w := queues[w][1..]];
    }
  }

  // ------------------------------------------------------------ batching

  /** sender_thread until its channel closes. `ready(k)` says how many more packets the
      channel holds when the k-th batch is filled. The batches are never empty, never
      larger than the configured size (one packet if that is 0), keep the order, and take
      all that is there up to that size. */
  method SendBatches<T>(channel: seq<T>, batchSize: nat, ready: nat -> nat) returns (batches: seq<seq<T>>)
    ensures Flatten(batches) == channel
    ensures forall b :: b in batches ==> BatchSized(b, batchSize)
    ensures forall k :: 0 <= k < |batches| - 1 ==> TakesAll(batches[k], batchSize, ready(k))
  {
    batches := [];
    var taken := 0;
    while taken < |channel|
      invariant 0 <= taken <= |channel|
      invariant Flatten(batches) == channel[..taken]
      invariant forall b :: b in batches ==> BatchSized(b, batchSize)
      invariant forall k :: 0 <= k < |batches| && (k < |batches| - 1 || taken < |channel|) ==>
                  TakesAll(batches[k], batchSize, ready(k))
    {
      var batch := FillBatch(channel, taken, batchSize, ready(|batches|));
      FlattenSnoc(batches, batch);
      assert channel[..taken + |batch|] == channel[..taken] + batch;
      taken := taken + |batch|;
      batches := batches + [batch];
    }
    assert channel[..taken] == channel;
  }

  predicate BatchSized<T>(batch: seq<T>, batchSize: nat) {
    1 <= |batch| && (|batch| <= batchSize || |batch| == 1)
  }

  /** The batch has no more than had arrived, and stops short of that only when it is full. */
  predicate TakesAll<T>(batch: seq<T>, batchSize: nat, ready: nat) {
    |batch| <= 1 + ready && (|batch| < 1 + ready ==> |batch| >= batchSize)
  }

  /** Waits for one packet and adds what the channel already holds. */
  method FillBatch<T>(channel: seq<T>, start: nat, batchSize: nat, ready: nat) returns (batch: seq<T>)
    requires start < |channel|
    ensures BatchSized(batch, batchSize)
    ensures start + |batch| <= |channel| && batch == channel[start..start + |batch|]
    ensures |batch| <= 1 + ready && (start + |batch| < |channel| ==> TakesAll(batch, batchSize, ready))
  {
    batch := [channel[start]];
    var inChannel := ready;
    while |batch| < batchSize && inChannel > 0 && start + |batch| < |channel|
      invariant BatchSized(batch, batchSize) && inChannel >= 0 && inChannel + |batch| == ready + 1
      invariant start + |batch| <= |channel| && batch == channel[start..start + |batch|]
      decreases |channel| - |batch|
    {
      batch := batch + [channel[start + |batch|]];
      inChannel := inChannel - 1;
    }
  }
}

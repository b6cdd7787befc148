/** The partition of a file into TFTP blocks (RFC 1350, section 6): full blocks,
    then one block that is strictly short and may be empty. */
module Blocks {
  import opened Wire
  import opened Arithmetic

  function Split(data: Bytes, blockSize: nat): (blocks: seq<Bytes>)
    requires blockSize > 0
    ensures blocks != []
    decreases |data|
  {
    if |data| < blockSize then [data]
    else [data[..blockSize]] + Split(data[blockSize..], blockSize)
  }

  /** All blocks but the last are full and the last does not exceed the block size. */
  ghost predicate FullButLast(blocks: seq<Bytes>, blockSize: nat) {
    && (forall i :: 0 <= i < |blocks| - 1 ==> |blocks[i]| == blockSize)
    && (blocks != [] ==> |blocks[|blocks| - 1]| <= blockSize)
  }

  /** The shape of a complete transfer: full blocks and a strictly short last one. */
  ghost predicate IsTransfer(blocks: seq<Bytes>, blockSize: nat) {
    FullButLast(blocks, blockSize) && blocks != [] && |blocks[|blocks| - 1]| < blockSize
  }

  /** Consecutive blocks as the DATA packets that carry them. */
  function Numbered(blocks: seq<Bytes>, first: nat): (packets: seq<Packet>)
    ensures |packets| == |blocks|
  {
    seq(|blocks|, k requires 0 <= k < |blocks| => Data(Number(first + k), blocks[k]))
  }

  lemma {:induction false} SplitIsTransfer(data: Bytes, blockSize: nat)
    requires blockSize > 0
    ensures IsTransfer(Split(data, blockSize), blockSize)
    ensures Flatten(Split(data, blockSize)) == data
    decreases |data|
  {
    if |data| < blockSize {
      FlattenOne(data);
    } else {
      SplitIsTransfer(data[blockSize..], blockSize);
      var blocks := Split(data, blockSize);
      assert blocks[1..] == Split(data[blockSize..], blockSize);
      assert data == data[..blockSize] + data[blockSize..];
    }
  }

  lemma {:induction false} SplitCount(data: Bytes, blockSize: nat)
    requires blockSize > 0
    ensures |Split(data, blockSize)| == |data| / blockSize + 1
    decreases |data|
  {
    if |data| >= blockSize {
      SplitCount(data[blockSize..], blockSize);
      DivStep(|data|, blockSize);
    }
  }

  /** The shape determines the blocks: nothing but `Split` cuts the data this way. */
  lemma {:induction false} TransferIsSplit(blocks: seq<Bytes>, blockSize: nat)
    requires blockSize > 0 && IsTransfer(blocks, blockSize)
    ensures blocks == Split(Flatten(blocks), blockSize)
  {
    if |blocks| == 1 {
      FlattenOne(blocks[0]);
      assert blocks == [blocks[0]];
    } else {
      assert IsTransfer(blocks[1..], blockSize) by {
        assert forall i :: 0 <= i < |blocks[1..]| ==> blocks[1..][i] == blocks[i + 1];
      }
      TransferIsSplit(blocks[1..], blockSize);
      var data := Flatten(blocks);
      assert data == blocks[0] + Flatten(blocks[1..]);
      assert data[..blockSize] == blocks[0] && data[blockSize..] == Flatten(blocks[1..]);
      assert blocks == [blocks[0]] + blocks[1..];
    }
  }

  /** RFC 1350, section 6, in one statement: `blocks` is a complete transfer of
      `data` exactly when it is `Split(data)`, and then it has len/size + 1 blocks. */
  lemma BlockPartition(data: Bytes, blockSize: nat, blocks: seq<Bytes>)
    requires blockSize > 0
    ensures IsTransfer(blocks, blockSize) && Flatten(blocks) == data <==> blocks == Split(data, blockSize)
    ensures blocks == Split(data, blockSize) ==> |blocks| == |data| / blockSize + 1
  {
    SplitIsTransfer(data, blockSize);
    SplitCount(data, blockSize);
    if IsTransfer(blocks, blockSize) && Flatten(blocks) == data {
      TransferIsSplit(blocks, blockSize);
    }
  }

  /** Dropping one full block from the data drops one block from the partition. */
  lemma SplitDrop(data: Bytes, blockSize: nat)
    requires blockSize > 0
    ensures |data| >= blockSize ==>
              Split(data, blockSize)[0] == data[..blockSize]
              && Split(data, blockSize)[1..] == Split(data[blockSize..], blockSize)
    ensures |data| < blockSize ==> Split(data, blockSize) == [data]
  {
  }

  lemma CutChunk(data: Bytes, offset: nat, chunk: Bytes)
    requires offset + |chunk| <= |data| && chunk == data[offset..offset + |chunk|]
    ensures data[offset..] == chunk + data[offset + |chunk|..]
  {
  }

  /** Taking the next chunk off a file whose rest is cut into `blocks[i..]` yields
      block `i`, and the chunk is short exactly when that block is the last. */
  lemma TakeChunk(blocks: seq<Bytes>, blockSize: nat, i: nat, rest: Bytes, chunk: Bytes, rest': Bytes)
    requires Remaining(rest, blockSize, blocks, i)
    requires rest == chunk + rest' && |chunk| == Min(blockSize, |rest|)
    ensures chunk == blocks[i]
    ensures |chunk| < blockSize <==> i + 1 == |blocks|
    ensures |chunk| == blockSize ==> Remaining(rest', blockSize, blocks, i + 1)
  {
    SplitDrop(rest, blockSize);
    assert blocks[i..][0] == blocks[i];
    if |rest| >= blockSize {
      assert rest[..blockSize] == chunk && rest[blockSize..] == rest';
      assert blocks[i..][1..] == blocks[i + 1..];
    } else {
      assert rest == chunk;
      assert |blocks[i..]| == 1;
    }
  }

  /** `packets` carry the blocks from `first` on, under their numbers. */
  ghost predicate Carries(packets: seq<Packet>, blocks: seq<Bytes>, first: nat) {
    && 1 <= first && first - 1 + |packets| <= |blocks|
    && (forall k :: 0 <= k < |packets| ==> packets[k] == Data(Number(first + k), blocks[first - 1 + k]))
  }

  lemma CarriesSnoc(packets: seq<Packet>, packet: Packet, blocks: seq<Bytes>, first: nat)
    requires Carries(packets, blocks, first) && first - 1 + |packets| < |blocks|
    requires packet == Data(Number(first + |packets|), blocks[first - 1 + |packets|])
    ensures Carries(packets + [packet], blocks, first)
  {
  }

  lemma CarriesNumbered(packets: seq<Packet>, blocks: seq<Bytes>, first: nat)
    requires Carries(packets, blocks, first)
    ensures packets == Numbered(blocks[first - 1..first - 1 + |packets|], first)
  {
  }

  /** `rest` is what a file cut into `blocks` has left from block `i` (from 0) on. */
  ghost predicate Remaining(rest: Bytes, blockSize: nat, blocks: seq<Bytes>, i: nat) {
    blockSize > 0 && i < |blocks| && Split(rest, blockSize) == blocks[i..]
  }

  lemma NumberedSnoc(blocks: seq<Bytes>, first: nat, k: nat)
    requires 1 <= first && first + k <= |blocks|
    ensures Numbered(blocks[first - 1..first + k], first)
            == Numbered(blocks[first - 1..first - 1 + k], first) + [Data(Number(first + k), blocks[first - 1 + k])]
  {
  }

  /** The bytes of the first `n` blocks. */
  ghost function Joined(blocks: seq<Bytes>, n: nat): Bytes
    requires n <= |blocks|
  {
    if n == 0 then [] else Joined(blocks, n - 1) + blocks[n - 1]
  }

  lemma {:induction false} JoinedIsFlatten(blocks: seq<Bytes>, n: nat)
    requires n <= |blocks|
    ensures Joined(blocks, n) == Flatten(blocks[..n])
  {
    if n > 0 {
      JoinedIsFlatten(blocks, n - 1);
      FlattenTakeSnoc(blocks, n - 1);
    }
  }

  /** A strict block prefix of a file differs from the file by whole blocks. */
  lemma FlattenTakeSnoc(blocks: seq<Bytes>, n: nat)
    requires n < |blocks|
    ensures Flatten(blocks[..n + 1]) == Flatten(blocks[..n]) + blocks[n]
  {
    assert blocks[..n + 1] == blocks[..n] + [blocks[n]];
    FlattenSnoc(blocks[..n], blocks[n]);
  }

  lemma FlattenPrefix(blocks: seq<Bytes>, n: nat)
    requires n <= |blocks|
    ensures Flatten(blocks[..n]) <= Flatten(blocks)
  {
    assert blocks == blocks[..n] + blocks[n..];
    FlattenConcat(blocks[..n], blocks[n..]);
  }
}

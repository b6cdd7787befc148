/** The chunked NETASCII encoder of main.rs, which keeps CR LF pairs that are already
    there: its fast path over chunks against a position-by-position specification. */
module KeepingEncoder {
  import opened Wire
  import opened Netascii

  const CHUNK_SIZE: nat := 4096

  predicate FollowsCr(data: Bytes, i: nat) {
    0 < i <= |data| && data[i - 1] == CR
  }

  predicate PrecedesLf(data: Bytes, i: nat) {
    i + 1 < |data| && data[i + 1] == LF
  }

  /** What the byte at one position becomes, given its neighbours in the whole input. */
  function KeepAt(data: Bytes, i: nat): (r: Bytes)
    requires i < |data|
    ensures 1 <= |r| <= 2
  {
    if data[i] == LF then (if FollowsCr(data, i) then [LF] else [CR, LF])
    else if data[i] == CR then (if PrecedesLf(data, i) then [CR] else [CR, NUL])
    else [data[i]]
  }

  function KeepFrom(data: Bytes, i: nat): (r: Bytes)
    requires i <= |data|
    ensures |r| <= 2 * (|data| - i)
    decreases |data| - i
  {
    if i == |data| then [] else KeepAt(data, i) + KeepFrom(data, i + 1)
  }

  function EncodeKeeping(data: Bytes): (r: Bytes)
    ensures |r| <= 2 * |data|
  {
    KeepFrom(data, 0)
  }

  ghost predicate Plain(data: Bytes, i: nat, j: nat) {
    i <= j <= |data| && forall k :: i <= k < j ==> data[k] != LF && data[k] != CR
  }

  lemma Associates(a: Bytes, b: Bytes, c: Bytes)
    ensures (a + b) + c == a + (b + c)
  {
  }

  lemma {:induction false} PlainRun(data: Bytes, i: nat, j: nat)
    requires Plain(data, i, j)
    ensures KeepFrom(data, i) == data[i..j] + KeepFrom(data, j)
    decreases j - i
  {
    if i < j {
      assert data[i] != LF && data[i] != CR && Plain(data, i + 1, j);
      PlainRun(data, i + 1, j);
      assert data[i..j] == [data[i]] + data[i + 1..j];
      Associates([data[i]], data[i + 1..j], KeepFrom(data, j));
    }
  }

  /** `result` is the output for data[..i]. */
  ghost predicate UpTo(data: Bytes, i: nat, result: Bytes) {
    i <= |data| && result + KeepFrom(data, i) == KeepFrom(data, 0)
  }

  /** Its last byte is a CR just when a pair is being kept across position i: what the
      look-behind across chunks relies on. */
  ghost predicate EndsFor(data: Bytes, i: nat, result: Bytes) {
    i > 0 ==> result != [] && (result[|result| - 1] == CR <==> i < |data| && FollowsCr(data, i) && data[i] == LF)
  }

  ghost predicate Encoded(data: Bytes, i: nat, result: Bytes) {
    UpTo(data, i, result) && EndsFor(data, i, result)
  }

  /** `result` is the output for data[..i] and the bytes from there to j are to be copied. */
  ghost predicate Pending(data: Bytes, i: nat, j: nat, result: Bytes) {
    Plain(data, i, j) && Encoded(data, i, result)
  }

  lemma CopyPlain(data: Bytes, i: nat, j: nat, result: Bytes)
    requires Plain(data, i, j) && i < j && UpTo(data, i, result)
    ensures Encoded(data, j, result + data[i..j])
  {
    PlainRun(data, i, j);
    Associates(result, data[i..j], KeepFrom(data, j));
    assert (result + data[i..j])[|result| + (j - i) - 1] == data[j - 1];
  }

  lemma CopyRun(data: Bytes, i: nat, j: nat, result: Bytes)
    requires Pending(data, i, j, result)
    ensures Encoded(data, j, result + data[i..j])
    ensures i == j ==> result + data[i..j] == result
  {
    if i < j {
      CopyPlain(data, i, j, result);
    } else {
      assert result + data[i..j] == result;
    }
  }

  lemma KeepAtEnd(data: Bytes, i: nat)
    requires i < |data|
    ensures KeepAt(data, i)[|KeepAt(data, i)| - 1] == CR <==> data[i] == CR && PrecedesLf(data, i)
  {
  }

  lemma KeepOne(data: Bytes, i: nat, before: Bytes, result: Bytes)
    requires i < |data| && UpTo(data, i, before) && result == before + KeepAt(data, i)
    ensures Encoded(data, i + 1, result)
  {
    var k := KeepAt(data, i);
    Associates(before, k, KeepFrom(data, i + 1));
    KeepAtEnd(data, i);
    assert result[|result| - 1] == k[|k| - 1];
  }

  lemma Stays(data: Bytes, i: nat, j: nat, result: Bytes)
    requires Pending(data, i, j, result) && j < |data| && data[j] != LF && data[j] != CR
    ensures Pending(data, i, j + 1, result)
  {
  }

  ghost predicate IsChunk(chunk: Bytes, data: Bytes, start: nat, end: nat) {
    && start < end <= |data| && |chunk| == end - start
    && forall k :: 0 <= k < |chunk| ==> chunk[k] == data[start + k]
  }

  /** The line-end branches of the scan, at position start + idx. */
  method EncodeLineEnd(data: Bytes, start: nat, end: nat, chunk: Bytes, idx: nat, copied: Bytes)
    returns (result: Bytes)
    requires IsChunk(chunk, data, start, end) && idx < |chunk|
    requires chunk[idx] == LF || chunk[idx] == CR
    requires EndsFor(data, start + idx, copied)
    ensures result == copied + KeepAt(data, start + idx)
  {
    result := copied;
    if chunk[idx] == LF {
      var precededByCr :=
        if idx > 0 then chunk[idx - 1] == CR
        else if start > 0 && result != [] then result[|result| - 1] == CR
        else false;
      if precededByCr {
        result := result + [LF];
      } else {
        result := result + [CR];
        result := result + [LF];
      }
    } else {
      var followedByLf :=
        if idx + 1 < |chunk| then chunk[idx + 1] == LF
        else if end < |data| then data[end] == LF
        else false;
      if followedByLf {
        result := result + [CR];
      } else {
        result := result + [CR];
        result := result + [NUL];
      }
    }
  }

  /** A line-end byte in the scan: the pending bytes are copied, then its own output. */
  method ScanLineEnd(data: Bytes, start: nat, end: nat, chunk: Bytes, lastCopy: nat, idx: nat, pending: Bytes)
    returns (result: Bytes)
    requires IsChunk(chunk, data, start, end) && lastCopy <= idx < |chunk|
    requires chunk[idx] == LF || chunk[idx] == CR
    requires Pending(data, start + lastCopy, start + idx, pending)
    ensures Encoded(data, start + idx + 1, result)
  {
    var copied := CopyPending(data, start, end, chunk, lastCopy, idx, pending);
    result := EncodeLineEnd(data, start, end, chunk, idx, copied);
    KeepOne(data, start + idx, copied, result);
  }

  lemma SameSlice(data: Bytes, start: nat, end: nat, chunk: Bytes, a: nat, b: nat)
    requires IsChunk(chunk, data, start, end) && a <= b <= |chunk|
    ensures chunk[a..b] == data[start + a..start + b]
  {
  }

  method CopyPending(data: Bytes, start: nat, end: nat, chunk: Bytes, lastCopy: nat, idx: nat, pending: Bytes)
    returns (result: Bytes)
    requires IsChunk(chunk, data, start, end) && lastCopy <= idx <= |chunk|
    requires Pending(data, start + lastCopy, start + idx, pending)
    ensures Encoded(data, start + idx, result)
  {
    SameSlice(data, start, end, chunk, lastCopy, idx);
    CopyRun(data, start + lastCopy, start + idx, pending);
    result := pending + chunk[lastCopy..idx];
  }

  /** The scan of one chunk, data[start..end]. Bytes since `lastCopy` are pending. */
  method EncodeChunk(data: Bytes, start: nat, end: nat, before: Bytes) returns (result: Bytes)
    requires start < end <= |data| && Encoded(data, start, before)
    ensures Encoded(data, end, result)
  {
    var chunk := data[start..end];
    var lastCopy;
    lastCopy, result := ScanChunk(data, start, end, chunk, before);
    result := CopyPending(data, start, end, chunk, lastCopy, |chunk|, result);
  }

  method ScanChunk(data: Bytes, start: nat, end: nat, chunk: Bytes, before: Bytes)
    returns (lastCopy: nat, result: Bytes)
    requires IsChunk(chunk, data, start, end) && Encoded(data, start, before)
    ensures lastCopy <= |chunk| && Pending(data, start + lastCopy, end, result)
  {
    result := before;
    lastCopy := 0;
    var idx := 0;
    while idx < |chunk|
      invariant 0 <= lastCopy <= idx <= |chunk|
      invariant Pending(data, start + lastCopy, start + idx, result)
    {
      lastCopy, result := ScanByte(data, start, end, chunk, lastCopy, idx, result);
      idx := idx + 1;
    }
  }

  method ScanByte(data: Bytes, start: nat, end: nat, chunk: Bytes, lastCopy: nat, idx: nat, pending: Bytes)
    returns (lastCopy': nat, result: Bytes)
    requires IsChunk(chunk, data, start, end) && lastCopy <= idx < |chunk|
    requires Pending(data, start + lastCopy, start + idx, pending)
    ensures lastCopy' <= idx + 1 && Pending(data, start + lastCopy', start + idx + 1, result)
  {
    var byte := chunk[idx];
    if byte == LF || byte == CR {
      result := ScanLineEnd(data, start, end, chunk, lastCopy, idx, pending);
      lastCopy' := idx + 1;
    } else {
      Stays(data, start + lastCopy, start + idx, pending);
      lastCopy', result := lastCopy, pending;
    }
  }

  /** TransferMode::convert_to_netascii of main.rs, for any chunk size. */
  method EncodeInChunks(data: Bytes, chunkSize: nat) returns (result: Bytes)
    requires chunkSize > 0
    ensures result == EncodeKeeping(data)
  {
    result := [];
    var i := 0;
    while i < |data|
      invariant Encoded(data, i, result)
    {
      var chunkEnd := Min(i + chunkSize, |data|);
      result := EncodeChunk(data, i, chunkEnd, result);
      i := chunkEnd;
    }
  }

  method ConvertToNetascii(data: Bytes) returns (result: Bytes)
    ensures result == EncodeKeeping(data)
  {
    result := EncodeInChunks(data, CHUNK_SIZE);
  }

  // ---------------------------------------------------------------- meaning

  /** The input with every CR LF pair replaced by a single LF. */
  function Collapse(data: Bytes): (r: Bytes)
    ensures |r| <= |data|
  {
    if data == [] then []
    else if data[0] == CR && |data| > 1 && data[1] == LF then [LF] + Collapse(data[2..])
    else [data[0]] + Collapse(data[1..])
  }

  lemma {:induction false} KeepFromMeaning(data: Bytes, i: nat)
    requires i <= |data|
    requires i < |data| ==> !(FollowsCr(data, i) && data[i] == LF)
    ensures KeepFrom(data, i) == Encode(Collapse(data[i..]))
    decreases |data| - i
  {
    if i < |data| {
      if data[i] == CR && PrecedesLf(data, i) {
        KeepFromMeaning(data, i + 2);
        KeepPair(data, i);
        CollapseAt(data, i);
        EncodeCons(LF, Collapse(data[i + 2..]));
      } else {
        KeepFromMeaning(data, i + 1);
        CollapseAt(data, i);
        EncodeCons(data[i], Collapse(data[i + 1..]));
      }
    }
  }

  lemma KeepPair(data: Bytes, i: nat)
    requires i < |data| && data[i] == CR && PrecedesLf(data, i)
    ensures KeepFrom(data, i) == [CR, LF] + KeepFrom(data, i + 2)
  {
    assert KeepFrom(data, i) == [CR] + KeepFrom(data, i + 1);
    assert KeepFrom(data, i + 1) == [LF] + KeepFrom(data, i + 2);
  }

  lemma CollapseAt(data: Bytes, i: nat)
    requires i < |data|
    ensures Collapse(data[i..])
            == if data[i] == CR && PrecedesLf(data, i) then [LF] + Collapse(data[i + 2..])
               else [data[i]] + Collapse(data[i + 1..])
  {
    var rest := data[i..];
    assert rest[0] == data[i] && rest[1..] == data[i + 1..];
    if |rest| > 1 {
      assert rest[1] == data[i + 1] && rest[2..] == data[i + 2..];
    }
  }

  lemma EncodeCons(b: Byte, rest: Bytes)
    ensures Encode([b] + rest) == EncodeByte(b) + Encode(rest)
  {
    assert ([b] + rest)[1..] == rest;
  }

  /** The two encoders agree up to existing pairs: main.rs encodes what the library
      encoder makes of the input once its CR LF pairs are single LFs. */
  lemma KeepingIsEncodeOfCollapse(data: Bytes)
    ensures EncodeKeeping(data) == Encode(Collapse(data))
  {
    KeepFromMeaning(data, 0);
    assert data[0..] == data;
  }

  ghost predicate HasPair(data: Bytes) {
    exists i :: 0 <= i < |data| - 1 && data[i] == CR && data[i + 1] == LF
  }

  lemma {:induction false} CollapseIdentity(data: Bytes)
    ensures Collapse(data) == data <==> !HasPair(data)
  {
    if data == [] {
    } else if data[0] == CR && |data| > 1 && data[1] == LF {
      assert |Collapse(data)| < |data|;
      assert HasPair(data);
    } else {
      CollapseIdentity(data[1..]);
      assert data == [data[0]] + data[1..];
      assert Collapse(data)[1..] == Collapse(data[1..]);
      if HasPair(data) {
        var i :| 0 <= i < |data| - 1 && data[i] == CR && data[i + 1] == LF;
        assert data[1..][i - 1] == CR && data[1..][i - 1 + 1] == LF;
      }
      if HasPair(data[1..]) {
        var i :| 0 <= i < |data[1..]| - 1 && data[1..][i] == CR && data[1..][i + 1] == LF;
        assert data[i + 1] == CR && data[i + 1 + 1] == LF;
      }
    }
  }

  /** Round trip through the chunked encoder: the receiver gets the input with its
      CR LF pairs collapsed, hence the input itself exactly when it has none. */
  lemma DecodeKeeping(data: Bytes)
    ensures Decode(EncodeKeeping(data)) == Collapse(data)
    ensures Decode(EncodeKeeping(data)) == data <==> !HasPair(data)
  {
    KeepingIsEncodeOfCollapse(data);
    DecodeEncode(Collapse(data));
    CollapseIdentity(data);
  }

  /** Every CR is followed by an LF and every LF preceded by a CR. */
  ghost predicate NetworkLines(data: Bytes, from: nat) {
    forall i :: from <= i < |data| ==>
      (data[i] == CR ==> PrecedesLf(data, i)) && (data[i] == LF ==> FollowsCr(data, i))
  }

  lemma {:induction false} KeptFrom(data: Bytes, i: nat)
    requires i <= |data|
    ensures |KeepFrom(data, i)| >= |data| - i
    ensures NetworkLines(data, i) ==> KeepFrom(data, i) == data[i..]
    ensures !NetworkLines(data, i) ==> |KeepFrom(data, i)| > |data| - i
    decreases |data| - i
  {
    if i < |data| {
      KeptFrom(data, i + 1);
      assert data[i..] == [data[i]] + data[i + 1..];
    }
  }

  /** What the encoder keeps: it leaves exactly those texts alone whose line ends are all
      CR LF and that have no other CR. */
  lemma KeptExactly(data: Bytes)
    ensures EncodeKeeping(data) == data <==> NetworkLines(data, 0)
  {
    KeptFrom(data, 0);
    assert data[0..] == data;
  }

  // ---------------------------------------------------------------- pieces

  predicate Straddles(a: Bytes, b: Bytes) {
    a != [] && b != [] && a[|a| - 1] == CR && b[0] == LF
  }

  lemma {:induction false} CollapseConcat(a: Bytes, b: Bytes)
    requires !Straddles(a, b)
    ensures Collapse(a + b) == Collapse(a) + Collapse(b)
  {
    if a == [] {
      assert a + b == b;
    } else if a[0] == CR && |a| > 1 && a[1] == LF {
      assert (a + b)[2..] == a[2..] + b;
      CollapseConcat(a[2..], b);
    } else {
      assert (a + b)[1..] == a[1..] + b;
      CollapseConcat(a[1..], b);
    }
  }

  lemma KeepingConcat(a: Bytes, b: Bytes)
    ensures !Straddles(a, b) ==> EncodeKeeping(a + b) == EncodeKeeping(a) + EncodeKeeping(b)
    ensures Straddles(a, b) ==> |EncodeKeeping(a + b)| + 2 == |EncodeKeeping(a)| + |EncodeKeeping(b)|
  {
    KeepingIsEncodeOfCollapse(a);
    KeepingIsEncodeOfCollapse(b);
    KeepingIsEncodeOfCollapse(a + b);
    if !Straddles(a, b) {
      CollapseConcat(a, b);
      EncodeConcat(Collapse(a), Collapse(b));
    } else {
      var a', b' := a[..|a| - 1], b[1..];
      assert a == a' + [CR] && b == [LF] + b' && a + b == a' + ([CR, LF] + b');
      CollapsePair(a', b');
      EncodeConcat(Collapse(a'), [CR]);
      EncodeConcat(Collapse(a'), [LF] + Collapse(b'));
      EncodeCons(LF, Collapse(b'));
      EncodeCons(CR, []);
    }
  }

  /** A pair cut in two: its halves survive on their own, together they are one LF. */
  lemma CollapsePair(a: Bytes, b: Bytes)
    ensures Collapse(a + [CR]) == Collapse(a) + [CR]
    ensures Collapse([LF] + b) == [LF] + Collapse(b)
    ensures Collapse(a + ([CR, LF] + b)) == Collapse(a) + ([LF] + Collapse(b))
  {
    CollapseConcat(a, [CR]);
    CollapseConcat(a, [CR, LF] + b);
    assert ([CR, LF] + b)[2..] == b && ([LF] + b)[1..] == b;
    assert Collapse([CR]) == [CR] + Collapse([]);
  }

  /** Encoding piece by piece, as the streaming sender does with what it reads. */
  function EncodePieces(pieces: seq<Bytes>): Bytes {
    if pieces == [] then [] else EncodeKeeping(pieces[0]) + EncodePieces(pieces[1..])
  }

  function CollapsePieces(pieces: seq<Bytes>): Bytes {
    if pieces == [] then [] else Collapse(pieces[0]) + CollapsePieces(pieces[1..])
  }

  /** How many CR LF pairs are split between two consecutive pieces. */
  function SplitPairs(pieces: seq<Bytes>): nat {
    if |pieces| <= 1 then 0
    else (if Straddles(pieces[0], pieces[1]) then 1 else 0) + SplitPairs(pieces[1..])
  }

  lemma {:induction false} PiecesLength(pieces: seq<Bytes>)
    requires forall i :: 0 <= i < |pieces| ==> pieces[i] != []
    ensures |EncodePieces(pieces)| == |EncodeKeeping(Flatten(pieces))| + 2 * SplitPairs(pieces)
    ensures SplitPairs(pieces) == 0 ==> EncodePieces(pieces) == EncodeKeeping(Flatten(pieces))
  {
    if pieces != [] {
      var rest := pieces[1..];
      PiecesLength(rest);
      KeepingConcat(pieces[0], Flatten(rest));
      if rest != [] {
        assert Flatten(rest)[0] == rest[0][0];
      }
    }
  }

  /** Encoding what was read piece by piece gives the encoding of the whole file exactly
      when no CR LF pair is split between two reads; in every case the receiver decodes
      each piece with its own pairs collapsed. */
  lemma PiecewiseEncoding(pieces: seq<Bytes>)
    requires forall i :: 0 <= i < |pieces| ==> pieces[i] != []
    ensures EncodePieces(pieces) == EncodeKeeping(Flatten(pieces)) <==> SplitPairs(pieces) == 0
    ensures Decode(EncodePieces(pieces)) == CollapsePieces(pieces)
  {
    PiecesLength(pieces);
    PiecesAreEncoded(pieces);
    DecodeEncode(CollapsePieces(pieces));
  }

  lemma {:induction false} PiecesAreEncoded(pieces: seq<Bytes>)
    ensures EncodePieces(pieces) == Encode(CollapsePieces(pieces))
  {
    if pieces != [] {
      PiecesAreEncoded(pieces[1..]);
      KeepingIsEncodeOfCollapse(pieces[0]);
      EncodeConcat(Collapse(pieces[0]), CollapsePieces(pieces[1..]));
    }
  }
}

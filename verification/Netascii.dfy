/** The three NETASCII converters of the repository (RFC 1350; CR rules of RFC 854):
    the byte-wise encoder of the library, the chunked encoder of the server in main.rs
    and the decoder of the upload handler. */
module Netascii {
  import opened Wire

  const LF: Byte := 10
  const CR: Byte := 13
  const NUL: Byte := 0

  // ---------------------------------------------------------------- library encoder

  function EncodeByte(b: Byte): Bytes {
    if b == LF then [CR, LF] else if b == CR then [CR, NUL] else [b]
  }

  function Encode(data: Bytes): Bytes {
    if data == [] then [] else EncodeByte(data[0]) + Encode(data[1..])
  }

  lemma EncodeSnoc(data: Bytes, b: Byte)
    ensures Encode(data + [b]) == Encode(data) + EncodeByte(b)
  {
    EncodeConcat(data, [b]);
    assert Encode([b]) == EncodeByte(b) + Encode([b][1..]);
  }

  lemma {:induction false} EncodeConcat(a: Bytes, b: Bytes)
    ensures Encode(a + b) == Encode(a) + Encode(b)
  {
    if a == [] {
      assert a + b == b;
    } else {
      assert (a + b)[0] == a[0] && (a + b)[1..] == a[1..] + b;
      EncodeConcat(a[1..], b);
    }
  }

  /** TransferMode::convert_to_netascii of lib.rs. */
  method EncodeLoop(data: Bytes) returns (result: Bytes)
    ensures result == Encode(data)
  {
    result := [];
    for i := 0 to |data|
      invariant result == Encode(data[..i])
    {
      assert data[..i + 1] == data[..i] + [data[i]];
      EncodeSnoc(data[..i], data[i]);
      if data[i] == LF {
        result := result + [CR];
        result := result + [LF];
      } else if data[i] == CR {
        result := result + [CR];
        result := result + [NUL];
      } else {
        result := result + [data[i]];
      }
    }
    assert data[..|data|] == data;
  }

  // ---------------------------------------------------------------- decoder

  function Decode(data: Bytes): (r: Bytes)
    ensures |r| <= |data|
  {
    if data == [] then []
    else if data[0] == CR && |data| > 1 && data[1] == LF then [LF] + Decode(data[2..])
    else if data[0] == CR && |data| > 1 && data[1] == NUL then [CR] + Decode(data[2..])
    else [data[0]] + Decode(data[1..])
  }

  /** convert_from_netascii of server.rs. */
  method DecodeLoop(data: Bytes) returns (result: Bytes)
    ensures result == Decode(data)
  {
    result := [];
    var i := 0;
    while i < |data|
      invariant 0 <= i <= |data|
      invariant Decode(data) == result + Decode(data[i..])
    {
      DecodeAt(data, i, result);
      if data[i] == CR && i + 1 < |data| {
        if data[i + 1] == LF {
          result := result + [LF];
          i := i + 2;
        } else if data[i + 1] == NUL {
          result := result + [CR];
          i := i + 2;
        } else {
          result := result + [data[i]];
          i := i + 1;
        }
      } else {
        result := result + [data[i]];
        i := i + 1;
      }
    }
  }

  /** One step of the decoder behind what it has produced so far. */
  lemma DecodeAt(data: Bytes, i: nat, result: Bytes)
    requires i < |data|
    ensures var pair := data[i] == CR && i + 1 < |data| && data[i + 1] in {LF, NUL};
            var b := if pair && data[i + 1] == LF then LF else data[i];
            result + Decode(data[i..]) == (result + [b]) + Decode(data[(if pair then i + 2 else i + 1)..])
  {
    var rest := data[i..];
    assert rest[0] == data[i] && rest[1..] == data[i + 1..];
    if i + 1 < |data| {
      assert rest[1] == data[i + 1] && rest[2..] == data[i + 2..];
    }
  }

  // ---------------------------------------------------------------- round trips

  /** Decoding undoes the library's encoding on every byte string. */
  lemma {:induction false} DecodeEncode(data: Bytes)
    ensures Decode(Encode(data)) == data
  {
    if data != [] {
      DecodeEncode(data[1..]);
      DecodeOneEncoded(data[0], Encode(data[1..]));
    }
  }

  lemma DecodeOneEncoded(b: Byte, rest: Bytes)
    ensures Decode(EncodeByte(b) + rest) == [b] + Decode(rest)
  {
    var s := EncodeByte(b) + rest;
    if b == LF || b == CR {
      assert s[0] == CR && s[2..] == rest;
    } else {
      assert s[1..] == rest;
    }
  }

  /** Proper NETASCII text: every CR is followed by LF or NUL, every LF follows a CR. */
  ghost predicate Canonical(data: Bytes) {
    && (forall i :: 0 <= i < |data| && data[i] == CR ==> i + 1 < |data| && data[i + 1] in {LF, NUL})
    && (forall i :: 0 <= i < |data| && data[i] == LF ==> i > 0 && data[i - 1] == CR)
  }

  lemma CanonicalEncodeByte(b: Byte, rest: Bytes)
    requires Canonical(rest)
    ensures Canonical(EncodeByte(b) + rest)
  {
    var s, k := EncodeByte(b) + rest, |EncodeByte(b)|;
    assert forall i :: k <= i < |s| ==> s[i] == rest[i - k];
    if rest != [] {
      assert rest[0] != LF;
    }
  }

  lemma {:induction false} EncodeIsCanonical(data: Bytes)
    ensures Canonical(Encode(data))
  {
    if data != [] {
      EncodeIsCanonical(data[1..]);
      CanonicalEncodeByte(data[0], Encode(data[1..]));
    }
  }

  lemma CanonicalTail(data: Bytes, k: nat)
    requires Canonical(data) && k <= |data| && (k < |data| ==> data[k] != LF)
    ensures Canonical(data[k..])
  {
    var tail := data[k..];
    assert forall i :: 0 <= i < |tail| ==> tail[i] == data[i + k];
  }

  lemma {:induction false} EncodeDecodeCanonical(data: Bytes)
    requires Canonical(data)
    ensures Encode(Decode(data)) == data
    decreases |data|
  {
    if data != [] {
      if data[0] == CR {
        assert data[1] in {LF, NUL};
        assert forall i :: i == 2 < |data| ==> data[i] != LF;
        CanonicalTail(data, 2);
        EncodeDecodeCanonical(data[2..]);
        var b: Byte := if data[1] == LF then LF else CR;
        assert Decode(data) == [b] + Decode(data[2..]);
        assert data == EncodeByte(b) + data[2..];
      } else {
        assert forall i :: i == 1 < |data| ==> data[i] != LF;
        CanonicalTail(data, 1);
        EncodeDecodeCanonical(data[1..]);
        assert data[0] != LF;
        assert data == [data[0]] + data[1..];
      }
    }
  }

  /** Encoding undoes decoding exactly on proper NETASCII text. */
  lemma {:induction false} EncodeDecodeExactly(data: Bytes)
    ensures Encode(Decode(data)) == data <==> Canonical(data)
  {
    if Canonical(data) {
      EncodeDecodeCanonical(data);
    }
    EncodeIsCanonical(Decode(data));
  }

  /** The encoding is made of these pieces and no others (with EncodeConcat): LF becomes
      CR LF, CR becomes CR NUL, every other byte stands for itself. */
  lemma EncodePieces()
    ensures Encode([10]) == [13, 10] && Encode([13]) == [13, 0]
    ensures forall b: Byte :: b != 10 && b != 13 ==> Encode([b]) == [b]
  {
    forall b: Byte
      ensures Encode([b]) == EncodeByte(b)
    {
      assert Encode([b]) == EncodeByte(b) + Encode([b][1..]);
    }
  }

  /** And so is the decoding: apart from the two pairs every byte stands for itself, ... */
  lemma DecodePieces()
    ensures Decode([13, 10]) == [10] && Decode([13, 0]) == [13]
    ensures forall b: Byte :: Decode([b]) == [b]
  {
    assert Decode([13, 10]) == [10] + Decode([13, 10][2..]);
    assert Decode([13, 0]) == [13] + Decode([13, 0][2..]);
    forall b: Byte
      ensures Decode([b]) == [b]
    {
      assert Decode([b]) == [b] + Decode([b][1..]);
    }
  }

  /** ... and text can be decoded in parts wherever it does not cut such a pair. */
  lemma {:induction false} DecodeConcat(a: Bytes, b: Bytes)
    requires a == [] || b == [] || a[|a| - 1] != CR || b[0] !in {LF, NUL}
    ensures Decode(a + b) == Decode(a) + Decode(b)
    decreases |a|
  {
    if a == [] {
      assert a + b == b;
    } else if PairInFront(a) {
      DecodeConcat(a[2..], b);
      PairFirst(a, b);
    } else {
      DecodeConcat(a[1..], b);
      NoPairFirst(a, b, a + b);
    }
  }

  /** The first step of decoding takes a pair or one byte. */
  lemma DecodeFirst(s: Bytes)
    requires s != []
    ensures Decode(s)
         == if PairInFront(s) then [if s[1] == LF then LF else CR] + Decode(s[2..])
            else [s[0]] + Decode(s[1..])
  {
  }

  lemma Associates(a: Bytes, b: Bytes, c: Bytes)
    ensures (a + b) + c == a + (b + c)
  {
  }

  lemma PairFirst(a: Bytes, b: Bytes)
    requires PairInFront(a) && Decode(a[2..] + b) == Decode(a[2..]) + Decode(b)
    ensures Decode(a + b) == Decode(a) + Decode(b)
  {
    var s, x := a + b, Decode(a[2..]);
    assert s[0] == a[0] && s[1] == a[1] && s[2..] == a[2..] + b;
    DecodeFirst(s);
    DecodeFirst(a);
    Associates([if a[1] == LF then LF else CR], x, Decode(b));
  }

  lemma NoPairFirst(a: Bytes, b: Bytes, s: Bytes)
    requires a != [] && s == a + b && !PairInFront(a) && !PairInFront(s)
    requires Decode(a[1..] + b) == Decode(a[1..]) + Decode(b)
    ensures Decode(s) == Decode(a) + Decode(b)
  {
    assert s[0] == a[0] && s[1..] == a[1..] + b;
    DecodeFirst(s);
    DecodeFirst(a);
    Associates([a[0]], Decode(a[1..]), Decode(b));
  }

  predicate PairInFront(s: Bytes) {
    |s| > 1 && s[0] == CR && s[1] in {LF, NUL}
  }

  /** A CR LF or CR NUL, which decoding makes one byte. */
  ghost predicate HasCrPair(data: Bytes) {
    exists i :: 0 <= i < |data| - 1 && CrPairAt(data, i)
  }

  predicate CrPairAt(data: Bytes, i: nat)
    requires i < |data| - 1
  {
    data[i] == CR && data[i + 1] in {LF, NUL}
  }

  /** Decoding leaves exactly those byte strings alone that have no such pair. */
  lemma {:induction false} DecodeIdentity(data: Bytes)
    ensures Decode(data) == data <==> !HasCrPair(data)
  {
    if |data| > 1 && CrPairAt(data, 0) {
      assert |Decode(data)| < |data|;
    } else if data != [] {
      DecodeIdentity(data[1..]);
      PairFurtherOn(data);
      assert Decode(data) == [data[0]] + Decode(data[1..]);
      assert data == [data[0]] + data[1..];
      assert Decode(data)[1..] == Decode(data[1..]);
    }
  }

  lemma PairFurtherOn(data: Bytes)
    requires data != [] && (|data| > 1 ==> !CrPairAt(data, 0))
    ensures HasCrPair(data) <==> HasCrPair(data[1..])
  {
    if i :| 0 <= i < |data| - 1 && CrPairAt(data, i) {
      assert CrPairAt(data[1..], i - 1);
    }
    if i :| 0 <= i < |data[1..]| - 1 && CrPairAt(data[1..], i) {
      assert CrPairAt(data, i + 1);
    }
  }
}

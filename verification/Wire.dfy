/** The wire-level vocabulary shared by every transfer: bytes, 16-bit block
    numbers with their wrap-around, and DATA packets. */
module Wire {
  type Byte = b: int | 0 <= b < 256
  type Bytes = seq<Byte>
  type U16 = n: int | 0 <= n < 65536

  const MAX_RETRIES: nat := 5

  datatype Option<+T> = None | Some(value: T)

  datatype Packet = Data(number: U16, payload: Bytes)

  function Min(a: int, b: int): int {
    if a <= b then a else b
  }

  /** The number that block `index` (counted from 1, without bound) carries on the wire. */
  function Number(index: nat): U16 {
    index % 65536
  }

  function WrappingAdd(a: U16, b: U16): U16 {
    (a + b) % 65536
  }

  /** Dafny's `%` is never negative, so this is the wrapping subtraction of u16. */
  function WrappingSub(a: U16, b: U16): U16 {
    (a - b) % 65536
  }

  /** The half-range test both ends use to recognise an old block number. */
  predicate IsBehind(expected: U16, number: U16) {
    0 < WrappingSub(expected, number) < 32768
  }

  lemma NumberSucc(index: nat)
    ensures Number(index + 1) == WrappingAdd(Number(index), 1)
  {
  }

  /** Wrapping subtraction undoes wrapping addition, and measures distances below one turn. */
  lemma WrapUndo(a: U16)
    ensures WrappingSub(WrappingAdd(a, 1), 1) == a
  {
    if a == 65535 {
      assert WrappingAdd(a, 1) == 0;
    } else {
      assert WrappingAdd(a, 1) == a + 1;
    }
  }

  lemma WrapDistance(i: nat, j: nat)
    requires j <= i < j + 65536
    ensures WrappingSub(Number(i), Number(j)) == i - j
  {
    var turns, turns' := i / 65536, j / 65536;
    assert turns == turns' || turns == turns' + 1;
  }

  /** Two indices less than one full turn apart share a number only if they are equal. */
  lemma SameNumber(i: nat, j: nat)
    requires Number(i) == Number(j)
    requires -65536 < i - j < 65536
    ensures i == j
  {
  }

  /** The half-range test read on indices: within one turn it holds exactly for
      indices 1 to 32767 behind, or at least 32769 ahead. */
  lemma BehindMeaning(expected: nat, index: nat)
    requires -65536 < expected - index < 65536
    ensures IsBehind(Number(expected), Number(index))
            <==> 0 < expected - index < 32768 || index - expected > 32768
  {
    if index <= expected {
      WrapDistance(expected, index);
    } else {
      WrapNegative(expected, index);
    }
  }

  lemma WrapNegative(i: nat, j: nat)
    requires i < j < i + 65536
    ensures WrappingSub(Number(i), Number(j)) == 65536 - (j - i)
  {
    var turns, turns' := i / 65536, j / 65536;
    assert turns' == turns || turns' == turns + 1;
  }

  function Flatten<T>(parts: seq<seq<T>>): seq<T> {
    if parts == [] then [] else parts[0] + Flatten(parts[1..])
  }

  lemma {:induction false} FlattenConcat<T>(a: seq<seq<T>>, b: seq<seq<T>>)
    ensures Flatten(a + b) == Flatten(a) + Flatten(b)
  {
    if a == [] {
      assert a + b == b;
    } else {
      assert (a + b)[0] == a[0] && (a + b)[1..] == a[1..] + b;
      FlattenConcat(a[1..], b);
    }
  }

  lemma FlattenOne<T>(part: seq<T>)
    ensures Flatten([part]) == part
  {
    assert Flatten([part]) == part + Flatten([part][1..]);
  }

  lemma FlattenSnoc<T>(a: seq<seq<T>>, part: seq<T>)
    ensures Flatten(a + [part]) == Flatten(a) + part
  {
    FlattenConcat(a, [part]);
    FlattenOne(part);
  }
}

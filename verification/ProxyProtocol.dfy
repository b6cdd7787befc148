/** Reading a PROXY protocol header from a TCP stream: version 1 (section 2.1 of the
    PROXY protocol specification), where the bytes in sight when the reader peeks decide
    between a fast path and a byte loop, and the consumption of version 2 (section 2.2). */
module ProxyProtocol {
  import opened Wire

  const NEWLINE: Byte := 10
  const PEEK_SIZE: nat := 96

  /** The bytes the peer will send before it closes, and how many have been read. */
  class Stream {
    const bytes: Bytes
    var position: nat

    ghost predicate Valid()
      reads this
    {
      position <= |bytes|
    }

    ghost function Rest(): Bytes
      requires Valid()
      reads this
    {
      bytes[position..]
    }

    constructor (bytes: Bytes)
      ensures Valid() && this.bytes == bytes && position == 0
    {
      this.bytes := bytes;
      position := 0;
    }

    /** read_exact: all of `count` bytes, or nothing with the stream at its end. */
    method ReadExact(count: nat) returns (r: Option<Bytes>)
      requires Valid()
      modifies this
      ensures Valid()
      ensures if count <= |bytes| - old(position)
              then r == Some(bytes[old(position)..old(position) + count]) && position == old(position) + count
              else r == None && position == |bytes|
    {
      if count > |bytes| - position {
        position := |bytes|;
        return None;
      }
      r := Some(bytes[position..position + count]);
      position := position + count;
    }
  }

  // ------------------------------------------------------------ version 1

  /** The index of the first newline, or the length if there is none. */
  function FirstNewline(s: Bytes): (i: nat)
    ensures i <= |s|
    ensures i < |s| ==> s[i] == NEWLINE
    ensures forall k :: 0 <= k < i ==> s[k] != NEWLINE
  {
    if s == [] || s[0] == NEWLINE then 0 else 1 + FirstNewline(s[1..])
  }

  /** What reading a line after the 12 initial bytes comes to, with no mention of peeking:
      the rest of the line, if its newline is among the next 96 bytes. */
  function LineOf(rest: Bytes): Option<Bytes> {
    var i := FirstNewline(rest);
    if i < |rest| && i < PEEK_SIZE then Some(rest[..i + 1]) else None
  }

  /** A line is accepted if and only if it begins what is left, its one newline ends it, and
      with the 12 bytes before it has at most 108. */
  lemma LineExactly(rest: Bytes, line: Bytes)
    ensures LineOf(rest) == Some(line)
            <==> line <= rest && line != [] && 12 + |line| <= 108 && line[|line| - 1] == 10
                 && forall k :: 0 <= k < |line| - 1 ==> line[k] != 10
  {
    if line <= rest && line != [] && line[|line| - 1] == 10 && forall k :: 0 <= k < |line| - 1 ==> line[k] != 10 {
      NewlineAt(rest, |line| - 1);
      assert rest[..|line|] == line;
    }
  }

  lemma NewlineAt(s: Bytes, i: nat)
    requires i <= |s| && (forall k :: 0 <= k < i ==> s[k] != NEWLINE)
    requires i < |s| ==> s[i] == NEWLINE
    ensures FirstNewline(s) == i
  {
  }

  /** read_v1 up to its parsing. `visible` is how many bytes have arrived when it peeks:
      any number from 1 to 96 that the stream still holds, 0 only at its end. The header
      it returns, and on success the position it leaves, do not depend on it: lines of up
      to 108 bytes are accepted on both paths. */
  method ReadV1(stream: Stream, initial: Bytes, visible: nat) returns (header: Option<Bytes>)
    requires stream.Valid() && |initial| == 12
    requires visible <= Min(PEEK_SIZE, |stream.Rest()|) && (visible == 0 <==> stream.Rest() == [])
    modifies stream
    ensures stream.Valid()
    ensures var line := LineOf(old(stream.Rest()));
            && (line.Some? ==> header == Some(initial + line.value)
                               && stream.position == old(stream.position) + |line.value|)
            && (line.None? ==> header == None)
  {
    if visible == 0 {
      return None;
    }
    ghost var rest := stream.Rest();
    var start := stream.position;
    var peeked := stream.bytes[start..start + visible];
    assert peeked == rest[..visible];
    var pos := FirstNewline(peeked);
    if pos < |peeked| {
      NewlineAt(rest, pos);
      var buf := stream.ReadExact(pos + 1);
      assert rest[..pos + 1] == stream.bytes[start..start + (pos + 1)];
      return Some(initial + buf.value);
    }
    assert forall k :: 0 <= k < visible ==> rest[k] == peeked[k];
    if |initial| + visible > 107 {
      assert FirstNewline(rest) >= visible;
      return None;
    }
    header := ReadByteByByte(stream, initial, rest);
  }

  /** The fallback loop. */
  method ReadByteByByte(stream: Stream, initial: Bytes, ghost rest: Bytes) returns (result: Option<Bytes>)
    requires stream.Valid() && |initial| == 12 && rest == stream.Rest()
    modifies stream
    ensures stream.Valid()
    ensures var line := LineOf(rest);
            && (line.Some? ==> result == Some(initial + line.value)
                               && stream.position == old(stream.position) + |line.value|)
            && (line.None? ==> result == None)
  {
    var header := initial;
    ghost var start := stream.position;
    while true
      invariant stream.Valid() && start <= stream.position
      invariant var n := stream.position - start;
                n < PEEK_SIZE && n <= |rest| && header == initial + rest[..n]
      invariant forall k :: 0 <= k < stream.position - start ==> rest[k] != NEWLINE
      decreases |stream.bytes| - stream.position
    {
      ghost var n := stream.position - start;
      var byte := stream.ReadExact(1);
      if byte == None {
        NewlineAt(rest, n);
        return None;
      }
      assert byte.value[0] == rest[n];
      assert rest[..n + 1] == rest[..n] + [rest[n]];
      header := header + [byte.value[0]];
      assert header == initial + rest[..n + 1];
      if byte.value[0] == NEWLINE {
        NewlineAt(rest, n);
        return Some(header);
      }
      if |header| > 107 {
        return None;
      }
    }
  }

  // ------------------------------------------------------------ version 2

  /** What the fixed four bytes after the signature announce. */
  datatype V2Header = V2Header(version: nat, command: nat, family: nat, length: nat)

  function ParseV2(rest: Bytes): V2Header
    requires |rest| == 4
  {
    V2Header(rest[0] / 16, rest[0] % 16, rest[1] / 16, (rest[2] as int) * 256 + rest[3])
  }

  /** The address and port of the client: four bytes of IPv4 or sixteen of IPv6. */
  datatype Source = Source(ip: Bytes, port: nat)

  /** The bytes of addresses and ports that are read: 12 for IPv4, 36 for IPv6. */
  function AddressSize(family: nat): nat {
    if family == 1 then 12 else if family == 2 then 36 else 0
  }

  /** The headers for which an address is returned. */
  predicate Understood(h: V2Header) {
    && h.version == 2 && h.length <= 512 && h.command == 1
    && h.family in {1, 2} && h.length >= AddressSize(h.family)
  }

  /** Source address, destination address, source port, destination port. */
  function SourceOf(addresses: Bytes): Source
    requires |addresses| in {12, 36}
  {
    var n := if |addresses| == 12 then 4 else 16;
    Source(addresses[..n], (addresses[2 * n] as int) * 256 + addresses[2 * n + 1])
  }

  /** What a stream that goes on with `rest` behind the signature tells about the client. */
  function ReadSource(rest: Bytes): Option<Source> {
    if |rest| < 4 then None
    else
      var h := ParseV2(rest[..4]);
      if Understood(h) && |rest| >= 4 + AddressSize(h.family) then Some(SourceOf(rest[4..4 + AddressSize(h.family)]))
      else None
  }

  function Word16(n: nat): Bytes
    requires n < 65536
  {
    [n / 256, n % 256]
  }

  /** What a proxy writes behind the signature (section 2.2), `extra` being its extensions. */
  function WriteV2(command: nat, transport: nat, source: Source, destination: Source, extra: Bytes): Bytes
    requires command < 16 && transport < 16 && |source.ip| == |destination.ip| && |source.ip| in {4, 16}
    requires source.port < 65536 && destination.port < 65536 && |extra| < 65000
  {
    var addresses := source.ip + destination.ip + Word16(source.port) + Word16(destination.port);
    [2 * 16 + command, (if |source.ip| == 4 then 1 else 2) * 16 + transport]
    + Word16(|addresses| + |extra|) + addresses + extra
  }

  /** The server learns the address of the client from what the proxy writes, for either
      family, with any extensions that keep the limit of 512 bytes, exactly if the command
      is PROXY. */
  lemma SourceRoundTrip(command: nat, transport: nat, source: Source, destination: Source, extra: Bytes, behind: Bytes)
    requires command < 16 && transport < 16 && |source.ip| == |destination.ip| && |source.ip| in {4, 16}
    requires source.port < 65536 && destination.port < 65536 && |extra| < 65000
    ensures ReadSource(WriteV2(command, transport, source, destination, extra) + behind)
         == if command == 1 && 2 * |source.ip| + 4 + |extra| <= 512 then Some(source) else None
  {
    var n := |source.ip|;
    var addresses := source.ip + destination.ip + Word16(source.port) + Word16(destination.port);
    var rest := WriteV2(command, transport, source, destination, extra) + behind;
    var family, length := if n == 4 then 1 else 2, |addresses| + |extra|;
    assert rest[0] == 2 * 16 + command && rest[1] == family * 16 + transport;
    assert rest[2] == length / 256 && rest[3] == length % 256;
    assert ParseV2(rest[..4]) == V2Header(2, command, family, length);
    assert rest[4..4 + |addresses|] == addresses;
    AddressesExactly(source, destination);
  }

  lemma AddressesExactly(source: Source, destination: Source)
    requires |source.ip| == |destination.ip| && |source.ip| in {4, 16}
    requires source.port < 65536 && destination.port < 65536
    ensures var addresses := source.ip + destination.ip + Word16(source.port) + Word16(destination.port);
            |addresses| in {12, 36} && SourceOf(addresses) == source
  {
    var n := |source.ip|;
    var addresses := source.ip + destination.ip + Word16(source.port) + Word16(destination.port);
    assert addresses[..n] == source.ip;
    assert addresses[2 * n] == source.port / 256 && addresses[2 * n + 1] == source.port % 256;
  }

  /** Discards `length` bytes in pieces of at most 256, or what is left of the stream. */
  method Discard(stream: Stream, length: nat)
    requires stream.Valid()
    modifies stream
    ensures stream.Valid() && stream.position == Min(old(stream.position) + length, |stream.bytes|)
  {
    var remaining := length;
    while remaining > 0
      invariant stream.Valid() && 0 <= remaining <= length
      invariant stream.position == old(stream.position) + (length - remaining)
    {
      var toRead := Min(remaining, 256);
      var r := stream.ReadExact(toRead);
      if r == None {
        break;
      }
      remaining := remaining - toRead;
    }
  }

  /** read_v2. On every branch, accepted or not, the stream is left just behind the
      announced length, or at its end if it is shorter, so that what follows the header is
      never read as part of it. */
  method ReadV2(stream: Stream) returns (source: Option<Source>)
    requires stream.Valid()
    modifies stream
    ensures stream.Valid()
    ensures source == ReadSource(old(stream.Rest()))
    ensures |old(stream.Rest())| < 4 ==> stream.position == |stream.bytes|
    ensures |old(stream.Rest())| >= 4 ==>
              stream.position == Min(old(stream.position) + 4 + ParseV2(old(stream.Rest())[..4]).length, |stream.bytes|)
  {
    ghost var all := stream.Rest();
    var fixed := stream.ReadExact(4);
    if fixed == None {
      return None;
    }
    assert fixed.value == all[..4];
    var h := ParseV2(fixed.value);
    if h.version != 2 || h.length > 512 || h.command != 1 {
      Discard(stream, h.length);
      return None;
    }
    var size := AddressSize(h.family);
    if size == 0 || h.length < size {
      Discard(stream, h.length);
      return None;
    }
    var addresses := stream.ReadExact(size);
    if addresses == None {
      return None;
    }
    assert addresses.value == all[4..4 + size];
    if h.length > size {
      Discard(stream, h.length - size);
    }
    source := Some(SourceOf(addresses.value));
  }
}

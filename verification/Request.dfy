/** The read request from the client's writer to the server's negotiated options
    (RFC 1350, section 5; RFC 2347, 2348, 7440). Texts are byte strings. */
module Request {
  import opened Wire

  const DEFAULT_BLOCK_SIZE: nat := 512
  const MAX_BLOCK_SIZE: nat := 65464
  const DEFAULT_TIMEOUT: nat := 5
  const MAX_STRING_LENGTH: nat := 255
  const USIZE_LIMIT: nat := 0x1_0000_0000_0000_0000

  const BLKSIZE: Bytes := [98, 108, 107, 115, 105, 122, 101]
  const WINDOWSIZE: Bytes := [119, 105, 110, 100, 111, 119, 115, 105, 122, 101]
  const TIMEOUT: Bytes := [116, 105, 109, 101, 111, 117, 116]
  const TSIZE: Bytes := [116, 115, 105, 122, 101]
  const NETASCII: Bytes := [110, 101, 116, 97, 115, 99, 105, 105]
  const OCTET: Bytes := [111, 99, 116, 101, 116]
  const MAIL: Bytes := [109, 97, 105, 108]

  // ------------------------------------------------------------ decimal numbers

  function Decimal(n: nat): (s: Bytes)
    ensures s != []
  {
    if n < 10 then [48 + n] else Decimal(n / 10) + [48 + n % 10]
  }

  predicate AllDigits(s: Bytes) {
    forall i :: 0 <= i < |s| ==> 48 <= s[i] <= 57
  }

  function Value(s: Bytes): nat
    requires AllDigits(s)
  {
    if s == [] then 0 else Value(s[..|s| - 1]) * 10 + ((s[|s| - 1] as int) - 48)
  }

  /** str::parse::<usize>: an optional plus sign, digits, no overflow. */
  function ParseNumber(s: Bytes): Option<nat> {
    var digits := if s != [] && s[0] == 43 then s[1..] else s;
    if digits == [] || !AllDigits(digits) || Value(digits) >= USIZE_LIMIT then None else Some(Value(digits))
  }

  lemma {:induction false} DecimalDigits(n: nat)
    ensures AllDigits(Decimal(n)) && Value(Decimal(n)) == n
  {
    if n >= 10 {
      DecimalDigits(n / 10);
      var s := Decimal(n);
      assert s[..|s| - 1] == Decimal(n / 10);
    } else {
      assert Decimal(n)[..0] == [];
    }
  }

  function Power10(k: nat): nat {
    if k == 0 then 1 else 10 * Power10(k - 1)
  }

  lemma {:induction false} DecimalLength(n: nat, k: nat)
    requires k >= 1 && n < Power10(k)
    ensures |Decimal(n)| <= k
  {
    if n >= 10 {
      assert k > 1 && n / 10 < Power10(k - 1);
      DecimalLength(n / 10, k - 1);
    }
  }

  /** Printing a number and parsing it again, for every usize. */
  lemma PrintParse(n: nat)
    requires n < USIZE_LIMIT
    ensures ParseNumber(Decimal(n)) == Some(n)
    ensures |Decimal(n)| <= 20 && 0 !in Decimal(n)
  {
    DecimalDigits(n);
    assert Power10(10) == 1_00000_00000;
    assert Power10(20) == 1_00000_00000_00000_00000;
    DecimalLength(n, 20);
  }

  function Zeros(count: nat): Bytes {
    if count == 0 then [] else Zeros(count - 1) + [48]
  }

  lemma {:induction false} ZerosValue(zeros: nat)
    ensures AllDigits(Zeros(zeros)) && Value(Zeros(zeros)) == 0
  {
    if zeros > 0 {
      ZerosValue(zeros - 1);
      assert Zeros(zeros)[..|Zeros(zeros)| - 1] == Zeros(zeros - 1);
    }
  }

  lemma {:induction false} ZerosBefore(zeros: nat, s: Bytes)
    requires AllDigits(s)
    ensures AllDigits(Zeros(zeros) + s) && Value(Zeros(zeros) + s) == Value(s)
    decreases |s|
  {
    ZerosValue(zeros);
    if s == [] {
      assert Zeros(zeros) + s == Zeros(zeros);
    } else {
      var n := |s| - 1;
      ZerosBefore(zeros, s[..n]);
      ValueSnoc(Zeros(zeros) + s[..n], s[n]);
      assert Zeros(zeros) + s == (Zeros(zeros) + s[..n]) + [s[n]];
    }
  }

  lemma ValueSnoc(s: Bytes, digit: Byte)
    requires AllDigits(s) && 48 <= digit <= 57
    ensures AllDigits(s + [digit]) && Value(s + [digit]) == Value(s) * 10 + ((digit as int) - 48)
  {
    assert (s + [digit])[..|s|] == s;
  }

  lemma {:induction false} LeadingZeros(s: Bytes) returns (zeros: nat)
    requires s != [] && AllDigits(s)
    ensures s == Zeros(zeros) + Decimal(Value(s))
  {
    var n, last := |s| - 1, s[|s| - 1];
    assert s == s[..n] + [last];
    if n == 0 {
      assert Value(s[..0]) == 0;
      zeros := 0;
      assert Zeros(0) + Decimal(Value(s)) == [last];
    } else {
      zeros := LeadingZeros(s[..n]);
      var v := Value(s[..n]);
      if v == 0 {
        assert Decimal(Value(s)) == [last] && Zeros(zeros + 1) == Zeros(zeros) + [48];
        assert s == Zeros(zeros + 1) + [last];
        zeros := zeros + 1;
      } else {
        assert Value(s) == v * 10 + ((last as int) - 48);
        assert Value(s) / 10 == v && Value(s) % 10 == (last as int) - 48;
        assert Decimal(Value(s)) == Decimal(v) + [last];
        assert Zeros(zeros) + (Decimal(v) + [last]) == (Zeros(zeros) + Decimal(v)) + [last];
      }
    }
  }

  /** The text is the number in decimal, after zeros and perhaps a plus sign. */
  ghost predicate Denotes(s: Bytes, n: nat) {
    exists zeros: nat :: s == Zeros(zeros) + Decimal(n) || s == [43] + (Zeros(zeros) + Decimal(n))
  }

  /** Parsing is the inverse of printing up to these, and refuses what does not fit. */
  lemma {:induction false} ParseExactly(s: Bytes, n: nat)
    ensures ParseNumber(s) == Some(n) <==> Denotes(s, n) && n < USIZE_LIMIT
  {
    if ParseNumber(s) == Some(n) {
      ParsedDenotes(s, n);
    }
    if Denotes(s, n) {
      DenotedParses(s, n);
    }
  }

  lemma {:induction false} ParsedDenotes(s: Bytes, n: nat)
    requires ParseNumber(s) == Some(n)
    ensures Denotes(s, n)
  {
    var digits := if s[0] == 43 then s[1..] else s;
    var zeros := LeadingZeros(digits);
    assert s == digits || s == [43] + digits;
  }

  lemma {:induction false} DenotedParses(s: Bytes, n: nat)
    requires Denotes(s, n)
    ensures ParseNumber(s) == if n < USIZE_LIMIT then Some(n) else None
  {
    var zeros: nat :| s == Zeros(zeros) + Decimal(n) || s == [43] + (Zeros(zeros) + Decimal(n));
    DenotesDigits(zeros, n);
    ParseDigits(Zeros(zeros) + Decimal(n), n);
  }

  lemma {:induction false} ParseDigits(digits: Bytes, n: nat)
    requires digits != [] && AllDigits(digits) && Value(digits) == n && digits[0] != 43
    ensures ParseNumber(digits) == (if n < USIZE_LIMIT then Some(n) else None)
    ensures ParseNumber([43] + digits) == ParseNumber(digits)
  {
    assert ([43] + digits)[1..] == digits;
  }

  lemma {:induction false} DenotesDigits(zeros: nat, n: nat)
    ensures var digits := Zeros(zeros) + Decimal(n);
            digits != [] && AllDigits(digits) && Value(digits) == n && digits[0] != 43
  {
    DecimalDigits(n);
    ZerosBefore(zeros, Decimal(n));
  }

  // ------------------------------------------------------------ strings in a packet

  function FirstNul(s: Bytes): (i: nat)
    ensures i <= |s|
    ensures i < |s| ==> s[i] == 0
    ensures forall k :: 0 <= k < i ==> s[k] != 0
  {
    if s == [] || s[0] == 0 then 0 else 1 + FirstNul(s[1..])
  }

  datatype Text = Text(text: Bytes, rest: Bytes)

  /** parse_string. `utf8` is the standard library's test of an encoding. */
  function ParseString(bytes: Bytes, utf8: Bytes -> bool): Option<Text> {
    if |bytes| > MAX_STRING_LENGTH && 0 !in bytes[..MAX_STRING_LENGTH] then None
    else
      var nul := FirstNul(bytes);
      if nul == |bytes| || nul > MAX_STRING_LENGTH || !utf8(bytes[..nul]) then None
      else Some(Text(bytes[..nul], bytes[nul + 1..]))
  }

  lemma ParseField(s: Bytes, rest: Bytes, utf8: Bytes -> bool)
    requires 0 !in s && utf8(s)
    ensures |s| < MAX_STRING_LENGTH ==> ParseString(s + [0] + rest, utf8) == Some(Text(s, rest))
    ensures |s| >= MAX_STRING_LENGTH ==> ParseString(s + [0] + rest, utf8) == None
  {
    var bytes := s + [0] + rest;
    assert bytes[|s|] == 0;
    assert forall k :: 0 <= k < |s| ==> bytes[k] == s[k];
    assert FirstNul(bytes) == |s|;
    assert bytes[..|s|] == s && bytes[|s| + 1..] == rest;
    if |s| < MAX_STRING_LENGTH < |bytes| {
      assert bytes[..MAX_STRING_LENGTH][|s|] == 0;
    }
  }

  /** parse_null_terminated_string of the worker pool, which knows no limit. */
  function PoolString(bytes: Bytes, utf8: Bytes -> bool): Option<Text> {
    var nul := FirstNul(bytes);
    if nul == |bytes| || !utf8(bytes[..nul]) then None else Some(Text(bytes[..nul], bytes[nul + 1..]))
  }

  /** Its loop takes one byte after the other off the packet. */
  method PoolStringLoop(bytes: Bytes, utf8: Bytes -> bool) returns (r: Option<Text>)
    ensures r == PoolString(bytes, utf8)
  {
    var result: Bytes, rest := [], bytes;
    while rest != []
      invariant bytes == result + rest
      invariant 0 !in result
      decreases |rest|
    {
      var byte := rest[0];
      rest := rest[1..];
      if byte == 0 {
        NulAt(bytes, |result|);
        assert bytes[..|result|] == result && bytes[|result| + 1..] == rest;
        return if utf8(result) then Some(Text(result, rest)) else None;
      }
      result := result + [byte];
    }
    NulAt(bytes, |bytes|);
    r := None;
  }

  lemma NulAt(s: Bytes, i: nat)
    requires i <= |s| && (i < |s| ==> s[i] == 0) && (forall k :: 0 <= k < i ==> s[k] != 0)
    ensures FirstNul(s) == i
  {
  }

  /** The two parsers agree on every packet except one of more than 255 bytes whose first
      255 hold no terminator: that one only the pool accepts. */
  lemma ParsersAgree(bytes: Bytes, utf8: Bytes -> bool)
    ensures ParseString(bytes, utf8)
         == if |bytes| > MAX_STRING_LENGTH && FirstNul(bytes) >= MAX_STRING_LENGTH then None
            else PoolString(bytes, utf8)
  {
    if |bytes| > MAX_STRING_LENGTH {
      var head := bytes[..MAX_STRING_LENGTH];
      if 0 in head {
        var k :| 0 <= k < |head| && head[k] == 0;
        assert bytes[k] == 0;
      }
    }
  }

  // ------------------------------------------------------------ the client's writer

  function Field(s: Bytes): Bytes {
    s + [0]
  }

  /** The option part of the request `get` writes: only what differs from the defaults. */
  function WrittenOptions(blockSize: nat, windowSize: nat): Bytes {
    (if blockSize != DEFAULT_BLOCK_SIZE then Field(BLKSIZE) + Field(Decimal(blockSize)) else [])
    + (if windowSize > 1 then Field(WINDOWSIZE) + Field(Decimal(windowSize)) else [])
  }

  method WriteRrq(file: Bytes, mode: Bytes, blockSize: nat, windowSize: nat) returns (packet: Bytes)
    ensures packet == [0, 1] + Field(file) + Field(mode) + WrittenOptions(blockSize, windowSize)
  {
    packet := [0, 1];
    packet := packet + file;
    packet := packet + [0];
    packet := packet + mode;
    packet := packet + [0];
    ghost var head := packet;
    assert head == [0, 1] + Field(file) + Field(mode);
    if blockSize != DEFAULT_BLOCK_SIZE {
      packet := packet + BLKSIZE;
      packet := packet + [0];
      packet := packet + Decimal(blockSize);
      packet := packet + [0];
    }
    ghost var first := if blockSize != DEFAULT_BLOCK_SIZE then Field(BLKSIZE) + Field(Decimal(blockSize)) else [];
    assert packet == head + first;
    if windowSize > 1 {
      packet := packet + WINDOWSIZE;
      packet := packet + [0];
      packet := packet + Decimal(windowSize);
      packet := packet + [0];
    }
  }

  // ------------------------------------------------------------ the server's parser

  /** to_lowercase, for ASCII letters. */
  function Lower(s: Bytes): Bytes {
    seq(|s|, i requires 0 <= i < |s| => if 65 <= s[i] <= 90 then s[i] + 32 else s[i])
  }

  datatype Mode = Netascii | Octet | Mail

  function ParseMode(s: Bytes): Option<Mode> {
    if Lower(s) == NETASCII then Some(Netascii)
    else if Lower(s) == OCTET then Some(Octet)
    else if Lower(s) == MAIL then Some(Mail)
    else None
  }

  function ModeText(mode: Mode): Bytes {
    match mode
    case Netascii => NETASCII
    case Octet => OCTET
    case Mail => MAIL
  }

  /** The option loop: it stops quietly at the first text it cannot parse. */
  function ParseOptions(bytes: Bytes, utf8: Bytes -> bool, requested: map<Bytes, Bytes>): map<Bytes, Bytes>
    decreases |bytes|
  {
    if bytes == [] then requested
    else
      match ParseString(bytes, utf8)
      case None => requested
      case Some(name) =>
        match ParseString(name.rest, utf8)
        case None => requested
        case Some(value) => ParseOptions(value.rest, utf8, requested[Lower(name.text) := value.text])
  }

  method ParseOptionsLoop(bytes: Bytes, utf8: Bytes -> bool) returns (requested: map<Bytes, Bytes>)
    ensures requested == ParseOptions(bytes, utf8, map[])
  {
    var rest := bytes;
    requested := map[];
    while rest != []
      invariant ParseOptions(rest, utf8, requested) == ParseOptions(bytes, utf8, map[])
      decreases |rest|
    {
      var name := ParseString(rest, utf8);
      if name == None {
        break;
      }
      var value := ParseString(name.value.rest, utf8);
      if value == None {
        break;
      }
      rest := value.value.rest;
      requested := requested[Lower(name.value.text) := value.value.text];
    }
  }

  datatype Parsed = Parsed(file: Bytes, mode: Mode, requested: map<Bytes, Bytes>)

  /** The request after its opcode. MAIL is parsed here and refused by the caller. */
  function ParseRequest(bytes: Bytes, utf8: Bytes -> bool): Option<Parsed> {
    match ParseString(bytes, utf8)
    case None => None
    case Some(file) =>
      match ParseString(file.rest, utf8)
      case None => None
      case Some(modeText) =>
        match ParseMode(modeText.text)
        case None => None
        case Some(mode) => Some(Parsed(file.text, mode, ParseOptions(modeText.rest, utf8, map[])))
  }

  // ------------------------------------------------------------ negotiation

  /** `acked` is what the OACK will name. */
  datatype Options = Options(blockSize: nat, timeout: nat, windowSize: nat, acked: map<Bytes, Bytes>)

  function Defaults(defaultWindow: nat): Options {
    Options(DEFAULT_BLOCK_SIZE, DEFAULT_TIMEOUT, defaultWindow, map[])
  }

  /** One iteration of the negotiation loop. */
  function Apply(o: Options, name: Bytes, value: Bytes): Options {
    var n := ParseNumber(value);
    if name == BLKSIZE && n.Some? && 8 <= n.value <= MAX_BLOCK_SIZE then
      o.(blockSize := n.value, acked := o.acked[BLKSIZE := Decimal(n.value)])
    else if name == TIMEOUT && n.Some? && 1 <= n.value <= 255 then
      o.(timeout := n.value, acked := o.acked[TIMEOUT := Decimal(n.value)])
    else if name == TSIZE && n.Some? then
      o.(acked := o.acked[TSIZE := [48]])
    else if name == WINDOWSIZE && n.Some? && 1 <= n.value <= 65535 then
      o.(windowSize := n.value, acked := o.acked[WINDOWSIZE := Decimal(n.value)])
    else o
  }

  /** The value of an option if it was requested with a number in its range. */
  function Accepted(requested: map<Bytes, Bytes>, name: Bytes, low: int, high: int): Option<nat>
    requires low >= 0
  {
    if name in requested && ParseNumber(requested[name]).Some? && low <= ParseNumber(requested[name]).value <= high
    then Some(ParseNumber(requested[name]).value) else None
  }

  function Or(o: Option<nat>, default: nat): nat {
    if o.Some? then o.value else default
  }

  /** How one option came out: its value, and its place in the OACK. */
  ghost predicate Settled(requested: map<Bytes, Bytes>, name: Bytes, low: nat, high: nat, default: nat,
                          current: nat, acked: map<Bytes, Bytes>) {
    var accepted := Accepted(requested, name, low, high);
    && current == Or(accepted, default)
    && (name in acked <==> accepted.Some?)
    && (accepted.Some? ==> acked[name] == Decimal(current))
  }

  /** The outcome of the negotiation, in terms of the requested map alone. The size of the
      file is filled in for tsize later. */
  ghost predicate Negotiated(requested: map<Bytes, Bytes>, defaultWindow: nat, o: Options) {
    && Settled(requested, BLKSIZE, 8, MAX_BLOCK_SIZE, DEFAULT_BLOCK_SIZE, o.blockSize, o.acked)
    && Settled(requested, TIMEOUT, 1, 255, DEFAULT_TIMEOUT, o.timeout, o.acked)
    && Settled(requested, WINDOWSIZE, 1, 65535, defaultWindow, o.windowSize, o.acked)
    && (TSIZE in o.acked <==> Accepted(requested, TSIZE, 0, USIZE_LIMIT).Some?)
    && (TSIZE in o.acked ==> o.acked[TSIZE] == [48])
    && o.acked.Keys <= {BLKSIZE, TIMEOUT, WINDOWSIZE, TSIZE}
  }

  lemma AcceptedAfter(requested: map<Bytes, Bytes>, name: Bytes, value: Bytes, other: Bytes, low: nat, high: nat)
    requires name !in requested
    ensures var n := ParseNumber(value);
            Accepted(requested[name := value], other, low, high)
            == if other != name then Accepted(requested, other, low, high)
               else if n.Some? && low <= n.value <= high then n else None
    ensures Accepted(requested, name, low, high) == None
  {
  }

  lemma OtherOption(requested: map<Bytes, Bytes>, name: Bytes, value: Bytes, o: Options, o': Options,
                    other: Bytes, low: nat, high: nat, default: nat, current: nat)
    requires name !in requested && name != other
    requires Settled(requested, other, low, high, default, current, o.acked)
    requires other in o'.acked <==> other in o.acked
    requires other in o.acked ==> o'.acked[other] == o.acked[other]
    ensures Settled(requested[name := value], other, low, high, default, current, o'.acked)
  {
    AcceptedAfter(requested, name, value, other, low, high);
  }

  lemma ApplyOneMore(requested: map<Bytes, Bytes>, defaultWindow: nat, o: Options, name: Bytes, value: Bytes)
    requires name !in requested && Negotiated(requested, defaultWindow, o)
    ensures Negotiated(requested[name := value], defaultWindow, Apply(o, name, value))
  {
    NamesDiffer();
    var o' := Apply(o, name, value);
    AcceptedAfter(requested, name, value, TSIZE, 0, USIZE_LIMIT);
    if name != BLKSIZE {
      OtherOption(requested, name, value, o, o', BLKSIZE, 8, MAX_BLOCK_SIZE, DEFAULT_BLOCK_SIZE, o.blockSize);
    } else {
      AcceptedAfter(requested, name, value, BLKSIZE, 8, MAX_BLOCK_SIZE);
    }
    if name != TIMEOUT {
      OtherOption(requested, name, value, o, o', TIMEOUT, 1, 255, DEFAULT_TIMEOUT, o.timeout);
    } else {
      AcceptedAfter(requested, name, value, TIMEOUT, 1, 255);
    }
    if name != WINDOWSIZE {
      OtherOption(requested, name, value, o, o', WINDOWSIZE, 1, 65535, defaultWindow, o.windowSize);
    } else {
      AcceptedAfter(requested, name, value, WINDOWSIZE, 1, 65535);
    }
  }

  lemma NamesDiffer()
    ensures BLKSIZE != TIMEOUT && BLKSIZE != TSIZE && BLKSIZE != WINDOWSIZE
    ensures TIMEOUT != TSIZE && TIMEOUT != WINDOWSIZE && TSIZE != WINDOWSIZE
  {
    assert BLKSIZE[0] != TIMEOUT[0];
  }

  /** The negotiation loop. `order` is the order in which the hash map of requested
      options yields its entries; the outcome does not depend on it. */
  method Negotiate(requested: map<Bytes, Bytes>, order: seq<Bytes>, defaultWindow: nat) returns (o: Options)
    requires forall name :: name in order <==> name in requested
    requires forall i, j :: 0 <= i < j < |order| ==> order[i] != order[j]
    ensures Negotiated(requested, defaultWindow, o)
  {
    o := Defaults(defaultWindow);
    ghost var done: map<Bytes, Bytes> := map[];
    for i := 0 to |order|
      invariant Negotiated(done, defaultWindow, o)
      invariant forall name :: name in done <==> name in order[..i]
      invariant forall name :: name in done ==> name in requested && done[name] == requested[name]
    {
      var name := order[i];
      assert name in order;
      assert order[..i + 1] == order[..i] + [name];
      assert name !in order[..i];
      ApplyOneMore(done, defaultWindow, o, name, requested[name]);
      o := Apply(o, name, requested[name]);
      done := done[name := requested[name]];
    }
    assert order[..|order|] == order;
    assert done == requested;
  }

  // ------------------------------------------------------------ round trip

  predicate IsAscii(s: Bytes) {
    forall i :: 0 <= i < |s| ==> s[i] < 128
  }

  ghost predicate AcceptsAscii(utf8: Bytes -> bool) {
    forall s: Bytes :: IsAscii(s) ==> utf8(s)
  }

  /** Lower-case ASCII letters: what option names and modes are made of. */
  predicate IsWord(s: Bytes) {
    forall i :: 0 <= i < |s| ==> 97 <= s[i] <= 122
  }

  lemma WordFacts(s: Bytes)
    requires IsWord(s)
    ensures Lower(s) == s && 0 !in s && IsAscii(s)
  {
  }

  lemma NamesAreWords()
    ensures IsWord(BLKSIZE) && IsWord(WINDOWSIZE) && |BLKSIZE| == 7 && |WINDOWSIZE| == 10
  {
  }

  lemma ModesAreWords()
    ensures IsWord(NETASCII) && IsWord(OCTET) && IsWord(MAIL)
    ensures |NETASCII| == 8 && |OCTET| == 5 && |MAIL| == 4
  {
  }

  function RequestedBy(blockSize: nat, windowSize: nat): map<Bytes, Bytes> {
    var m: map<Bytes, Bytes> := if blockSize != DEFAULT_BLOCK_SIZE then map[BLKSIZE := Decimal(blockSize)] else map[];
    if windowSize > 1 then m[WINDOWSIZE := Decimal(windowSize)] else m
  }

  lemma ParseOnePair(name: Bytes, value: Bytes, rest: Bytes, utf8: Bytes -> bool, requested: map<Bytes, Bytes>)
    requires 0 !in name && 0 !in value && utf8(name) && utf8(value)
    requires |name| < MAX_STRING_LENGTH && |value| < MAX_STRING_LENGTH
    ensures ParseOptions(name + [0] + (value + [0] + rest), utf8, requested)
         == ParseOptions(rest, utf8, requested[Lower(name) := value])
  {
    ParseField(name, value + [0] + rest, utf8);
    ParseField(value, rest, utf8);
  }

  lemma ParseOneOption(name: Bytes, n: nat, rest: Bytes, utf8: Bytes -> bool, requested: map<Bytes, Bytes>)
    requires n < USIZE_LIMIT && AcceptsAscii(utf8) && IsWord(name) && |name| < MAX_STRING_LENGTH
    ensures ParseOptions(Field(name) + Field(Decimal(n)) + rest, utf8, requested)
         == ParseOptions(rest, utf8, requested[name := Decimal(n)])
  {
    var value := Decimal(n);
    PrintParse(n);
    DecimalDigits(n);
    assert IsAscii(value);
    WordFacts(name);
    assert Field(name) + Field(value) + rest == name + [0] + (value + [0] + rest);
    ParseOnePair(name, value, rest, utf8, requested);
  }

  lemma ParseWrittenOptions(blockSize: nat, windowSize: nat, utf8: Bytes -> bool)
    requires blockSize < USIZE_LIMIT && windowSize < USIZE_LIMIT && AcceptsAscii(utf8)
    ensures ParseOptions(WrittenOptions(blockSize, windowSize), utf8, map[]) == RequestedBy(blockSize, windowSize)
  {
    NamesAreWords();
    var second := if windowSize > 1 then Field(WINDOWSIZE) + Field(Decimal(windowSize)) else [];
    if blockSize != DEFAULT_BLOCK_SIZE {
      ParseOneOption(BLKSIZE, blockSize, second, utf8, map[]);
    } else {
      assert WrittenOptions(blockSize, windowSize) == second;
    }
    if windowSize > 1 {
      var first: map<Bytes, Bytes> :=
        if blockSize != DEFAULT_BLOCK_SIZE then map[BLKSIZE := Decimal(blockSize)] else map[];
      assert second == Field(WINDOWSIZE) + Field(Decimal(windowSize)) + [];
      ParseOneOption(WINDOWSIZE, windowSize, [], utf8, first);
    }
  }

  /** The server reads the client's request exactly when the file name has at most 254
      bytes, and then it gets the same name and mode and the options that were written. */
  lemma RequestRoundTrip(file: Bytes, mode: Mode, blockSize: nat, windowSize: nat, utf8: Bytes -> bool)
    requires 0 !in file && utf8(file) && AcceptsAscii(utf8)
    requires blockSize < USIZE_LIMIT && windowSize < USIZE_LIMIT
    ensures ParseRequest(Field(file) + Field(ModeText(mode)) + WrittenOptions(blockSize, windowSize), utf8)
         == if |file| <= 254 then Some(Parsed(file, mode, RequestedBy(blockSize, windowSize))) else None
  {
    var options, modeText := WrittenOptions(blockSize, windowSize), ModeText(mode);
    assert Field(file) + Field(modeText) + options == file + [0] + (modeText + [0] + options);
    ModeRoundTrip(mode);
    ParseField(file, modeText + [0] + options, utf8);
    ParseField(modeText, options, utf8);
    ParseWrittenOptions(blockSize, windowSize, utf8);
  }

  lemma ModeRoundTrip(mode: Mode)
    ensures ParseMode(ModeText(mode)) == Some(mode)
    ensures 0 !in ModeText(mode) && |ModeText(mode)| < MAX_STRING_LENGTH
    ensures IsAscii(ModeText(mode))
  {
    ModesAreWords();
    WordFacts(ModeText(mode));
  }

  /** Both ends then use the same block size exactly when the client's is in 8..65464,
      and the same window exactly when the client's is in 2..65535 or happens to be the
      server's configured default, which applies to a client that asks for no window. */
  lemma NegotiationAgrees(blockSize: nat, windowSize: nat, defaultWindow: nat, o: Options)
    requires blockSize < USIZE_LIMIT && windowSize < USIZE_LIMIT
    requires Negotiated(RequestedBy(blockSize, windowSize), defaultWindow, o)
    ensures o.blockSize == blockSize <==> 8 <= blockSize <= MAX_BLOCK_SIZE
    ensures o.windowSize == windowSize <==> 2 <= windowSize <= 65535 || windowSize == defaultWindow
  {
    PrintParse(blockSize);
    PrintParse(windowSize);
    NamesDiffer();
  }

  // ------------------------------------------------------------ the server's answer

  /** The options of an OACK, written in the given order. */
  function OackBody(acked: map<Bytes, Bytes>, order: seq<Bytes>): Bytes
    requires forall name :: name in order ==> name in acked
  {
    if order == [] then []
    else Field(order[0]) + Field(acked[order[0]]) + OackBody(acked, order[1..])
  }

  /** build_oack_packet; `order` is the order in which the hash map yields its entries. */
  method BuildOack(acked: map<Bytes, Bytes>, order: seq<Bytes>) returns (packet: Bytes)
    requires forall name :: name in order ==> name in acked
    ensures packet == [0, 6] + OackBody(acked, order)
  {
    packet := [0, 6];
    ghost var whole := packet + OackBody(acked, order);
    assert order[0..] == order;
    for i := 0 to |order|
      invariant packet + OackBody(acked, order[i..]) == whole
    {
      ghost var before := packet;
      packet := packet + order[i];
      packet := packet + [0];
      packet := packet + acked[order[i]];
      packet := packet + [0];
      assert order[i..][0] == order[i] && order[i..][1..] == order[i + 1..];
      assert packet == before + (Field(order[i]) + Field(acked[order[i]]));
    }
  }

  /** Names and values that survive the packet: short, free of NUL, lower-case names. */
  ghost predicate Writable(acked: map<Bytes, Bytes>, utf8: Bytes -> bool) {
    forall name :: name in acked ==>
      IsWord(name) && |name| < MAX_STRING_LENGTH && Survives(acked[name], utf8)
  }

  /** In whatever order the options were written, reading the OACK gives them back. */
  lemma {:induction false} ReadOack(acked: map<Bytes, Bytes>, order: seq<Bytes>, utf8: Bytes -> bool,
                                    done: map<Bytes, Bytes>)
    requires Writable(acked, utf8) && AcceptsAscii(utf8)
    requires forall name :: name in order ==> name in acked
    requires forall name :: name in done ==> name in acked && done[name] == acked[name]
    requires forall name :: name in acked ==> name in done || name in order
    ensures ParseOptions(OackBody(acked, order), utf8, done) == acked
    decreases |order|
  {
    if order == [] {
      assert done == acked;
    } else {
      ReadOneAcked(acked, order, utf8, done);
      ReadOack(acked, order[1..], utf8, done[order[0] := acked[order[0]]]);
    }
  }

  lemma ReadOneAcked(acked: map<Bytes, Bytes>, order: seq<Bytes>, utf8: Bytes -> bool, done: map<Bytes, Bytes>)
    requires Writable(acked, utf8) && AcceptsAscii(utf8) && order != []
    requires forall name :: name in order ==> name in acked
    ensures ParseOptions(OackBody(acked, order), utf8, done)
         == ParseOptions(OackBody(acked, order[1..]), utf8, done[order[0] := acked[order[0]]])
  {
    var name, value, rest := order[0], acked[order[0]], OackBody(acked, order[1..]);
    WordFacts(name);
    assert OackBody(acked, order) == name + [0] + (value + [0] + rest);
    ParseOnePair(name, value, rest, utf8, done);
  }

  /** What the negotiation accepted reaches the client: the OACK, read with the option
      rules, yields the negotiated options, whatever the order of either hash map. */
  lemma OackRoundTrip(requested: map<Bytes, Bytes>, defaultWindow: nat, o: Options, order: seq<Bytes>,
                      utf8: Bytes -> bool)
    requires Negotiated(requested, defaultWindow, o) && AcceptsAscii(utf8)
    requires forall name :: name in order <==> name in o.acked
    ensures ParseOptions(OackBody(o.acked, order), utf8, map[]) == o.acked
  {
    NegotiatedIsWritable(requested, defaultWindow, o, utf8);
    ReadOack(o.acked, order, utf8, map[]);
  }

  lemma NegotiatedIsWritable(requested: map<Bytes, Bytes>, defaultWindow: nat, o: Options, utf8: Bytes -> bool)
    requires Negotiated(requested, defaultWindow, o) && AcceptsAscii(utf8)
    ensures Writable(o.acked, utf8)
  {
    OptionNamesAreWords();
    SettledIsWritable(requested, BLKSIZE, 8, MAX_BLOCK_SIZE, DEFAULT_BLOCK_SIZE, o.blockSize, o.acked, utf8);
    SettledIsWritable(requested, TIMEOUT, 1, 255, DEFAULT_TIMEOUT, o.timeout, o.acked, utf8);
    SettledIsWritable(requested, WINDOWSIZE, 1, 65535, defaultWindow, o.windowSize, o.acked, utf8);
    ValueIsWritable(0, utf8);
  }

  /** One entry of an OACK that survives the packet. */
  ghost predicate Survives(value: Bytes, utf8: Bytes -> bool) {
    0 !in value && |value| < MAX_STRING_LENGTH && utf8(value)
  }

  lemma SettledIsWritable(requested: map<Bytes, Bytes>, name: Bytes, low: nat, high: nat, default: nat,
                          current: nat, acked: map<Bytes, Bytes>, utf8: Bytes -> bool)
    requires Settled(requested, name, low, high, default, current, acked) && high < USIZE_LIMIT && AcceptsAscii(utf8)
    ensures name in acked ==> Survives(acked[name], utf8)
  {
    ValueIsWritable(current, utf8);
  }

  lemma ValueIsWritable(n: nat, utf8: Bytes -> bool)
    requires AcceptsAscii(utf8)
    ensures n < USIZE_LIMIT ==> Survives(Decimal(n), utf8)
  {
    if n < USIZE_LIMIT {
      PrintParse(n);
      DecimalDigits(n);
      assert IsAscii(Decimal(n));
    }
  }

  lemma OptionNamesAreWords()
    ensures forall name :: name in {BLKSIZE, TIMEOUT, WINDOWSIZE, TSIZE} ==> IsWord(name) && |name| < MAX_STRING_LENGTH
  {
    NamesAreWords();
    assert IsWord(TIMEOUT) && IsWord(TSIZE) && |TIMEOUT| == 7 && |TSIZE| == 5;
  }

  // ------------------------------------------------------------ letters of either case

  /** The same letter in one case or the other, or the same byte. */
  predicate SameLetter(a: Byte, b: Byte) {
    a == b || (65 <= a <= 90 && b == a + 32) || (65 <= b <= 90 && a == b + 32)
  }

  predicate EqualIgnoringCase(a: Bytes, b: Bytes) {
    |a| == |b| && forall i :: 0 <= i < |a| ==> SameLetter(a[i], b[i])
  }

  lemma LowerExactly(a: Bytes, b: Bytes)
    ensures Lower(a) == Lower(b) <==> EqualIgnoringCase(a, b)
  {
    if Lower(a) == Lower(b) {
      forall i | 0 <= i < |a|
        ensures SameLetter(a[i], b[i])
      {
        assert Lower(a)[i] == Lower(b)[i];
      }
    }
  }

  /** A mode is recognised by its name in letters of either case, and by nothing else. */
  lemma ModeExactly(s: Bytes, mode: Mode)
    ensures ParseMode(s) == Some(mode) <==> EqualIgnoringCase(s, ModeText(mode))
  {
    ModesAreWords();
    WordFacts(ModeText(mode));
    LowerExactly(s, ModeText(mode));
    assert NETASCII[0] != OCTET[0] && OCTET[0] != MAIL[0] && NETASCII[0] != MAIL[0];
  }

  /** So is an option, whatever its value. */
  lemma OptionInAnyCase(written: Bytes, name: Bytes, value: Bytes, rest: Bytes, utf8: Bytes -> bool,
                        requested: map<Bytes, Bytes>)
    requires IsWord(name) && EqualIgnoringCase(written, name)
    requires 0 !in written && 0 !in value && utf8(written) && utf8(value)
    requires |written| < MAX_STRING_LENGTH && |value| < MAX_STRING_LENGTH
    ensures ParseOptions(written + [0] + (value + [0] + rest), utf8, requested)
         == ParseOptions(rest, utf8, requested[name := value])
  {
    WordFacts(name);
    LowerExactly(written, name);
    ParseOnePair(written, value, rest, utf8, requested);
  }

  /** What cannot be read ends the options quietly, and a name without a value with it. */
  lemma UnreadableOption(bytes: Bytes, utf8: Bytes -> bool, requested: map<Bytes, Bytes>)
    requires ParseString(bytes, utf8) == None || ParseString(ParseString(bytes, utf8).value.rest, utf8) == None
    ensures ParseOptions(bytes, utf8, requested) == requested
  {
  }

  // ------------------------------------------------------------ the ranges

  /** An option that was not asked for keeps its default and stays out of the OACK. */
  ghost predicate Unasked(requested: map<Bytes, Bytes>, name: Bytes, acked: map<Bytes, Bytes>, current: nat,
                          default: nat) {
    name !in requested ==> name !in acked && current == default
  }

  /** One that was asked for with a number is accepted, and named with that number, exactly
      if the number is in range. */
  ghost predicate Asked(requested: map<Bytes, Bytes>, name: Bytes, n: nat, low: nat, high: nat,
                        acked: map<Bytes, Bytes>, current: nat, default: nat) {
    name in requested && Denotes(requested[name], n) && n < USIZE_LIMIT ==>
      && current == (if low <= n <= high then n else default)
      && (name in acked <==> low <= n <= high)
      && (name in acked ==> acked[name] == Decimal(n))
  }

  /** The ranges of RFC 2348, 2349 and 7440. A transfer size is acknowledged if it is any
      number, as 0 until the size of the file is filled in. */
  lemma Ranges(requested: map<Bytes, Bytes>, defaultWindow: nat, o: Options, n: nat)
    requires Negotiated(requested, defaultWindow, o)
    ensures Asked(requested, BLKSIZE, n, 8, 65464, o.acked, o.blockSize, 512)
    ensures Asked(requested, TIMEOUT, n, 1, 255, o.acked, o.timeout, 5)
    ensures Asked(requested, WINDOWSIZE, n, 1, 65535, o.acked, o.windowSize, defaultWindow)
    ensures TSIZE in requested && Denotes(requested[TSIZE], n) && n < USIZE_LIMIT ==>
              TSIZE in o.acked && o.acked[TSIZE] == [48]
    ensures Unasked(requested, BLKSIZE, o.acked, o.blockSize, 512) && Unasked(requested, TIMEOUT, o.acked, o.timeout, 5)
    ensures Unasked(requested, WINDOWSIZE, o.acked, o.windowSize, defaultWindow)
    ensures TSIZE !in requested ==> TSIZE !in o.acked
  {
    if BLKSIZE in requested {
      ParseExactly(requested[BLKSIZE], n);
    }
    if TIMEOUT in requested {
      ParseExactly(requested[TIMEOUT], n);
    }
    if WINDOWSIZE in requested {
      ParseExactly(requested[WINDOWSIZE], n);
    }
    if TSIZE in requested {
      ParseExactly(requested[TSIZE], n);
    }
  }
}

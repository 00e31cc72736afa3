/** The TCP header and option codec (internal/tcp/header.go). */
module TCPHeader {
  import opened Bytes

  const FLAG_SYN: byte := 0x02
  const FLAG_ACK: byte := 0x10

  const OPT_END_OF_LIST: byte := 0
  const OPT_NOP: byte := 1
  const OPT_MSS: byte := 2

  const MIN_HEADER_LEN := 20

  datatype TCPOption = TCPOption(kind: byte, length: byte, data: bytes)

  datatype HeaderError = HeaderTooShort | InvalidDataOffset | ExceedsPacket | MalformedOptions

  datatype Header = Header(
    srcPort: uint16, dstPort: uint16, seqNum: uint32, ackNum: uint32, dataOffset: byte,
    flags: byte, window: uint16, checksum: uint16, urgent: uint16, options: seq<TCPOption>)
  {
    /** Whether a one-bit flag is set; the code only asks for one bit at a time. */
    predicate HasFlag(flag: byte)
      requires flag in {1, 2, 4, 8, 16, 32, 64, 128}
    {
      flags / flag % 2 == 1
    }

    function HeaderLen(): nat { dataOffset as int * 4 }
  }

  /** SYN is the second bit of the flags, ACK the fifth; `hi` and `lo` are the bits on either side. */
  lemma FlagsAreBits(h: Header, hi: nat, bit: nat, lo: nat)
    requires bit < 2
    ensures h.flags == 4 * hi + 2 * bit + lo && lo < 2 ==> (h.HasFlag(FLAG_SYN) <==> bit == 1)
    ensures h.flags == 32 * hi + 16 * bit + lo && lo < 16 ==> (h.HasFlag(FLAG_ACK) <==> bit == 1)
  {
    if h.flags == 4 * hi + 2 * bit + lo && lo < 2 {
      assert h.flags / 2 == 2 * hi + bit;
    }
    if h.flags == 32 * hi + 16 * bit + lo && lo < 16 {
      assert h.flags / 16 == 2 * hi + bit;
    }
  }

  // ---------------------------------------------------------------------------
  // Options
  // ---------------------------------------------------------------------------

  function Prepend(opts: seq<TCPOption>, r: Result<seq<TCPOption>, HeaderError>): Result<seq<TCPOption>, HeaderError> {
    match r
    case Ok(more) => Ok(opts + more)
    case Err(e) => Err(e)
  }

  function ParsedOptions(data: bytes): Result<seq<TCPOption>, HeaderError> {
    if data == [] || data[0] == OPT_END_OF_LIST then Ok([])
    else if data[0] == OPT_NOP then Prepend([TCPOption(OPT_NOP, 0, [])], ParsedOptions(data[1..]))
    else if |data| < 2 || data[1] < 2 || data[1] as int > |data| then Err(MalformedOptions)
    else Prepend([TCPOption(data[0], data[1], data[2..data[1]])], ParsedOptions(data[data[1]..]))
  }

  method ParseOptions(data: bytes) returns (r: Result<seq<TCPOption>, HeaderError>)
    ensures r == ParsedOptions(data)
  {
    var options: seq<TCPOption> := [];
    var i := 0;
    assert data[0..] == data;
    PrependNothing(ParsedOptions(data));
    while i < |data|
      invariant 0 <= i <= |data|
      invariant Prepend(options, ParsedOptions(data[i..])) == ParsedOptions(data)
    {
      var kind := data[i];
      ghost var tail := data[i..];
      if kind == OPT_END_OF_LIST {
        break;
      }
      if kind == OPT_NOP {
        PrependTwice(options, [TCPOption(kind, 0, [])], ParsedOptions(tail[1..]));
        assert tail[1..] == data[i + 1..];
        options := options + [TCPOption(kind, 0, [])];
        i := i + 1;
        continue;
      }
      if i + 1 >= |data| {
        return Err(MalformedOptions);
      }
      var length := data[i + 1];
      if length < 2 {
        return Err(MalformedOptions);
      }
      if i + length as int > |data| {
        return Err(MalformedOptions);
      }
      var option := TCPOption(kind, length, data[i + 2..i + length as int]);
      TailSlices(data, i, length as int);
      PrependTwice(options, [option], ParsedOptions(tail[length..]));
      options := options + [option];
      i := i + length as int;
    }
    assert options + [] == options;
    return Ok(options);
  }

  lemma TailSlices(data: bytes, i: nat, n: nat)
    requires 2 <= n && i + n <= |data|
    ensures data[i..][2..n] == data[i + 2..i + n] && data[i..][n..] == data[i + n..]
  {
    var tail := data[i..];
    assert forall k :: 2 <= k < n ==> tail[k] == data[i + k];
    assert forall k :: n <= k < |tail| ==> tail[k] == data[i + k];
  }

  lemma PrependNothing(r: Result<seq<TCPOption>, HeaderError>)
    ensures Prepend([], r) == r
  {
    if r.Ok? {
      assert [] + r.value == r.value;
    }
  }

  lemma PrependTwice(a: seq<TCPOption>, b: seq<TCPOption>, r: Result<seq<TCPOption>, HeaderError>)
    ensures Prepend(a, Prepend(b, r)) == Prepend(a + b, r)
  {
    if r.Ok? {
      assert a + (b + r.value) == a + b + r.value;
    }
  }

  /** The bytes `Marshal` writes for the options, before padding. */
  function EncodedOptions(opts: seq<TCPOption>): bytes {
    if opts == [] then []
    else if opts[0].kind == OPT_END_OF_LIST then [OPT_END_OF_LIST]
    else if opts[0].kind == OPT_NOP then [OPT_NOP] + EncodedOptions(opts[1..])
    else [opts[0].kind, opts[0].length] + opts[0].data + EncodedOptions(opts[1..])
  }

  function Padding(n: nat): nat {
    (4 - (MIN_HEADER_LEN + n) % 4) % 4
  }

  function OptionBytes(opts: seq<TCPOption>): (b: bytes)
    ensures |b| % 4 == 0
  {
    EncodedOptions(opts) + Zeros(Padding(|EncodedOptions(opts)|))
  }

  /** Options as the parser makes them. */
  predicate WellFormed(opt: TCPOption) {
    && opt.kind != OPT_END_OF_LIST
    && (opt.kind == OPT_NOP ==> opt.length == 0 && opt.data == [])
    && (opt.kind != OPT_NOP ==> opt.length as int == 2 + |opt.data|)
  }

  predicate AllWellFormed(opts: seq<TCPOption>) {
    forall i :: 0 <= i < |opts| ==> WellFormed(opts[i])
  }

  /** Nothing, or an end-of-list option followed by anything. */
  predicate IsEnd(rest: bytes) { rest == [] || rest[0] == OPT_END_OF_LIST }

  /** Printing then parsing gives the options back, whatever follows the end of the list. */
  lemma {:induction false} EncodeThenParse(opts: seq<TCPOption>, rest: bytes)
    requires AllWellFormed(opts) && IsEnd(rest)
    ensures ParsedOptions(EncodedOptions(opts) + rest) == Ok(opts)
  {
    hide EncodedOptions, ParsedOptions;
    if opts == [] {
      NoOptions(rest);
      assert [] + rest == rest;
    } else {
      var opt, more := opts[0], opts[1..];
      EncodeThenParse(more, rest);
      assert opts == [opt] + more;
      EncodeCons(opt, more);
      ParseCons(opt, EncodedOptions(more) + rest);
      assert EncodedOptions(opts) + rest == EncodedOptions([opt]) + (EncodedOptions(more) + rest);
    }
  }

  /** So the data accepted are exactly the encodings of options followed by an end of the list. */
  lemma AcceptedIff(data: bytes)
    ensures ParsedOptions(data).Ok?
       <==> exists opts, rest :: AllWellFormed(opts) && IsEnd(rest) && data == EncodedOptions(opts) + rest
  {
    hide EncodedOptions, ParsedOptions;
    if ParsedOptions(data).Ok? {
      ParseThenEncode(data);
      var e := EncodedOptions(ParsedOptions(data).value);
      assert data == e + data[|e|..] && IsEnd(data[|e|..]);
    }
    if opts, rest :| AllWellFormed(opts) && IsEnd(rest) && data == EncodedOptions(opts) + rest {
      EncodeThenParse(opts, rest);
    }
  }

  /** The bytes of one option, whatever its other fields: an option's own length and data are written as they are. */
  lemma OneOption(opt: TCPOption)
    ensures EncodedOptions([opt]) ==
      if opt.kind == 0 then [0] else if opt.kind == 1 then [1] else [opt.kind, opt.length] + opt.data
  {
    assert [opt][1..] == [];
  }

  /** Nothing is written after an end-of-list option. */
  lemma {:induction false} EncodeStops(a: seq<TCPOption>, opt: TCPOption, b: seq<TCPOption>)
    requires opt.kind == OPT_END_OF_LIST && forall i :: 0 <= i < |a| ==> a[i].kind != OPT_END_OF_LIST
    ensures EncodedOptions(a + [opt] + b) == EncodedOptions(a) + [0]
  {
    if a == [] {
      assert a + [opt] + b == [opt] + b;
    } else {
      assert (a + [opt] + b)[1..] == a[1..] + [opt] + b;
      EncodeStops(a[1..], opt, b);
    }
  }

  /** A printed option in front of data that parses is parsed in front. */
  lemma ParseCons(opt: TCPOption, rest: bytes)
    requires WellFormed(opt)
    ensures ParsedOptions(EncodedOptions([opt]) + rest) == Prepend([opt], ParsedOptions(rest))
  {
    var data := EncodedOptions([opt]) + rest;
    assert [opt][1..] == [];
    if opt.kind == OPT_NOP {
      assert data[1..] == rest;
    } else {
      assert EncodedOptions([opt]) == [opt.kind, opt.length] + opt.data;
      assert data[2..opt.length] == opt.data;
      assert data[opt.length..] == rest;
    }
  }

  /** The first option of data that parses takes `n` bytes, and prints as those bytes. */
  lemma FirstOption(data: bytes) returns (n: nat, opt: TCPOption)
    requires ParsedOptions(data).Ok? && data != [] && data[0] != OPT_END_OF_LIST
    ensures 0 < n <= |data| && ParsedOptions(data[n..]).Ok?
    ensures ParsedOptions(data).value == [opt] + ParsedOptions(data[n..]).value
    ensures WellFormed(opt) && EncodedOptions([opt]) == data[..n]
  {
    if data[0] == OPT_NOP {
      n, opt := 1, TCPOption(OPT_NOP, 0, []);
    } else {
      n, opt := data[1], TCPOption(data[0], data[1], data[2..data[1]]);
      assert data[..n] == [data[0], data[1]] + data[2..n];
    }
    assert [opt][1..] == [];
  }

  lemma NoOptions(data: bytes)
    requires data == [] || data[0] == OPT_END_OF_LIST
    ensures ParsedOptions(data) == Ok([]) && EncodedOptions([]) == []
  {
  }

  lemma EncodeCons(opt: TCPOption, more: seq<TCPOption>)
    requires WellFormed(opt)
    ensures EncodedOptions([opt] + more) == EncodedOptions([opt]) + EncodedOptions(more)
  {
    assert ([opt] + more)[1..] == more && [opt][1..] == [];
  }

  /** Parsing then printing reproduces the bytes before the first end-of-list option. */
  lemma {:induction false} ParseThenEncode(data: bytes)
    requires ParsedOptions(data).Ok?
    ensures var opts, e := ParsedOptions(data).value, EncodedOptions(ParsedOptions(data).value);
      && AllWellFormed(opts)
      && |e| <= |data| && e == data[..|e|]
      && (|e| < |data| ==> data[|e|] == OPT_END_OF_LIST)
  {
    hide ParsedOptions, EncodedOptions;
    if data == [] || data[0] == OPT_END_OF_LIST {
      NoOptions(data);
    } else {
      var n, opt := FirstOption(data);
      ParseThenEncode(data[n..]);
      EncodeCons(opt, ParsedOptions(data[n..]).value);
      var e := EncodedOptions(ParsedOptions(data[n..]).value);
      assert data[..n + |e|] == data[..n] + data[n..][..|e|];
    }
  }

  // ---------------------------------------------------------------------------
  // The header
  // ---------------------------------------------------------------------------

  function ParsedHeader(raw: bytes): (r: Result<Header, HeaderError>)
    ensures r.Ok? ==> 5 <= r.value.dataOffset <= 15 && r.value.HeaderLen() <= |raw|
  {
    if |raw| < MIN_HEADER_LEN then Err(HeaderTooShort)
    else if raw[12] / 16 < 5 then Err(InvalidDataOffset)
    else
      var headerLenBytes := raw[12] / 16 * 4;
      if |raw| < headerLenBytes as int then Err(ExceedsPacket)
      else
        match ParsedOptions(raw[MIN_HEADER_LEN..headerLenBytes])
        case Err(e) => Err(e)
        case Ok(opts) =>
          Ok(Header(Get16(raw, 0), Get16(raw, 2), Get32(raw, 4), Get32(raw, 8), raw[12] / 16, raw[13],
                    Get16(raw, 14), Get16(raw, 16), Get16(raw, 18), opts))
  }

  method ParseHeader(raw: bytes) returns (r: Result<Header, HeaderError>)
    ensures r == ParsedHeader(raw)
  {
    if |raw| < MIN_HEADER_LEN {
      return Err(HeaderTooShort);
    }
    var dataOffset: byte := raw[12] / 16;
    if dataOffset < 5 {
      return Err(InvalidDataOffset);
    }
    var headerLenBytes := dataOffset as int * 4;
    if |raw| < headerLenBytes {
      return Err(ExceedsPacket);
    }
    var options: seq<TCPOption> := [];
    if headerLenBytes > MIN_HEADER_LEN {
      var parsed := ParseOptions(raw[MIN_HEADER_LEN..headerLenBytes]);
      if parsed.Err? {
        return Err(parsed.error);
      }
      options := parsed.value;
    } else {
      assert raw[MIN_HEADER_LEN..headerLenBytes] == [];
    }
    r := Ok(Header(Get16(raw, 0), Get16(raw, 2), Get32(raw, 4), Get32(raw, 8), dataOffset, raw[13],
                   Get16(raw, 14), Get16(raw, 16), Get16(raw, 18), options));
  }

  function NumberPart(h: Header): (b: bytes)
    ensures |b| == 12
  {
    Put16(h.srcPort) + Put16(h.dstPort) + Put32(h.seqNum) + Put32(h.ackNum)
  }

  function ControlPart(h: Header): (b: bytes)
    ensures |b| == 8
  {
    [h.dataOffset as int * 16 % 0x100, h.flags] + Put16(h.window) + Put16(h.checksum) + Put16(h.urgent)
  }

  /** `Marshal` sets the DataOffset field from the length, as a uint8. */
  function Marked(h: Header): Header {
    h.(dataOffset := (MIN_HEADER_LEN + |OptionBytes(h.options)|) % 0x100 / 4)
  }

  function MarshalOf(h: Header): (b: bytes)
    ensures |b| == MIN_HEADER_LEN + |OptionBytes(h.options)|
  {
    NumberPart(Marked(h)) + ControlPart(Marked(h)) + OptionBytes(h.options)
  }

  lemma EncodeSnoc(opts: seq<TCPOption>, i: nat)
    requires i < |opts|
    ensures EncodedOptions(opts[i..]) ==
      if opts[i].kind == OPT_END_OF_LIST then [OPT_END_OF_LIST]
      else if opts[i].kind == OPT_NOP then [OPT_NOP] + EncodedOptions(opts[i + 1..])
      else [opts[i].kind, opts[i].length] + opts[i].data + EncodedOptions(opts[i + 1..])
  {
    assert opts[i..][1..] == opts[i + 1..];
  }

  /** The option loop and the padding loop of `Marshal`. */
  method EncodeOptions(opts: seq<TCPOption>) returns (optsBytes: bytes)
    ensures optsBytes == OptionBytes(opts)
  {
    hide EncodedOptions;
    optsBytes := [];
    var i := 0;
    ghost var rest := EncodedOptions(opts[0..]);
    assert opts[0..] == opts;
    while i < |opts|
      invariant 0 <= i <= |opts|
      invariant rest == EncodedOptions(opts[i..]) && optsBytes + rest == EncodedOptions(opts)
    {
      EncodeSnoc(opts, i);
      var opt := opts[i];
      if opt.kind == OPT_END_OF_LIST {
        optsBytes := optsBytes + [OPT_END_OF_LIST];
        rest := [];
        break;
      }
      rest := EncodedOptions(opts[i + 1..]);
      if opt.kind == OPT_NOP {
        optsBytes := optsBytes + [OPT_NOP];
      } else {
        optsBytes := optsBytes + [opt.kind, opt.length];
        optsBytes := optsBytes + opt.data;
      }
      i := i + 1;
    }
    NothingEncoded();
    assert i == |opts| ==> opts[i..] == [];
    assert rest == [] && optsBytes + rest == optsBytes;
    optsBytes := Pad(optsBytes);
  }

  method Pad(encoded: bytes) returns (optsBytes: bytes)
    ensures optsBytes == encoded + Zeros(Padding(|encoded|))
  {
    optsBytes := encoded;
    ghost var n := 0;
    while (MIN_HEADER_LEN + |optsBytes|) % 4 != 0
      invariant n <= Padding(|encoded|)
      invariant optsBytes == encoded + Zeros(n)
      decreases Padding(|encoded|) - n
    {
      optsBytes := optsBytes + [OPT_END_OF_LIST];
      n := n + 1;
    }
  }

  lemma NothingEncoded()
    ensures EncodedOptions([]) == []
  {
  }

  method StoreNumbers(buf: array<byte>, h: Header)
    requires buf.Length >= MIN_HEADER_LEN
    modifies buf
    ensures buf[..] == NumberPart(h) + old(buf[12..])
  {
    buf[0], buf[1] := Hi(h.srcPort), Lo(h.srcPort);
    buf[2], buf[3] := Hi(h.dstPort), Lo(h.dstPort);
    var s, a := Put32(h.seqNum), Put32(h.ackNum);
    buf[4], buf[5], buf[6], buf[7] := s[0], s[1], s[2], s[3];
    buf[8], buf[9], buf[10], buf[11] := a[0], a[1], a[2], a[3];
    assert buf[..12] == NumberPart(h);
    assert buf[12..] == old(buf[12..]);
  }

  method StoreControl(buf: array<byte>, h: Header)
    requires buf.Length >= MIN_HEADER_LEN
    modifies buf
    ensures buf[..] == old(buf[..12]) + ControlPart(h) + old(buf[20..])
  {
    buf[12] := h.dataOffset as int * 16 % 0x100;
    buf[13] := h.flags;
    buf[14], buf[15] := Hi(h.window), Lo(h.window);
    buf[16], buf[17] := Hi(h.checksum), Lo(h.checksum);
    buf[18], buf[19] := Hi(h.urgent), Lo(h.urgent);
    assert buf[12..20] == ControlPart(h);
    assert buf[..12] == old(buf[..12]) && buf[20..] == old(buf[20..]);
  }

  method Marshal(h: Header) returns (buf: array<byte>, marked: Header)
    ensures fresh(buf) && buf[..] == MarshalOf(h)
    ensures marked == Marked(h)
  {
    hide NumberPart, ControlPart, OptionBytes, Overwrite;
    var optsBytes := EncodeOptions(h.options);
    marked := h.(dataOffset := (MIN_HEADER_LEN + |optsBytes|) % 0x100 / 4);
    buf := new byte[MIN_HEADER_LEN + |optsBytes|](_ => 0);
    StoreNumbers(buf, marked);
    StoreControl(buf, marked);
    ghost var fixed := NumberPart(marked) + ControlPart(marked);
    assert buf[..] == fixed + buf[20..];
    OverwriteAll(fixed, buf[20..], optsBytes);
    CopyInto(buf, MIN_HEADER_LEN, optsBytes);
  }

  lemma OverwriteAll(pre: bytes, tail: bytes, src: bytes)
    requires |tail| == |src|
    ensures Overwrite(pre + tail, |pre|, src) == pre + src
  {
  }

  // ---------------------------------------------------------------------------
  // Codec round trips
  // ---------------------------------------------------------------------------

  lemma NumbersAt(h: Header, b: bytes)
    requires |b| >= MIN_HEADER_LEN && b[..12] == NumberPart(h)
    ensures Get16(b, 0) == h.srcPort && Get16(b, 2) == h.dstPort
    ensures Get32(b, 4) == h.seqNum && Get32(b, 8) == h.ackNum
  {
    hide Get16, Put16, Put32;
    var n, s, a := NumberPart(h), Put32(h.seqNum), Put32(h.ackNum);
    GetSlice16(b, n, 0, Put16(h.srcPort), 0);
    GetSlice16(b, n, 2, Put16(h.dstPort), 0);
    GetSlice16(b, n, 4, s, 0);
    GetSlice16(b, n, 6, s, 2);
    GetSlice16(b, n, 8, a, 0);
    GetSlice16(b, n, 10, a, 2);
  }

  /** Reading at `i` in `b`, which starts with `n`, reads at `j` in the part `p` of `n`. */
  lemma GetSlice16(b: bytes, n: bytes, i: nat, p: bytes, j: nat)
    requires i + 2 <= |n| <= |b| && b[..|n|] == n && j + 2 <= |p| && n[i] == p[j] && n[i + 1] == p[j + 1]
    ensures Get16(b, i) == Get16(p, j)
  {
    assert b[i] == b[..|n|][i] && b[i + 1] == b[..|n|][i + 1];
  }

  lemma ControlsAt(h: Header, b: bytes)
    requires |b| >= MIN_HEADER_LEN && b[12..20] == ControlPart(h)
    ensures b[12] == h.dataOffset as int * 16 % 0x100 && b[13] == h.flags
    ensures Get16(b, 14) == h.window && Get16(b, 16) == h.checksum && Get16(b, 18) == h.urgent
  {
    var c := ControlPart(h);
    assert forall i :: 0 <= i < 8 ==> b[12 + i] == b[12..20][i] == c[i];
  }

  lemma MarshalParts(h: Header, payload: bytes)
    ensures var raw := MarshalOf(h) + payload;
      |raw| >= MIN_HEADER_LEN && raw[..12] == NumberPart(Marked(h)) && raw[12..20] == ControlPart(Marked(h))
  {
    hide NumberPart, ControlPart, OptionBytes;
  }

  /** What is parsed from the bytes `Marshal` wrote, in terms of the options found. */
  lemma ParsedMarshalled(h: Header, payload: bytes)
    ensures var raw, m := MarshalOf(h) + payload, Marked(h);
      var off := m.dataOffset % 16;
      ParsedHeader(raw) ==
        if off < 5 then Err(InvalidDataOffset)
        else if |raw| < off as int * 4 then Err(ExceedsPacket)
        else match ParsedOptions(raw[MIN_HEADER_LEN..off * 4])
          case Err(e) => Err(e)
          case Ok(opts) => Ok(m.(dataOffset := off, options := opts))
  {
    hide NumberPart, ControlPart, OptionBytes, ParsedOptions, Get16, Get32, MarshalOf;
    var raw, m := MarshalOf(h) + payload, Marked(h);
    MarshalParts(h, payload);
    NumbersAt(m, raw);
    ControlsAt(m, raw);
    HighNibble(m.dataOffset);
  }

  lemma HighNibble(x: byte)
    ensures x as int * 16 % 0x100 / 16 == x % 16
  {
    ByteOf(x as int * 16, x / 16, x % 16 * 16);
  }

  lemma ByteOf(n: nat, q: int, r: nat)
    requires n == 0x100 * q + r && r < 0x100
    ensures n % 0x100 == r
  {
  }

  /** With at most 40 option bytes, the header sent comes back with DataOffset filled in. */
  lemma MarshalThenParse(h: Header, payload: bytes)
    requires AllWellFormed(h.options) && |OptionBytes(h.options)| <= 40
    ensures ParsedHeader(MarshalOf(h) + payload) == Ok(Marked(h))
    ensures Marked(h).HeaderLen() == |MarshalOf(h)|
    ensures (MarshalOf(h) + payload)[Marked(h).HeaderLen()..] == payload
  {
    hide NumberPart, ControlPart, ParsedOptions, EncodedOptions, ParsedHeader, Marked, MarshalOf, OptionBytes, Padding;
    MarkedOffset(h);
    MarshalForm(h, payload);
    ParsedMarshalled(h, payload);
    EncodeThenParse(h.options, Zeros(Padding(|EncodedOptions(h.options)|)));
  }

  lemma MarkedOffset(h: Header)
    requires |OptionBytes(h.options)| <= 40
    ensures 5 <= Marked(h).dataOffset <= 15 && Marked(h).HeaderLen() == MIN_HEADER_LEN + |OptionBytes(h.options)|
    ensures Marked(h) == h.(dataOffset := Marked(h).dataOffset)
    ensures OptionBytes(h.options)
         == EncodedOptions(h.options) + Zeros(Padding(|EncodedOptions(h.options)|))
  {
  }

  /** The option area and the payload of a marshalled segment. */
  lemma MarshalForm(h: Header, payload: bytes)
    ensures var raw, n := MarshalOf(h) + payload, MIN_HEADER_LEN + |OptionBytes(h.options)|;
      && n == |MarshalOf(h)| <= |raw|
      && raw[MIN_HEADER_LEN..n] == OptionBytes(h.options) && raw[n..] == payload
  {
    hide NumberPart, ControlPart, OptionBytes, Marked;
    var fixed := NumberPart(Marked(h)) + ControlPart(Marked(h));
    assert MarshalOf(h) + payload == fixed + OptionBytes(h.options) + payload;
  }

  /**
   `Marshal` refuses nothing. The peer gets the header back exactly when its options are such
   as the parser makes and take at most 40 bytes.
   */
  lemma RoundTripIff(h: Header, payload: bytes)
    ensures ParsedHeader(MarshalOf(h) + payload) == Ok(Marked(h))
       <==> AllWellFormed(h.options) && |OptionBytes(h.options)| <= 40
  {
    hide NumberPart, ControlPart, ParsedOptions, EncodedOptions, ParsedHeader, MarshalOf, AllWellFormed;
    if AllWellFormed(h.options) && |OptionBytes(h.options)| <= 40 {
      MarshalThenParse(h, payload);
    }
    if ParsedHeader(MarshalOf(h) + payload) == Ok(Marked(h)) {
      OptionsRead(MarshalOf(h) + payload);
    }
  }

  function NoOperations(n: nat): (opts: seq<TCPOption>)
    ensures AllWellFormed(opts)
  {
    seq(n, _ => TCPOption(OPT_NOP, 0, []))
  }

  lemma {:induction false} NoOperationsEncode(n: nat)
    ensures |EncodedOptions(NoOperations(n))| == n
  {
    if n > 0 {
      assert NoOperations(n)[1..] == NoOperations(n - 1);
      NoOperationsEncode(n - 1);
    }
  }

  /** With 41 no-operations the length needs a data offset of 16, which is written as 0. */
  lemma FortyOneNoOperations(h: Header, payload: bytes)
    requires h.options == NoOperations(41)
    ensures ParsedHeader(MarshalOf(h) + payload) == Err(InvalidDataOffset)
  {
    hide NumberPart, ControlPart, ParsedOptions, EncodedOptions, ParsedHeader, MarshalOf, NoOperations;
    NoOperationsEncode(41);
    ParsedMarshalled(h, payload);
  }

  /** The reason of each refusal, on the segment's bytes. */
  lemma RefusedIff(raw: bytes)
    ensures ParsedHeader(raw) == Err(HeaderTooShort) <==> |raw| < 20
    ensures ParsedHeader(raw) == Err(InvalidDataOffset) <==> |raw| >= 20 && raw[12] / 0x10 < 5
    ensures ParsedHeader(raw) == Err(ExceedsPacket)
       <==> |raw| >= 20 && raw[12] / 0x10 >= 5 && |raw| < raw[12] as int / 0x10 * 4
    ensures ParsedHeader(raw) == Err(MalformedOptions)
       <==> |raw| >= 20 && 20 <= raw[12] as int / 0x10 * 4 <= |raw|
            && ParsedOptions(raw[20..raw[12] as int / 0x10 * 4]).Err?
  {
    OnlyMalformed(raw);
    hide ParsedOptions;
  }

  lemma OnlyMalformed(raw: bytes)
    ensures |raw| >= 20 && 20 <= raw[12] as int / 0x10 * 4 <= |raw| ==>
      var r := ParsedOptions(raw[20..raw[12] as int / 0x10 * 4]); r.Err? ==> r.error == MalformedOptions
  {
    if |raw| >= 20 && 20 <= raw[12] as int / 0x10 * 4 <= |raw| {
      MalformedOnly(raw[20..raw[12] as int / 0x10 * 4]);
    }
  }

  lemma {:induction false} MalformedOnly(data: bytes)
    ensures ParsedOptions(data).Err? ==> ParsedOptions(data).error == MalformedOptions
  {
    if data != [] && data[0] == OPT_NOP {
      MalformedOnly(data[1..]);
    } else if |data| >= 2 && 2 <= data[1] as int <= |data| {
      MalformedOnly(data[data[1]..]);
    }
  }

  /** A segment that was read and written again has all its fixed fields, but for the data offset. */
  lemma FixedFieldsKept(raw: bytes)
    requires ParsedHeader(raw).Ok?
    ensures var b := MarshalOf(ParsedHeader(raw).value);
      && b[..12] == raw[..12] && b[13..20] == raw[13..20]
      && ParsedHeader(raw).value.dataOffset == raw[12] / 0x10
  {
    var h := ParsedHeader(raw).value;
    hide ParsedOptions, OptionBytes, EncodedOptions;
    MarshalParts(h, []);
    assert MarshalOf(h) + [] == MarshalOf(h);
    NumbersRead(raw, h);
    ControlsRead(raw, Marked(h));
    var b := MarshalOf(h);
    assert b[13..20] == b[12..20][1..] == raw[13..20];
  }

  lemma NumbersRead(raw: bytes, h: Header)
    requires |raw| >= 20 && h.srcPort == Get16(raw, 0) && h.dstPort == Get16(raw, 2)
    requires h.seqNum == Get32(raw, 4) && h.ackNum == Get32(raw, 8)
    ensures NumberPart(h) == raw[..12] && NumberPart(Marked(h)) == raw[..12]
  {
    PutOfGet16(raw, 0);
    PutOfGet16(raw, 2);
    PutOfGet32(raw, 4);
    PutOfGet32(raw, 8);
    hide Put16, Put32, Get16, Get32;
    assert raw[..12] == raw[0..2] + raw[2..4] + raw[4..8] + raw[8..12];
  }

  lemma ControlsRead(raw: bytes, h: Header)
    requires |raw| >= 20 && h.flags == raw[13] && h.window == Get16(raw, 14)
    requires h.checksum == Get16(raw, 16) && h.urgent == Get16(raw, 18)
    ensures ControlPart(h)[1..] == raw[13..20]
  {
    PutOfGet16(raw, 14);
    PutOfGet16(raw, 16);
    PutOfGet16(raw, 18);
    hide Put16, Get16;
    assert raw[13..20] == [raw[13]] + raw[14..16] + raw[16..18] + raw[18..20];
    assert ControlPart(h)[1..] == [h.flags] + Put16(h.window) + Put16(h.checksum) + Put16(h.urgent);
  }

  lemma PutOfGet16(raw: bytes, i: nat)
    requires i + 2 <= |raw|
    ensures Put16(Get16(raw, i)) == raw[i..i + 2]
  {
    HiLoOfGet16(raw, i);
  }

  lemma PutOfGet32(raw: bytes, i: nat)
    requires i + 4 <= |raw|
    ensures Put32(Get32(raw, i)) == raw[i..i + 4]
  {
    PutOfGet16(raw, i);
    PutOfGet16(raw, i + 2);
    var x, hi, lo := Get32(raw, i), Get16(raw, i), Get16(raw, i + 2);
    assert x / 0x1_0000 == hi && x % 0x1_0000 == lo;
    assert raw[i..i + 4] == raw[i..i + 2] + raw[i + 2..i + 4];
  }

  /** Where the fields of a written segment are (section 3.1 of RFC 9293). */
  lemma WrittenLayout(h: Header, payload: bytes)
    requires |OptionBytes(h.options)| <= 40
    ensures var b := MarshalOf(h) + payload;
      var n := 20 + |OptionBytes(h.options)|;
      && n <= |b| && Get16(b, 0) == h.srcPort && Get16(b, 2) == h.dstPort
      && Get32(b, 4) == h.seqNum && Get32(b, 8) == h.ackNum && b[12] as int == n / 4 * 16 && b[13] == h.flags
      && Get16(b, 14) == h.window && Get16(b, 16) == h.checksum && Get16(b, 18) == h.urgent
      && b[20..n] == OptionBytes(h.options) && b[n..] == payload
  {
    hide NumberPart, ControlPart, OptionBytes, Get16, Get32, MarshalOf;
    MarshalParts(h, payload);
    MarshalForm(h, payload);
    NumbersAt(Marked(h), MarshalOf(h) + payload);
    ControlsAt(Marked(h), MarshalOf(h) + payload);
  }

  /**
   For any header that parses: `Marshal` writes no more bytes than were read, reproduces the
   options before the first end-of-list and every field, and a second trip changes nothing.
   */
  lemma ReadThenMarshal(raw: bytes)
    requires ParsedHeader(raw).Ok?
    ensures var h, e := ParsedHeader(raw).value, EncodedOptions(ParsedHeader(raw).value.options);
      && |MarshalOf(h)| <= h.HeaderLen()
      && MIN_HEADER_LEN + |e| <= h.HeaderLen() && raw[MIN_HEADER_LEN..MIN_HEADER_LEN + |e|] == e
      && (MIN_HEADER_LEN + |e| < h.HeaderLen() ==> raw[MIN_HEADER_LEN + |e|] == OPT_END_OF_LIST)
      && ParsedHeader(MarshalOf(h)) == Ok(Marked(h))
      && MarshalOf(Marked(h)) == MarshalOf(h)
      && Marked(h) == h.(dataOffset := Marked(h).dataOffset)
  {
    var h := ParsedHeader(raw).value;
    OptionsRead(raw);
    hide NumberPart, ControlPart, ParsedOptions, EncodedOptions, ParsedHeader;
    MarshalThenParse(h, []);
    assert MarshalOf(h) + [] == MarshalOf(h);
  }

  lemma OptionsRead(raw: bytes)
    requires ParsedHeader(raw).Ok?
    ensures var h, e := ParsedHeader(raw).value, EncodedOptions(ParsedHeader(raw).value.options);
      && AllWellFormed(h.options) && |OptionBytes(h.options)| <= h.HeaderLen() - MIN_HEADER_LEN
      && MIN_HEADER_LEN + |e| <= h.HeaderLen() && raw[MIN_HEADER_LEN..MIN_HEADER_LEN + |e|] == e
      && (MIN_HEADER_LEN + |e| < h.HeaderLen() ==> raw[MIN_HEADER_LEN + |e|] == OPT_END_OF_LIST)
  {
    hide ParsedOptions, EncodedOptions;
    var h := ParsedHeader(raw).value;
    var area := raw[MIN_HEADER_LEN..h.HeaderLen()];
    ParseThenEncode(area);
    var e := EncodedOptions(h.options);
    SliceOfSlice(raw, MIN_HEADER_LEN, h.HeaderLen(), 0, |e|);
  }
}

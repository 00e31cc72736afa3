/** The IPv4 header codec (internal/ip/header.go). */
module IPHeader {
  import opened Bytes
  import opened IPAddress
  import opened Checksum

  const MIN_HEADER_LEN := 20

  datatype ParseError = TooShort | Invalid

  /** Flag bit 0x02: don't fragment. */
  predicate HasDF(flags: byte) { flags / 2 % 2 == 1 }

  datatype Header = Header(
    version: byte, ihl: byte, tos: byte, totalLen: uint16, id: uint16, flags: byte,
    fragOffset: uint16, ttl: byte, protocol: byte, checksum: uint16,
    src: bytes, dst: bytes, options: bytes)
  {
    function HeaderLen(): nat { ihl as int * 4 }

    predicate DF() { HasDF(flags) }

    /** Flag bit 0x01: more fragments. */
    predicate MF() { flags % 2 == 1 }

    function SetMF(): Header { if MF() then this else this.(flags := (flags + 1) % 0x100) }

    function ClearMF(): Header { this.(flags := flags - flags % 2) }

    function PayloadOf(raw: bytes): bytes {
      if |raw| <= HeaderLen() then [] else raw[HeaderLen()..]
    }

    /** What every header that came off the wire satisfies, apart from `ihl >= 5`. */
    predicate OnWire() {
      && version == 4 && 5 <= ihl <= 15 && flags < 8 && fragOffset < 0x2000
      && |src| == 4 && |dst| == 4 && |options| == HeaderLen() - MIN_HEADER_LEN
      && HeaderLen() <= totalLen as int
    }
  }

  function ParseHeader(raw: bytes): (r: Result<Header, ParseError>)
    ensures r.Ok? && r.value.ihl >= 5 ==> r.value.OnWire() && r.value.HeaderLen() <= |raw|
  {
    if |raw| < MIN_HEADER_LEN then Err(TooShort)
    else if raw[0] / 16 != 4 then Err(Invalid)
    else
      var ihl: byte := raw[0] % 16;
      var headerLen := ihl as int * 4;
      if |raw| < headerLen then Err(TooShort)
      else if Get16(raw, 2) as int < headerLen then Err(Invalid)
      else
        var flagsAndOffset := Get16(raw, 6);
        Ok(Header(raw[0] / 16, ihl, raw[1], Get16(raw, 2), Get16(raw, 4),
                  flagsAndOffset / 0x2000, flagsAndOffset % 0x2000,
                  raw[8], raw[9], Get16(raw, 10), raw[12..16], raw[16..20],
                  if headerLen > MIN_HEADER_LEN then raw[MIN_HEADER_LEN..headerLen] else []))
  }

  /** The payload of a packet that parses. */
  function PayloadIn(raw: bytes): bytes {
    match ParseHeader(raw)
    case Ok(h) => h.PayloadOf(raw)
    case Err(_) => []
  }

  /** The option bytes that fit in the header, zero-filled. */
  function OptionArea(h: Header): (b: bytes)
    requires h.ihl >= 5
    ensures |b| == h.HeaderLen() - MIN_HEADER_LEN
  {
    Overwrite(Zeros(h.HeaderLen() - MIN_HEADER_LEN), 0, h.options)
  }

  function VersionByte(h: Header): byte { h.version % 16 * 16 + h.ihl % 16 }

  function FlagsWord(h: Header): uint16 { h.flags as int % 8 * 0x2000 + h.fragOffset as int % 0x2000 }

  /** The first twelve bytes. */
  function ControlPart(h: Header): (b: bytes)
    ensures |b| == 12
  {
    [VersionByte(h), h.tos, Hi(h.totalLen), Lo(h.totalLen), Hi(h.id), Lo(h.id),
     Hi(FlagsWord(h)), Lo(FlagsWord(h)), h.ttl, h.protocol, Hi(h.checksum), Lo(h.checksum)]
  }

  function FixedPart(h: Header): (b: bytes)
    ensures |b| == MIN_HEADER_LEN
  {
    ControlPart(h) + Quad(h.src) + Quad(h.dst)
  }

  function MarshalOf(h: Header): (b: bytes)
    requires h.ihl >= 5
    ensures |b| == h.HeaderLen()
  {
    FixedPart(h) + OptionArea(h)
  }

  method StoreControl(buf: array<byte>, h: Header)
    requires buf.Length >= MIN_HEADER_LEN
    modifies buf
    ensures buf[..] == ControlPart(h) + old(buf[12..])
  {
    buf[0] := VersionByte(h);
    buf[1] := h.tos;
    buf[2], buf[3] := Hi(h.totalLen), Lo(h.totalLen);
    buf[4], buf[5] := Hi(h.id), Lo(h.id);
    buf[6], buf[7] := Hi(FlagsWord(h)), Lo(FlagsWord(h));
    buf[8] := h.ttl;
    buf[9] := h.protocol;
    buf[10], buf[11] := Hi(h.checksum), Lo(h.checksum);
    assert buf[..12] == ControlPart(h);
    assert buf[12..] == old(buf[12..]);
  }

  method StoreAddress(buf: array<byte>, off: nat, ip: bytes, ghost pre: bytes, ghost post: bytes)
    requires |pre| == off && buf[..] == pre + Zeros(4) + post
    modifies buf
    ensures buf[..] == pre + Quad(ip) + post
  {
    var quad := To4(ip);
    if quad.Some? {
      OverwriteMiddle(pre, Zeros(4), post, quad.value);
      CopyInto(buf, off, quad.value);
    }
  }

  method StoreFixed(buf: array<byte>, h: Header)
    requires buf.Length >= MIN_HEADER_LEN && buf[..] == Zeros(buf.Length)
    modifies buf
    ensures buf[..] == FixedPart(h) + Zeros(buf.Length - MIN_HEADER_LEN)
  {
    ghost var control, area := ControlPart(h), Zeros(buf.Length - MIN_HEADER_LEN);
    assert buf[12..] == Zeros(4) + (Zeros(4) + area);
    StoreControl(buf, h);
    assert buf[..] == control + Zeros(4) + (Zeros(4) + area);
    StoreAddress(buf, 12, h.src, control, Zeros(4) + area);
    assert buf[..] == (control + Quad(h.src)) + Zeros(4) + area;
    StoreAddress(buf, 16, h.dst, control + Quad(h.src), area);
  }

  /** `Marshal` fills a fresh buffer; with an IHL below 5 its stores are out of range and Go panics. */
  method Marshal(h: Header) returns (buf: array<byte>)
    requires h.ihl >= 5
    ensures fresh(buf) && buf[..] == MarshalOf(h)
  {
    hide FixedPart, Overwrite;
    buf := new byte[h.HeaderLen()](_ => 0);
    StoreFixed(buf, h);
    OverwriteTail(FixedPart(h), Zeros(buf.Length - MIN_HEADER_LEN), h.options);
    if |h.options| > 0 {
      CopyInto(buf, 20, h.options);
    }
  }

  // ---------------------------------------------------------------------------
  // Codec round trips
  // ---------------------------------------------------------------------------

  /** Where each field of a marshalled header sits. */
  lemma FieldsOf(h: Header, b: bytes)
    requires |b| >= MIN_HEADER_LEN && b[..MIN_HEADER_LEN] == FixedPart(h)
    ensures b[0] == VersionByte(h) && b[1] == h.tos
    ensures Get16(b, 2) == h.totalLen && Get16(b, 4) == h.id && Get16(b, 6) == FlagsWord(h)
    ensures b[8] == h.ttl && b[9] == h.protocol && Get16(b, 10) == h.checksum
    ensures b[12..16] == Quad(h.src) && b[16..20] == Quad(h.dst)
  {
    var f := FixedPart(h);
    assert forall i :: 0 <= i < 12 ==> b[i] == b[..MIN_HEADER_LEN][i] == ControlPart(h)[i];
    assert b[12..16] == f[12..16] && b[16..20] == f[16..20];
  }

  lemma MarshalThenParse(h: Header, payload: bytes)
    requires h.OnWire()
    ensures ParseHeader(MarshalOf(h) + payload) == Ok(h)
    ensures h.PayloadOf(MarshalOf(h) + payload) == payload
  {
    hide FixedPart, Get16, FlagsWord, VersionByte, ParseHeader;
    var raw := MarshalOf(h) + payload;
    var rest := OptionArea(h) + payload;
    assert raw == FixedPart(h) + rest;
    FieldsOf(h, raw);
    ParsedFields(h, raw);
    assert raw[MIN_HEADER_LEN..h.HeaderLen()] == OptionArea(h) == h.options;
    assert raw[h.HeaderLen()..] == payload;
  }

  lemma FlagBits(h: Header)
    requires h.OnWire()
    ensures FlagsWord(h) / 0x2000 == h.flags && FlagsWord(h) % 0x2000 == h.fragOffset
    ensures VersionByte(h) / 16 == 4 && VersionByte(h) % 16 == h.ihl
  {
  }

  /** Parsing recovers every field but the options from the bytes that hold them. */
  lemma ParsedFields(h: Header, raw: bytes)
    requires h.OnWire() && h.HeaderLen() <= |raw|
    requires raw[0] == VersionByte(h) && raw[1] == h.tos
    requires Get16(raw, 2) == h.totalLen && Get16(raw, 4) == h.id && Get16(raw, 6) == FlagsWord(h)
    requires raw[8] == h.ttl && raw[9] == h.protocol && Get16(raw, 10) == h.checksum
    requires raw[12..16] == Quad(h.src) && raw[16..20] == Quad(h.dst)
    ensures ParseHeader(raw) == Ok(h.(options := raw[MIN_HEADER_LEN..h.HeaderLen()]))
  {
    FlagBits(h);
    assert h.HeaderLen() == MIN_HEADER_LEN ==> raw[MIN_HEADER_LEN..h.HeaderLen()] == [];
  }

  lemma ParseThenMarshal(raw: bytes)
    requires ParseHeader(raw).Ok? && ParseHeader(raw).value.ihl >= 5
    ensures MarshalOf(ParseHeader(raw).value) == raw[..ParseHeader(raw).value.HeaderLen()]
  {
    var h := ParseHeader(raw).value;
    ParsedControl(raw);
    assert OptionArea(h) == h.options == raw[MIN_HEADER_LEN..h.HeaderLen()];
    hide ControlPart, OptionArea, ParseHeader;
    assert FixedPart(h) == raw[..12] + raw[12..16] + raw[16..20] == raw[..MIN_HEADER_LEN];
  }

  lemma ParsedControl(raw: bytes)
    requires ParseHeader(raw).Ok?
    ensures ControlPart(ParseHeader(raw).value) == raw[..12]
    ensures ParseHeader(raw).value.src == raw[12..16] && ParseHeader(raw).value.dst == raw[16..20]
  {
    var h := ParseHeader(raw).value;
    assert FlagsWord(h) == Get16(raw, 6) && VersionByte(h) == raw[0];
    hide Hi, Lo, Get16, FlagsWord, VersionByte;
    HiLoOfGet16(raw, 2);
    HiLoOfGet16(raw, 4);
    HiLoOfGet16(raw, 6);
    HiLoOfGet16(raw, 10);
    assert [raw[0], raw[1], raw[2], raw[3], raw[4], raw[5], raw[6], raw[7], raw[8], raw[9], raw[10], raw[11]]
        == raw[..12];
  }

  // ---------------------------------------------------------------------------
  // The layout of section 3.1 of RFC 791
  // ---------------------------------------------------------------------------

  /** What is accepted: enough bytes, version 4, and lengths that agree. An IHL below 5 is not refused. */
  lemma AcceptedIff(raw: bytes)
    ensures ParseHeader(raw).Ok?
       <==> |raw| >= 20 && raw[0] / 16 == 4 && raw[0] % 16 * 4 <= Min(|raw|, Get16(raw, 2))
    ensures ParseHeader(raw) == Err(TooShort)
       <==> |raw| < 20 || (raw[0] / 16 == 4 && raw[0] as int % 16 * 4 > |raw|)
  {
  }

  /** Where each field of a header that was read came from. */
  lemma ReadLayout(raw: bytes)
    requires ParseHeader(raw).Ok?
    ensures var h := ParseHeader(raw).value;
      && h.version == 4 && raw[0] == 0x40 + h.ihl && h.tos == raw[1]
      && h.totalLen == Get16(raw, 2) && h.id == Get16(raw, 4)
      && (h.DF() <==> raw[6] / 0x40 % 2 == 1) && (h.MF() <==> raw[6] / 0x20 % 2 == 1)
      && h.flags as int * 0x2000 + h.fragOffset == Get16(raw, 6) && h.fragOffset < 0x2000
      && h.ttl == raw[8] && h.protocol == raw[9] && h.checksum == Get16(raw, 10)
      && h.src == raw[12..16] && h.dst == raw[16..20]
      && h.options == if h.ihl > 5 then raw[20..h.ihl * 4] else []
  {
    var w, f := Get16(raw, 6), raw[6];
    assert w / 0x2000 == f / 0x20;
  }

  lemma FirstBits(raw: bytes, i: nat)
    requires i + 2 <= |raw|
    ensures Get16(raw, i) / 0x4000 == raw[i] / 0x40
  {
  }

  /** Where each field is written, cut to its width. */
  lemma WrittenLayout(h: Header)
    requires h.ihl >= 5
    ensures var b := MarshalOf(h);
      && |b| == h.ihl as int * 4
      && b[0] == h.version % 0x10 * 0x10 + h.ihl % 0x10 && b[1] == h.tos
      && Get16(b, 2) == h.totalLen && Get16(b, 4) == h.id
      && Get16(b, 6) as int == h.flags as int % 8 * 0x2000 + h.fragOffset as int % 0x2000
      && b[8] == h.ttl && b[9] == h.protocol && Get16(b, 10) == h.checksum
      && b[12..16] == Quad(h.src) && b[16..20] == Quad(h.dst)
      && (|h.options| == h.ihl as int * 4 - 20 ==> b[20..] == h.options)
  {
    FieldsOf(h, MarshalOf(h));
  }

  /** Options too short for the header length are followed by zeros, and too long ones are cut off. */
  lemma OptionAreaBytes(h: Header, i: nat)
    requires h.ihl >= 5 && 20 <= i < h.HeaderLen()
    ensures MarshalOf(h)[i] == if i - 20 < |h.options| then h.options[i - 20] else 0
  {
    hide FixedPart;
    assert MarshalOf(h)[i] == OptionArea(h)[i - 20];
  }

  // ---------------------------------------------------------------------------
  // The header checksum
  // ---------------------------------------------------------------------------

  /** `h` with the checksum the code computes: over the header marshalled with a zero checksum. */
  function Seal(h: Header): (s: Header)
    requires h.ihl >= 5
    ensures h.OnWire() ==> s.OnWire()
  {
    h.(checksum := ChecksumOf(MarshalOf(h.(checksum := 0))))
  }

  /** Marshal, checksum, marshal again, as fragments, reassembled packets and built packets are sealed. */
  method MarshalSealed(h: Header) returns (buf: array<byte>)
    requires h.ihl >= 5
    ensures fresh(buf) && buf[..] == MarshalOf(Seal(h))
  {
    var zeroed := h.(checksum := 0);
    var headerBytes := Marshal(zeroed);
    var sum := Checksum.Checksum(headerBytes[..]);
    buf := Marshal(zeroed.(checksum := sum));
  }

  lemma ChecksumField(h: Header, x: uint16)
    requires h.ihl >= 5
    ensures MarshalOf(h.(checksum := x)) == Patch16(MarshalOf(h), 10, x)
    ensures Get16(MarshalOf(h), 10) == h.checksum
  {
    FieldsOf(h, MarshalOf(h));
    assert ControlPart(h.(checksum := x)) == Patch16(ControlPart(h), 10, x);
  }

  lemma SealedVerifies(h: Header)
    requires h.ihl >= 5
    ensures Verifies(MarshalOf(Seal(h)))
  {
    ChecksumField(h, 0);
    ChecksumField(h, Seal(h).checksum);
    StoredChecksumVerifies(MarshalOf(h), 10);
  }

  /** A header verifies exactly with the computed checksum, or with 0xFFFF where 0x0000 was computed. */
  lemma VerifiesIff(h: Header)
    requires h.OnWire()
    ensures Verifies(MarshalOf(h))
       <==> (h.checksum == Seal(h).checksum || (Seal(h).checksum == 0 && h.checksum == 0xFFFF))
  {
    SealedVerifies(h);
    if h != Seal(h) {
      ChecksumField(Seal(h), h.checksum);
      ChecksumField(h, 0);
      ChangedWordDetected(MarshalOf(Seal(h)), 10, h.checksum);
      VersionMakesSumPositive(h.(checksum := 0));
    }
  }

  lemma VersionMakesSumPositive(h: Header)
    requires h.OnWire()
    ensures ChecksumOf(MarshalOf(h)) != 0xFFFF
  {
    var b := MarshalOf(h);
    FieldsOf(h, b);
    NoOverflow(b);
    assert WordSum(b) >= Get16(b, 0) as int > 0;
  }
}

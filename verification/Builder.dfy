/** The packet builder and its identifications (internal/ip/builder.go). */
module Builder {
  import opened Bytes
  import opened IPAddress
  import opened Checksum
  import opened IPHeader

  const DEFAULT_TTL: byte := 64

  // ---------------------------------------------------------------------------
  // Identifications
  // ---------------------------------------------------------------------------

  class IDGenerator {
    var val: uint32

    constructor ()
      ensures val == 0
    {
      val := 0;
    }

    method Next() returns (id: uint16)
      modifies this
      ensures val == Wrap32(old(val) + 1) && id == Wrap16(val)
    {
      val := Wrap32(val + 1);
      id := Wrap16(val);
    }
  }

  /** The generator's value after `n` more calls. */
  function After(val: uint32, n: nat): uint32 {
    if n == 0 then val else Wrap32(After(val, n - 1) + 1)
  }

  /** Two calls give the same identification exactly when a multiple of 65536 calls apart. */
  lemma IDsRepeat(val: uint32, i: nat, j: nat)
    ensures Wrap16(After(val, i)) == Wrap16(After(val, j)) <==> (i - j) % 0x1_0000 == 0
  {
    AfterIsSum(val, i);
    AfterIsSum(val, j);
    LowBits(val + i);
    LowBits(val + j);
    SameLowBits(val + i, val + j);
  }

  lemma {:induction false} AfterIsSum(val: uint32, n: nat)
    ensures After(val, n) == Wrap32(val + n)
  {
    if n > 0 {
      AfterIsSum(val, n - 1);
      WrapOnce(val + (n - 1), 1);
    }
  }

  lemma LowBits(n: nat)
    ensures Wrap16(Wrap32(n)) == n % 0x1_0000
  {
    var q, r := n / 0x1_0000_0000, n % 0x1_0000_0000;
    var p, low := r / 0x1_0000, r % 0x1_0000;
    SplitLow(n, 0x1_0000 * q + p, low);
  }

  lemma SplitLow(n: nat, q: int, low: nat)
    requires n == 0x1_0000 * q + low && low < 0x1_0000
    ensures n % 0x1_0000 == low
  {
  }

  lemma SameLowBits(a: nat, b: nat)
    ensures a % 0x1_0000 == b % 0x1_0000 <==> (a - b) % 0x1_0000 == 0
  {
    var qa, qb := a / 0x1_0000, b / 0x1_0000;
    assert a - b == 0x1_0000 * (qa - qb) + (a % 0x1_0000 - b % 0x1_0000);
  }

  // ---------------------------------------------------------------------------
  // Options
  // ---------------------------------------------------------------------------

  datatype BuildContext = BuildContext(ttl: byte, tos: byte, flags: byte, id: uint16)

  datatype BuildOption = WithTTL(ttl: byte) | WithTOS(tos: byte) | WithDF | WithID(id: uint16)

  function Apply(c: BuildContext, opt: BuildOption): BuildContext {
    match opt
    case WithTTL(n) => c.(ttl := n)
    case WithTOS(n) => c.(tos := n)
    case WithDF => if HasDF(c.flags) then c else c.(flags := (c.flags + 2) % 0x100)
    case WithID(n) => c.(id := n)
  }

  function ApplyAll(c: BuildContext, opts: seq<BuildOption>): BuildContext {
    if opts == [] then c else Apply(ApplyAll(c, opts[..|opts| - 1]), opts[|opts| - 1])
  }

  /** No later option gives the same field. */
  predicate IsLast(opts: seq<BuildOption>, i: nat) {
    i < |opts| && forall j :: i < j < |opts| ==> !Overrides(opts[i], opts[j])
  }

  predicate Overrides(a: BuildOption, b: BuildOption) {
    (a.WithTTL? && b.WithTTL?) || (a.WithTOS? && b.WithTOS?) || (a.WithID? && b.WithID?)
  }

  predicate Gives(opt: BuildOption, r: BuildContext) {
    match opt
    case WithTTL(n) => r.ttl == n
    case WithTOS(n) => r.tos == n
    case WithID(n) => r.id == n
    case WithDF => true
  }

  /** The context holds what the last option for each field gave, and what it held before where none did. */
  ghost predicate LastGiven(c: BuildContext, opts: seq<BuildOption>, r: BuildContext) {
    && (forall i: nat :: IsLast(opts, i) ==> Gives(opts[i], r))
    && ((forall i :: 0 <= i < |opts| ==> !opts[i].WithTTL?) ==> r.ttl == c.ttl)
    && ((forall i :: 0 <= i < |opts| ==> !opts[i].WithTOS?) ==> r.tos == c.tos)
    && ((forall i :: 0 <= i < |opts| ==> !opts[i].WithID?) ==> r.id == c.id)
  }

  lemma OneMoreOption(c: BuildContext, init: seq<BuildOption>, last: BuildOption, r: BuildContext)
    requires LastGiven(c, init, r)
    ensures LastGiven(c, init + [last], Apply(r, last))
  {
    var opts := init + [last];
    assert opts[|init|] == last && forall i :: 0 <= i < |init| ==> opts[i] == init[i];
    forall i: nat | IsLast(opts, i) ensures Gives(opts[i], Apply(r, last)) {
      if i < |init| {
        assert IsLast(init, i) && !Overrides(opts[i], opts[|init|]);
      }
    }
  }

  /** The last TTL, TOS and ID given win, the others keep their defaults; DF is set by any WithDF. */
  lemma {:induction false} LastOptionWins(c: BuildContext, opts: seq<BuildOption>)
    requires c.flags == 0
    ensures LastGiven(c, opts, ApplyAll(c, opts))
    ensures ApplyAll(c, opts).flags == if WithDF in opts then 2 else 0
  {
    hide LastGiven;
    if opts == [] {
      NothingGiven(c);
    } else {
      var init, last := opts[..|opts| - 1], opts[|opts| - 1];
      LastOptionWins(c, init);
      OneMoreOption(c, init, last, ApplyAll(c, init));
      assert opts == init + [last];
    }
  }

  lemma NothingGiven(c: BuildContext)
    ensures LastGiven(c, [], c)
  {
  }

  // ---------------------------------------------------------------------------
  // Building
  // ---------------------------------------------------------------------------

  datatype BuildError = PacketTooLarge

  function HeaderFor(src: bytes, dst: bytes, proto: byte, c: BuildContext, totalLen: uint16): Header {
    Header(4, 5, c.tos, totalLen, c.id, c.flags, 0, c.ttl, proto, 0, src, dst, [])
  }

  function PacketOf(src: bytes, dst: bytes, proto: byte, c: BuildContext, payload: bytes): bytes
    requires MIN_HEADER_LEN + |payload| <= 0xFFFF
  {
    MarshalOf(Seal(HeaderFor(src, dst, proto, c, MIN_HEADER_LEN + |payload|))) + payload
  }

  class PacketBuilder {
    const src: bytes
    const dst: bytes
    const proto: byte
    const ttl: byte
    const tos: byte
    const idGen: IDGenerator

    constructor (src: bytes, dst: bytes, proto: byte, idGen: IDGenerator)
      ensures this.src == src && this.dst == dst && this.proto == proto && this.idGen == idGen
      ensures ttl == 64 && tos == 0
    {
      this.src, this.dst, this.proto, this.idGen := src, dst, proto, idGen;
      ttl, tos := DEFAULT_TTL, 0;
    }

    /** A payload that fits is built whole; every call takes an identification. */
    method BuildWithOptions(payload: bytes, opts: seq<BuildOption>) returns (r: Result<bytes, BuildError>)
      modifies idGen
      ensures idGen.val == Wrap32(old(idGen.val) + 1)
      ensures r == if MIN_HEADER_LEN + |payload| > 0xFFFF then Err(PacketTooLarge)
                   else Ok(PacketOf(src, dst, proto,
                                    ApplyAll(BuildContext(ttl, tos, 0, Wrap16(idGen.val)), opts), payload))
    {
      var id := idGen.Next();
      var ctx := BuildContext(ttl, tos, 0, id);
      ghost var ctx0 := ctx;
      for i := 0 to |opts|
        invariant ctx == ApplyAll(ctx0, opts[..i])
      {
        assert opts[..i + 1][..i] == opts[..i];
        ctx := Apply(ctx, opts[i]);
      }
      assert opts[..|opts|] == opts;
      var totalLen := MIN_HEADER_LEN + |payload|;
      if totalLen > 0xFFFF {
        return Err(PacketTooLarge);
      }
      var headerBytes := MarshalSealed(HeaderFor(src, dst, proto, ctx, totalLen));
      r := Ok(headerBytes[..] + payload);
    }
  }

  /** The header that a built packet carries on the wire. */
  function WireHeader(src: bytes, dst: bytes, proto: byte, c: BuildContext, totalLen: uint16): (h: Header)
    requires totalLen as int >= MIN_HEADER_LEN && c.flags < 8
    ensures h.OnWire()
  {
    Seal(HeaderFor(Quad(src), Quad(dst), proto, c, totalLen))
  }

  /** Whatever form its addresses were given in, a built packet reads back, verifies and is complete. */
  lemma BuiltReadsBack(src: bytes, dst: bytes, proto: byte, c: BuildContext, payload: bytes)
    requires MIN_HEADER_LEN + |payload| <= 0xFFFF && c.flags < 8
    ensures var p, h := PacketOf(src, dst, proto, c, payload),
                        WireHeader(src, dst, proto, c, MIN_HEADER_LEN + |payload|);
      && ParseHeader(p) == Ok(h) && h.PayloadOf(p) == payload && h.totalLen as int == |p|
      && Verifies(p[..MIN_HEADER_LEN])
  {
    var h := WireHeader(src, dst, proto, c, MIN_HEADER_LEN + |payload|);
    AddressForms(HeaderFor(src, dst, proto, c, MIN_HEADER_LEN + |payload|));
    hide Verifies, ParseHeader, FixedPart;
    MarshalThenParse(h, payload);
    SealedVerifies(HeaderFor(Quad(src), Quad(dst), proto, c, MIN_HEADER_LEN + |payload|));
    assert PacketOf(src, dst, proto, c, payload)[..MIN_HEADER_LEN] == MarshalOf(h);
  }

  lemma AddressForms(h: Header)
    requires h.ihl >= 5
    ensures MarshalOf(Seal(h)) == MarshalOf(Seal(h.(src := Quad(h.src), dst := Quad(h.dst))))
  {
    hide ChecksumOf;
    var h' := h.(src := Quad(h.src), dst := Quad(h.dst));
    assert forall x :: ControlPart(h.(checksum := x)) == ControlPart(h'.(checksum := x));
    assert MarshalOf(h.(checksum := 0)) == MarshalOf(h'.(checksum := 0));
  }

  /** The bytes of a packet that the default builder makes with the given options. */
  lemma BuiltBytes(src: bytes, dst: bytes, proto: byte, id: uint16, opts: seq<BuildOption>, payload: bytes)
    requires MIN_HEADER_LEN + |payload| <= 0xFFFF
    ensures var r := ApplyAll(BuildContext(64, 0, 0, id), opts);
      var p := PacketOf(src, dst, proto, r, payload);
      && LastGiven(BuildContext(64, 0, 0, id), opts, r)
      && |p| == 20 + |payload| && p[20..] == payload
      && p[0] == 0x45 && p[1] == r.tos && Get16(p, 2) as int == |p| && Get16(p, 4) == r.id
      && Get16(p, 6) == (if WithDF in opts then 0x4000 else 0)
      && p[8] == r.ttl && p[9] == proto && p[12..16] == Quad(src) && p[16..20] == Quad(dst)
  {
    hide PacketOf, ParseHeader, Verifies;
    var c := BuildContext(64, 0, 0, id);
    LastOptionWins(c, opts);
    var r := ApplyAll(c, opts);
    hide ApplyAll, LastGiven;
    PacketBytes(src, dst, proto, r, payload);
  }

  lemma PacketBytes(src: bytes, dst: bytes, proto: byte, c: BuildContext, payload: bytes)
    requires MIN_HEADER_LEN + |payload| <= 0xFFFF && c.flags < 8
    ensures var p := PacketOf(src, dst, proto, c, payload);
      && |p| == 20 + |payload| && p[20..] == payload
      && p[0] == 0x45 && p[1] == c.tos && Get16(p, 2) as int == |p| && Get16(p, 4) == c.id
      && Get16(p, 6) as int == c.flags as int * 0x2000
      && p[8] == c.ttl && p[9] == proto && p[12..16] == Quad(src) && p[16..20] == Quad(dst)
  {
    hide ChecksumOf, ControlPart, Get16, FlagsWord, VersionByte;
    AddressForms(HeaderFor(src, dst, proto, c, MIN_HEADER_LEN + |payload|));
    var h := WireHeader(src, dst, proto, c, MIN_HEADER_LEN + |payload|);
    WireFields(src, dst, proto, c, MIN_HEADER_LEN + |payload|);
    var p := MarshalOf(h) + payload;
    assert p[..MIN_HEADER_LEN] == FixedPart(h);
    FieldsOf(h, p);
  }

  lemma WireFields(src: bytes, dst: bytes, proto: byte, c: BuildContext, totalLen: uint16)
    requires totalLen as int >= MIN_HEADER_LEN && c.flags < 8
    ensures var h := WireHeader(src, dst, proto, c, totalLen);
      && VersionByte(h) == 0x45 && FlagsWord(h) as int == c.flags as int * 0x2000
      && h.tos == c.tos && h.totalLen == totalLen && h.id == c.id && h.ttl == c.ttl && h.protocol == proto
      && h.src == Quad(src) && h.dst == Quad(dst) && h.options == [] && h.ihl == 5
  {
    hide ChecksumOf, MarshalOf;
  }
}

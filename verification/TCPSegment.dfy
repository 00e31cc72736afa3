/** TCP checksums over whole segments (internal/tcp/checksum.go), and what `send` puts on the wire. */
module TCPSegment {
  import opened Bytes
  import opened OnesComplement
  import opened Checksum
  import opened TCPHeader

  /** The longest segment whose sum, with the pseudo-header, cannot overflow 32 bits. */
  const MAX_SUMMED := 131062

  /** `segment` with its checksum field filled in; too short segments are left alone. */
  function Sealed(src: bytes, dst: bytes, segment: bytes): (s: bytes)
    ensures |s| == |segment|
  {
    if |segment| < MIN_HEADER_LEN then segment
    else Patch16(segment, 16, TCPChecksumOf(src, dst, Patch16(segment, 16, 0)))
  }

  class ChecksumCalculator {
    const src: bytes
    const dst: bytes

    constructor (src: bytes, dst: bytes)
      ensures this.src == src && this.dst == dst
    {
      this.src, this.dst := src, dst;
    }

    method Compute(segment: array<byte>) returns (c: uint16)
      ensures c == TCPChecksumOf(src, dst, segment[..])
    {
      c := TCPChecksum(src, dst, segment[..]);
    }

    method Verify(segment: array<byte>) returns (ok: bool)
      ensures ok <==> TCPChecksumOf(src, dst, segment[..]) == 0
    {
      var c := TCPChecksum(src, dst, segment[..]);
      ok := c == 0;
    }

    method SetAndCompute(segment: array<byte>)
      modifies segment
      ensures segment[..] == Sealed(src, dst, old(segment[..]))
    {
      hide TCPChecksumOf;
      if segment.Length < MIN_HEADER_LEN {
        return;
      }
      segment[16] := 0;
      segment[17] := 0;
      assert segment[..] == Patch16(old(segment[..]), 16, 0);
      var chksum := Compute(segment);
      segment[16], segment[17] := Hi(chksum), Lo(chksum);
    }
  }

  lemma PseudoSumSymmetric(src: bytes, dst: bytes, n: nat)
    ensures PseudoSum(src, dst, n) == PseudoSum(dst, src, n)
    ensures n <= MAX_SUMMED ==> PseudoSum(src, dst, n) <= 4 * 0xFFFF + 6 + n
  {
  }

  /** A sealed segment verifies at the sender, and at the receiver with the addresses swapped. */
  lemma SealedVerifies(src: bytes, dst: bytes, segment: bytes)
    requires MIN_HEADER_LEN <= |segment| <= MAX_SUMMED
    ensures TCPChecksumOf(src, dst, Sealed(src, dst, segment)) == 0
    ensures TCPChecksumOf(dst, src, Sealed(src, dst, segment)) == 0
  {
    hide PseudoSum, WordSum, Finish;
    var zeroed := Patch16(segment, 16, 0);
    var base := PseudoSum(src, dst, |segment|);
    PseudoSumSymmetric(src, dst, |segment|);
    StoredSumVerifies(base, zeroed, 16);
    assert Patch16(zeroed, 16, TCPChecksumOf(src, dst, zeroed)) == Sealed(src, dst, segment);
  }

  /** Changing one aligned word of a segment that verifies is detected, except 0x0000 against 0xFFFF. */
  lemma ChangedWordDetected(src: bytes, dst: bytes, segment: bytes, p: nat, x: uint16)
    requires p % 2 == 0 && p + 2 <= |segment| <= MAX_SUMMED
    requires TCPChecksumOf(src, dst, segment) == 0 && x != Get16(segment, p)
    ensures TCPChecksumOf(src, dst, Patch16(segment, p, x)) == 0
       <==> ((Get16(segment, p) == 0 && x == 0xFFFF) || (Get16(segment, p) == 0xFFFF && x == 0))
  {
    hide PseudoSum, WordSum, Residue;
    var base, changed := PseudoSum(src, dst, |segment|), Patch16(segment, p, x);
    PseudoSumSymmetric(src, dst, |segment|);
    PseudoSumPositive(src, dst, |segment|);
    WordSumBound(segment);
    WordSumBound(changed);
    FinishIsComplement(base + WordSum(segment));
    FinishIsComplement(base + WordSum(changed));
    WordSumPatch(segment, p, x);
    WordSumPatch(segment, p, 0);
    ChangedSum(base + WordSum(segment), Get16(segment, p), x);
  }

  /** The protocol number alone makes the pseudo-header's sum positive. */
  lemma PseudoSumPositive(src: bytes, dst: bytes, n: nat)
    ensures PseudoSum(src, dst, n) > 0
  {
  }

  lemma ChecksumField(h: Header, x: uint16)
    ensures MarshalOf(h.(checksum := x)) == Patch16(MarshalOf(h), 16, x)
  {
    hide NumberPart, OptionBytes;
    var m := Marked(h);
    assert ControlPart(m.(checksum := x)) == Patch16(ControlPart(m), 4, x);
    SameNumbers(m, x);
  }

  lemma SameNumbers(h: Header, x: uint16)
    ensures NumberPart(h.(checksum := x)) == NumberPart(h)
  {
  }

  /** The bytes `send` hands to the output function. */
  function SegmentOf(src: bytes, dst: bytes, h: Header, payload: bytes): bytes {
    Sealed(src, dst, MarshalOf(h) + payload)
  }

  /** The header as the receiver reads it: DataOffset and Checksum filled in. */
  function Received(src: bytes, dst: bytes, h: Header, payload: bytes): Header {
    Marked(h).(checksum := TCPChecksumOf(src, dst, Patch16(MarshalOf(h) + payload, 16, 0)))
  }

  lemma SegmentReadsBack(src: bytes, dst: bytes, h: Header, payload: bytes)
    requires AllWellFormed(h.options) && |OptionBytes(h.options)| <= 40
    requires |MarshalOf(h)| + |payload| <= MAX_SUMMED
    ensures var seg := SegmentOf(src, dst, h, payload);
      && TCPChecksumOf(dst, src, seg) == 0
      && ParsedHeader(seg) == Ok(Received(src, dst, h, payload))
      && Received(src, dst, h, payload).HeaderLen() <= |seg|
      && seg[Received(src, dst, h, payload).HeaderLen()..] == payload
  {
    hide TCPChecksumOf, MarshalOf, ParsedHeader, OptionBytes;
    var plain := MarshalOf(h) + payload;
    SealedVerifies(src, dst, plain);
    var c := TCPChecksumOf(src, dst, Patch16(plain, 16, 0));
    ChecksumField(h, c);
    assert Patch16(plain, 16, c) == Patch16(MarshalOf(h), 16, c) + payload;
    MarshalThenParse(h.(checksum := c), payload);
  }
}

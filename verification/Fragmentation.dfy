/** Splitting IPv4 packets (internal/ip/fragment.go). */
module Fragmentation {
  import opened Bytes
  import opened IPHeader

  datatype FragmentError = BadHeader(why: ParseError) | DontFragment | MTUTooSmall

  /** `Panics` stands for the run-time panic of `Marshal` on an IHL below 5. */
  datatype FragmentResult = Pieces(fragments: seq<bytes>) | Refused(error: FragmentError) | Panics

  predicate NeedsFragmentation(packetLen: int, mtu: int) {
    packetLen > mtu
  }

  /** The header of the fragment that carries bytes `lo..hi` of the payload under `h`, not yet sealed. */
  function PieceDraft(h: Header, lo: nat, hi: nat, last: bool): (d: Header)
    requires lo <= hi
    ensures d.ihl == h.ihl
  {
    (if last then h else h.SetMF()).(
      fragOffset := Wrap16(h.fragOffset + Wrap16(lo / 8)),
      totalLen := Wrap16(h.HeaderLen() + hi - lo))
  }

  /** The fields of a fragment, with what the 16-bit variables lose. */
  lemma DraftFieldsCut(h: Header, lo: nat, hi: nat, last: bool)
    requires lo <= hi
    ensures var d := PieceDraft(h, lo, hi, last);
      && d == h.(fragOffset := (h.fragOffset as int + lo / 8 % 0x1_0000) % 0x1_0000,
                 totalLen := (h.ihl as int * 4 + hi - lo) % 0x1_0000, flags := d.flags)
      && d.flags / 2 == h.flags / 2 && d.flags % 2 == if last then h.flags % 2 else 1
  {
  }

  function PieceHeader(h: Header, lo: nat, hi: nat, last: bool): Header
    requires h.ihl >= 5 && lo <= hi
  {
    Seal(PieceDraft(h, lo, hi, last))
  }

  function PieceBytes(h: Header, payload: bytes, lo: nat, hi: nat, last: bool): bytes
    requires h.ihl >= 5 && lo <= hi <= |payload|
  {
    MarshalOf(PieceHeader(h, lo, hi, last)) + payload[lo..hi]
  }

  /** The fragments of `payload[from..]`, `size` bytes each but for the last. */
  function Split(h: Header, payload: bytes, size: nat, from: nat): seq<bytes>
    requires h.ihl >= 5 && size > 0
    decreases |payload| - from
  {
    if from >= |payload| then []
    else if |payload| - from <= size then [PieceBytes(h, payload, from, |payload|, true)]
    else [PieceBytes(h, payload, from, from + size, false)] + Split(h, payload, size, from + size)
  }

  /** The most payload a fragment may carry: a multiple of 8. */
  function PieceSize(mtu: int, headerLen: int): int {
    (mtu - headerLen) / 8 * 8
  }

  function FragmentOf(packet: bytes, mtu: int): FragmentResult {
    if !NeedsFragmentation(|packet|, mtu) then Pieces([packet])
    else match ParseHeader(packet)
      case Err(e) => Refused(BadHeader(e))
      case Ok(h) =>
        if h.DF() then Refused(DontFragment)
        else if mtu < h.HeaderLen() + 8 then Refused(MTUTooSmall)
        else if h.ihl < 5 then Panics
        else Pieces(Split(h, h.PayloadOf(packet), PieceSize(mtu, h.HeaderLen()), 0))
  }

  /** One turn of the loop: copy the header, adjust offset, length and MF, seal it, append the bytes. */
  method EmitPiece(header: Header, payload: bytes, lo: nat, hi: nat, isLast: bool) returns (fragPacket: bytes)
    requires header.ihl >= 5 && lo <= hi <= |payload|
    ensures fragPacket == PieceBytes(header, payload, lo, hi, isLast)
  {
    var fragHeader := header.(fragOffset := Wrap16(header.fragOffset + Wrap16(lo / 8)));
    fragHeader := fragHeader.(totalLen := Wrap16(header.HeaderLen() + (hi - lo)));
    if !isLast {
      fragHeader := fragHeader.SetMF();
    } else {
      fragHeader := fragHeader.(flags := header.flags);
    }
    assert fragHeader == PieceDraft(header, lo, hi, isLast);
    var headerBytes := MarshalSealed(fragHeader);
    fragPacket := headerBytes[..] + payload[lo..hi];
  }

  method Fragment(packet: bytes, mtu: int) returns (r: FragmentResult)
    ensures r == FragmentOf(packet, mtu)
  {
    if !NeedsFragmentation(|packet|, mtu) {
      return Pieces([packet]);
    }
    var parsed := ParseHeader(packet);
    if parsed.Err? {
      return Refused(BadHeader(parsed.error));
    }
    var header := parsed.value;
    if header.DF() {
      return Refused(DontFragment);
    }
    var headerLen := header.HeaderLen();
    if mtu < headerLen + 8 {
      return Refused(MTUTooSmall);
    }
    if header.ihl < 5 {
      return Panics;
    }
    var fragments := SplitPayload(header, header.PayloadOf(packet), PieceSize(mtu, headerLen));
    return Pieces(fragments);
  }

  lemma SplitStep(h: Header, payload: bytes, size: nat, from: nat)
    requires h.ihl >= 5 && size > 0 && from < |payload|
    ensures var next := Min(|payload|, from + size);
      Split(h, payload, size, from)
        == [PieceBytes(h, payload, from, next, |payload| - from <= size)] + Split(h, payload, size, next)
  {
  }

  lemma SplitDone(h: Header, payload: bytes, size: nat)
    requires h.ihl >= 5 && size > 0
    ensures Split(h, payload, size, |payload|) == []
  {
  }

  /** The splitting loop of `Fragment`. */
  method SplitPayload(header: Header, payload: bytes, maxPayloadPerFragment: nat) returns (fragments: seq<bytes>)
    requires header.ihl >= 5 && maxPayloadPerFragment > 0
    ensures fragments == Split(header, payload, maxPayloadPerFragment, 0)
  {
    hide PieceBytes, Split;
    var payloadLen := |payload|;
    fragments := [];
    var offset := 0;
    while offset < payloadLen
      invariant 0 <= offset <= payloadLen
      invariant fragments + Split(header, payload, maxPayloadPerFragment, offset)
             == Split(header, payload, maxPayloadPerFragment, 0)
    {
      var remaining := payloadLen - offset;
      var fragmentPayloadLen, isLast := maxPayloadPerFragment, false;
      if remaining <= maxPayloadPerFragment {
        fragmentPayloadLen, isLast := remaining, true;
      }
      var fragPacket := EmitPiece(header, payload, offset, offset + fragmentPayloadLen, isLast);
      SplitStep(header, payload, maxPayloadPerFragment, offset);
      ghost var rest := Split(header, payload, maxPayloadPerFragment, offset + fragmentPayloadLen);
      assert fragments + ([fragPacket] + rest) == fragments + [fragPacket] + rest;
      fragments := fragments + [fragPacket];
      offset := offset + fragmentPayloadLen;
    }
    SplitDone(header, payload, maxPayloadPerFragment);
  }

  // ---------------------------------------------------------------------------
  // Which packets are split
  // ---------------------------------------------------------------------------

  /** A packet is left as it is exactly when it fits. */
  lemma UnsplitIff(packet: bytes, mtu: int)
    ensures FragmentOf(packet, mtu) == Pieces([packet]) <==> |packet| <= mtu
  {
    hide PieceBytes;
    if FragmentOf(packet, mtu).Pieces? && |packet| > mtu {
      var h := ParseHeader(packet).value;
      var payload, size := h.PayloadOf(packet), PieceSize(mtu, h.HeaderLen());
      SplitStep(h, payload, size, 0);
      SplitStep(h, payload, size, size);
    }
  }

  /** What becomes of one that does not fit, on the bytes of its header: DF is tested before the MTU. */
  lemma RefusedIff(packet: bytes, mtu: int)
    requires mtu < |packet|
    ensures forall e :: FragmentOf(packet, mtu) == Refused(BadHeader(e)) <==> ParseHeader(packet) == Err(e)
    ensures ParseHeader(packet).Ok? ==>
      var df, headerLen := Get16(packet, 6) / 0x4000 % 2 == 1, packet[0] % 16 * 4;
      && (FragmentOf(packet, mtu) == Refused(DontFragment) <==> df)
      && (FragmentOf(packet, mtu) == Refused(MTUTooSmall) <==> !df && mtu < headerLen as int + 8)
      && (FragmentOf(packet, mtu) == Panics <==> !df && mtu >= headerLen as int + 8 && headerLen < 20)
      && (FragmentOf(packet, mtu).Pieces? <==> !df && mtu >= headerLen as int + 8 && headerLen >= 20)
  {
    hide Split, ParseHeader, Get16;
    AcceptedIff(packet);
    if ParseHeader(packet).Ok? {
      ReadLayout(packet);
      FirstBits(packet, 6);
    }
  }
}

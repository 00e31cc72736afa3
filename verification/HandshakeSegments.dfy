/** The segments of the handshake byte by byte, as the handlers send them (section 3.1 of RFC 9293). */
module HandshakeSegments {
  import opened Bytes
  import opened Checksum
  import opened TCPHeader
  import opened TCPSegment
  import opened StateMachine
  import opened Connection

  /** Every byte of a segment but those of its checksum, which verifies at the peer. */
  ghost predicate IsSegment(
    b: bytes, key: ConnKey, seqNum: int, ackNum: int, flags: byte, window: uint16, options: bytes)
  {
    && |b| == 20 + |options|
    && Get16(b, 0) == key.srcPort && Get16(b, 2) == key.dstPort && Get32(b, 4) == seqNum && Get32(b, 8) == ackNum
    && b[12] as int == |b| / 4 * 16 && b[13] == flags && Get16(b, 14) == window && Get16(b, 18) == 0
    && b[20..] == options
    && TCPChecksumOf(key.dstIP, key.srcIP, b) == 0
  }

  lemma SegmentBytes(key: ConnKey, h: Header)
    requires AllWellFormed(h.options) && |OptionBytes(h.options)| <= 40
    requires h.srcPort == key.srcPort && h.dstPort == key.dstPort && h.urgent == 0
    ensures IsSegment(SegmentOf(key.srcIP, key.dstIP, h, []), key, h.seqNum, h.ackNum, h.flags, h.window,
                      OptionBytes(h.options))
  {
    hide TCPChecksumOf, MarshalOf, OptionBytes, Get16, Get32;
    var src, dst := key.srcIP, key.dstIP;
    SegmentReadsBack(src, dst, h, []);
    var c := TCPChecksumOf(src, dst, Patch16(MarshalOf(h) + [], 16, 0));
    ChecksumField(h, c);
    WrittenLayout(h.(checksum := c), []);
    assert MarshalOf(h) + [] == MarshalOf(h);
    assert MarshalOf(h.(checksum := c)) + [] == MarshalOf(h.(checksum := c));
  }

  lemma OptionsOf(mss: uint16)
    ensures OptionBytes([]) == []
    ensures OptionBytes([MSSOption(mss)]) == [2, 4] + Put16(mss) && AllWellFormed([MSSOption(mss)])
  {
    assert [MSSOption(mss)][1..] == [];
    assert EncodedOptions([MSSOption(mss)]) == [2, 4] + Put16(mss);
  }

  /** An opening sends a SYN with the number chosen and the MSS. */
  lemma OpenSendsSYN(t: Tcb, isn: uint32)
    ensures var o := OnOpen(t, isn, true);
      o.sent.Some? && IsSegment(o.sent.value, t.key, isn, 0, 0x02, t.rcvWND, [2, 4] + Put16(t.mss))
  {
    hide SegmentOf, IsSegment, OptionBytes, Put16;
    OptionsOf(t.mss);
    SegmentBytes(t.key, SYNHeader(WithISN(t, isn)));
  }

  /** A SYN is answered by a SYN-ACK that acknowledges the number after it, with the MSS as negotiated. */
  lemma SYNIsAnswered(t: Tcb, seg: Header, isn: uint32)
    requires seg.HasFlag(FLAG_SYN)
    ensures var o := OnSYN(t, seg, isn, true);
      && o.sent.Some? && o.tcb.mss == Negotiated(t.mss, seg)
      && IsSegment(o.sent.value, t.key, isn, (seg.seqNum as int + 1) % 0x1_0000_0000, 0x12, t.rcvWND,
                   [2, 4] + Put16(o.tcb.mss))
  {
    hide SegmentOf, IsSegment, OptionBytes, AdvertisedMSS, Put16;
    var t1 := OnSYN(t, seg, isn, true).tcb;
    OptionsOf(t1.mss);
    SegmentBytes(t.key, SYNACKHeader(t1));
  }

  /** A SYN-ACK is answered by an ACK without options, with the number after the client's own SYN. */
  lemma SYNACKIsAcknowledged(t: Tcb, seg: Header)
    requires seg.HasFlag(FLAG_SYN) && seg.HasFlag(FLAG_ACK) && seg.ackNum == t.sndNXT
    ensures var o := OnSYNACK(t, seg, true);
      && o.sent.Some?
      && IsSegment(o.sent.value, t.key, t.sndNXT, (seg.seqNum as int + 1) % 0x1_0000_0000, 0x10, t.rcvWND, [])
  {
    hide SegmentOf, IsSegment, OptionBytes, AdvertisedMSS, Put16;
    var t1 := OnSYNACK(t, seg, true).tcb;
    OptionsOf(0);
    SegmentBytes(t.key, ACKHeader(t1));
  }

  /** In SYN_SENT that number is the client's initial number plus one. */
  lemma LastACKNumber(t: Tcb, isn: uint32, seg: Header)
    requires seg.HasFlag(FLAG_SYN) && seg.HasFlag(FLAG_ACK)
    requires var o := OnOpen(t, isn, true); t.state == Closed && seg.ackNum == o.tcb.sndNXT
    ensures var o := OnSYNACK(OnOpen(t, isn, true).tcb, seg, true);
      o.sent.Some? && |o.sent.value| == 20 && Get32(o.sent.value, 4) as int == (isn as int + 1) % 0x1_0000_0000
  {
    hide SegmentOf, AdvertisedMSS, Get32, TCPChecksumOf;
    SYNACKIsAcknowledged(OnOpen(t, isn, true).tcb, seg);
  }

  /** The first segment of a new connection. */
  lemma FirstSegment(key: ConnKey, isn: uint32)
    ensures var t := Tcb(key, Closed, 0, 0, 0, DEFAULT_WINDOW, 0, DEFAULT_WINDOW, DEFAULT_MSS);
      var b := OnOpen(t, isn, true).sent.value;
      |b| == 24 && Get16(b, 14) == 65535 && b[20..] == [2, 4, 0x05, 0xB4]
  {
    hide SegmentOf, TCPChecksumOf;
    OpenSendsSYN(Tcb(key, Closed, 0, 0, 0, DEFAULT_WINDOW, 0, DEFAULT_WINDOW, DEFAULT_MSS), isn);
    assert Put16(1460) == [0x05, 0xB4];
  }
}

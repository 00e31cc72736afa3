/**
 The transmission control block and the handshake handlers
 (internal/tcp/conn.go and internal/tcp/handshake.go).
 */
module Connection {
  import opened Bytes
  import opened TCPHeader
  import opened TCPSegment
  import opened StateMachine

  type Address = a: bytes | |a| == 4 witness [0, 0, 0, 0]

  datatype ConnKey = ConnKey(srcIP: Address, srcPort: uint16, dstIP: Address, dstPort: uint16)

  const DEFAULT_MSS: uint16 := 1460
  const DEFAULT_WINDOW: uint16 := 65535

  datatype HandshakeError = SendFailed | UnexpectedSegment | BadAck | InvalidTransition

  /** The fields of a connection as a value. */
  datatype Tcb = Tcb(
    key: ConnKey, state: TCPState, sndISN: uint32, sndNXT: uint32, sndUNA: uint32, sndWND: uint16,
    rcvNXT: uint32, rcvWND: uint16, mss: uint16)

  /** A handler's effect: the fields after it, the segment accepted by the output, the error returned. */
  datatype Outcome = Outcome(tcb: Tcb, sent: Option<bytes>, error: Option<HandshakeError>)

  function SentBy(o: Outcome): seq<bytes> {
    if o.sent.Some? then [o.sent.value] else []
  }

  function Next(n: uint32): uint32 {
    Wrap32(n + 1)
  }

  // ---------------------------------------------------------------------------
  // Maximum segment size
  // ---------------------------------------------------------------------------

  function MSSOption(mss: uint16): (opt: TCPOption)
    ensures WellFormed(opt)
  {
    TCPOption(OPT_MSS, 4, Put16(mss))
  }

  function AdvertisedMSS(opts: seq<TCPOption>): Option<uint16> {
    if opts == [] then None
    else if opts[0].kind == OPT_MSS && |opts[0].data| == 2 then Some(Get16(opts[0].data, 0))
    else AdvertisedMSS(opts[1..])
  }

  predicate OffersMSS(opt: TCPOption) { opt.kind == 2 && |opt.data| == 2 }

  /** The first MSS option with two bytes counts, wherever it is. */
  lemma {:induction false} FirstMSSCounts(pre: seq<TCPOption>, opt: TCPOption, post: seq<TCPOption>)
    requires forall i :: 0 <= i < |pre| ==> !OffersMSS(pre[i])
    ensures AdvertisedMSS(pre) == None
    ensures OffersMSS(opt) ==> AdvertisedMSS(pre + [opt] + post) == Some(Get16(opt.data, 0))
  {
    if pre == [] {
      assert pre + [opt] + post == [opt] + post;
    } else {
      assert (pre + [opt] + post)[1..] == pre[1..] + [opt] + post;
      FirstMSSCounts(pre[1..], opt, post);
    }
  }

  method ParseMSS(h: Header) returns (r: Option<uint16>)
    ensures r == AdvertisedMSS(h.options)
  {
    assert h.options[0..] == h.options;
    for i := 0 to |h.options|
      invariant AdvertisedMSS(h.options) == AdvertisedMSS(h.options[i..])
    {
      assert h.options[i..][1..] == h.options[i + 1..];
      var opt := h.options[i];
      if opt.kind == OPT_MSS && |opt.data| == 2 {
        return Some(Get16(opt.data, 0));
      }
    }
    r := None;
  }

  /** The smaller of ours and the peer's, if the peer advertised a positive one. */
  function Negotiated(mss: uint16, seg: Header): uint16 {
    match AdvertisedMSS(seg.options)
    case Some(peer) => if 0 < peer < mss then peer else mss
    case None => mss
  }

  /** An offer of 0, or none, leaves ours; any other gives the lesser of both. */
  lemma NegotiatedIsLesser(mss: uint16, seg: Header, peer: uint16)
    ensures AdvertisedMSS(seg.options) in {None, Some(0)} ==> Negotiated(mss, seg) == mss
    ensures AdvertisedMSS(seg.options) == Some(peer) && peer > 0 ==> Negotiated(mss, seg) == Min(mss, peer)
  {
    hide AdvertisedMSS;
  }

  // ---------------------------------------------------------------------------
  // The handlers on values
  // ---------------------------------------------------------------------------

  function NewHeader(key: ConnKey, window: uint16, flags: byte): Header {
    Header(key.srcPort, key.dstPort, 0, 0, 0, flags, window, 0, 0, [])
  }

  function Emitted(t: Tcb, h: Header, accepted: bool): Option<bytes> {
    if accepted then Some(SegmentOf(t.key.srcIP, t.key.dstIP, h, [])) else None
  }

  /** Ends a handler: move to `to` if the table allows it. */
  function Move(t: Tcb, to: TCPState, sent: Option<bytes>): Outcome {
    if to in Allowed(t.state) then Outcome(t.(state := to), sent, None)
    else Outcome(t, sent, Some(InvalidTransition))
  }

  function WithISN(t: Tcb, isn: uint32): Tcb {
    t.(sndISN := isn, sndUNA := isn, sndNXT := Next(isn))
  }

  function SYNHeader(t: Tcb): Header {
    NewHeader(t.key, t.rcvWND, FLAG_SYN).(seqNum := t.sndISN, options := [MSSOption(t.mss)])
  }

  function SYNACKHeader(t: Tcb): Header {
    NewHeader(t.key, t.rcvWND, FLAG_SYN + FLAG_ACK).(
      seqNum := t.sndISN, ackNum := t.rcvNXT, options := [MSSOption(t.mss)])
  }

  function ACKHeader(t: Tcb): Header {
    NewHeader(t.key, t.rcvWND, FLAG_ACK).(seqNum := t.sndNXT, ackNum := t.rcvNXT)
  }

  function OnOpen(t: Tcb, isn: uint32, accepted: bool): Outcome {
    var t1 := WithISN(t, isn);
    var sent := Emitted(t1, SYNHeader(t1), accepted);
    if !accepted then Outcome(t1, sent, Some(SendFailed)) else Move(t1, SynSent, sent)
  }

  function OnSYN(t: Tcb, seg: Header, isn: uint32, accepted: bool): Outcome {
    if !seg.HasFlag(FLAG_SYN) then Outcome(t, None, Some(UnexpectedSegment))
    else
      var t1 := if t.state == Closed then t.(state := Listen) else t;
      var t2 := WithISN(t1.(rcvNXT := Next(seg.seqNum), sndWND := seg.window, mss := Negotiated(t.mss, seg)), isn);
      var sent := Emitted(t2, SYNACKHeader(t2), accepted);
      if !accepted then Outcome(t2, sent, Some(SendFailed)) else Move(t2, SynReceived, sent)
  }

  function OnSYNACK(t: Tcb, seg: Header, accepted: bool): Outcome {
    if !seg.HasFlag(FLAG_SYN) || !seg.HasFlag(FLAG_ACK) then Outcome(t, None, Some(UnexpectedSegment))
    else if seg.ackNum != t.sndNXT then Outcome(t, None, Some(BadAck))
    else
      var t1 := t.(sndUNA := seg.ackNum, rcvNXT := Next(seg.seqNum), sndWND := seg.window,
                   mss := Negotiated(t.mss, seg));
      var sent := Emitted(t1, ACKHeader(t1), accepted);
      if !accepted then Outcome(t1, sent, Some(SendFailed)) else Move(t1, Established, sent)
  }

  function OnACK(t: Tcb, seg: Header): Outcome {
    if !seg.HasFlag(FLAG_ACK) then Outcome(t, None, Some(UnexpectedSegment))
    else if seg.ackNum != t.sndNXT then Outcome(t, None, Some(BadAck))
    else Move(t.(sndUNA := seg.ackNum, sndWND := seg.window), Established, None)
  }

  /** The error of each handler, in every state; the guards come before the output, and the output before the table. */
  lemma ErrorsIff(t: Tcb, seg: Header, isn: uint32, accepted: bool)
    ensures OnOpen(t, isn, accepted).error
         == if !accepted then Some(SendFailed)
            else if t.state in {Closed, Listen} then None else Some(InvalidTransition)
    ensures OnSYN(t, seg, isn, accepted).error
         == if !seg.HasFlag(0x02) then Some(UnexpectedSegment)
            else if !accepted then Some(SendFailed)
            else if t.state in {Closed, Listen, SynSent} then None else Some(InvalidTransition)
    ensures OnSYNACK(t, seg, accepted).error
         == if !seg.HasFlag(0x02) || !seg.HasFlag(0x10) then Some(UnexpectedSegment)
            else if seg.ackNum != t.sndNXT then Some(BadAck)
            else if !accepted then Some(SendFailed)
            else if t.state in {SynSent, SynReceived} then None else Some(InvalidTransition)
    ensures OnACK(t, seg).error
         == if !seg.HasFlag(0x10) then Some(UnexpectedSegment)
            else if seg.ackNum != t.sndNXT then Some(BadAck)
            else if t.state in {SynSent, SynReceived} then None else Some(InvalidTransition)
    ensures OnSYN(t, seg, isn, false).tcb.state
         == if seg.HasFlag(0x02) && t.state == Closed then Listen else t.state
  {
    hide SegmentOf, AdvertisedMSS;
  }

  /** The fields each handler writes once its guards pass, in every state and whether or not its output succeeds. */
  lemma FieldsWritten(t: Tcb, seg: Header, isn: uint32, accepted: bool)
    ensures var o := OnOpen(t, isn, accepted).tcb;
      o == t.(state := o.state, sndISN := isn, sndUNA := isn, sndNXT := (isn as int + 1) % 0x1_0000_0000)
    ensures seg.HasFlag(0x02) ==>
      var o := OnSYN(t, seg, isn, accepted).tcb;
      o == t.(state := o.state, sndISN := isn, sndUNA := isn, sndNXT := (isn as int + 1) % 0x1_0000_0000,
              rcvNXT := (seg.seqNum as int + 1) % 0x1_0000_0000, sndWND := seg.window, mss := Negotiated(t.mss, seg))
    ensures seg.HasFlag(0x02) && seg.HasFlag(0x10) && seg.ackNum == t.sndNXT ==>
      var o := OnSYNACK(t, seg, accepted).tcb;
      o == t.(state := o.state, sndUNA := seg.ackNum, rcvNXT := (seg.seqNum as int + 1) % 0x1_0000_0000,
              sndWND := seg.window, mss := Negotiated(t.mss, seg))
    ensures seg.HasFlag(0x10) && seg.ackNum == t.sndNXT ==>
      var o := OnACK(t, seg);
      o.tcb == t.(state := o.tcb.state, sndUNA := seg.ackNum, sndWND := seg.window) && o.sent == None
  {
    hide SegmentOf, AdvertisedMSS;
  }

  // ---------------------------------------------------------------------------
  // The connection object
  // ---------------------------------------------------------------------------

  class TCPConn {
    const key: ConnKey
    const state: Machine
    var sndISN: uint32
    var sndNXT: uint32
    var sndUNA: uint32
    var sndWND: uint16
    var rcvNXT: uint32
    var rcvWND: uint16
    var mss: uint16
    /** The segments that the output function accepted. */
    ghost var sent: seq<bytes>

    constructor (key: ConnKey)
      ensures fresh(state) && state.Valid()
      ensures View() == Tcb(key, Closed, 0, 0, 0, DEFAULT_WINDOW, 0, DEFAULT_WINDOW, DEFAULT_MSS) && sent == []
    {
      this.key := key;
      state := new Machine(Closed);
      sndISN, sndNXT, sndUNA, rcvNXT := 0, 0, 0, 0;
      mss, rcvWND, sndWND := DEFAULT_MSS, DEFAULT_WINDOW, DEFAULT_WINDOW;
      sent := [];
    }

    ghost function View(): Tcb
      reads this, state
    {
      Tcb(key, state.current, sndISN, sndNXT, sndUNA, sndWND, rcvNXT, rcvWND, mss)
    }

    /** `accepted` is the answer of the output function. */
    method Send(h: Header, payload: bytes, accepted: bool) returns (ok: bool)
      modifies this`sent
      ensures ok == accepted
      ensures sent == old(sent) + if accepted then [SegmentOf(key.srcIP, key.dstIP, h, payload)] else []
    {
      hide Sealed, MarshalOf;
      var header, _ := Marshal(h);
      var plain := header[..] + payload;
      var segment := new byte[|plain|](i requires 0 <= i < |plain| => plain[i]);
      assert segment[..] == plain;
      var calculator := new ChecksumCalculator(key.srcIP, key.dstIP);
      calculator.SetAndCompute(segment);
      if accepted {
        sent := sent + [segment[..]];
      }
      ok := accepted;
    }

    method NegotiateMSS(seg: Header)
      modifies this`mss
      ensures mss == Negotiated(old(mss), seg)
    {
      var peerMSS := ParseMSS(seg);
      if peerMSS.Some? && peerMSS.value > 0 && peerMSS.value < mss {
        mss := peerMSS.value;
      }
    }

    method SendSYN(isn: uint32, accepted: bool) returns (error: Option<HandshakeError>)
      requires state.Valid()
      modifies this, state
      ensures var o := OnOpen(old(View()), isn, accepted);
        View() == o.tcb && error == o.error && sent == old(sent) + SentBy(o)
      ensures state.Valid() && old(state.path) <= state.path
    {
      sndISN := isn;
      sndUNA := sndISN;
      sndNXT := Next(sndISN);
      var h := NewHeader(key, rcvWND, FLAG_SYN);
      h := h.(seqNum := sndISN);
      h := h.(options := [MSSOption(mss)]);
      var ok := Send(h, [], accepted);
      if !ok {
        return Some(SendFailed);
      }
      var moved := state.Transition(SynSent);
      return if moved then None else Some(InvalidTransition);
    }

    method SendSYNACK(isn: uint32, accepted: bool) returns (ok: bool)
      modifies this
      ensures state.current == old(state.current) && View() == WithISN(old(View()), isn) && ok == accepted
      ensures sent == old(sent) + if accepted then [Emitted(View(), SYNACKHeader(View()), true).value] else []
    {
      sndISN := isn;
      sndUNA := sndISN;
      sndNXT := Next(sndISN);
      var h := NewHeader(key, rcvWND, FLAG_SYN + FLAG_ACK);
      h := h.(seqNum := sndISN);
      h := h.(ackNum := rcvNXT);
      h := h.(options := [MSSOption(mss)]);
      ok := Send(h, [], accepted);
    }

    method HandleSYN(seg: Header, isn: uint32, accepted: bool) returns (error: Option<HandshakeError>)
      requires state.Valid()
      modifies this, state
      ensures var o := OnSYN(old(View()), seg, isn, accepted);
        View() == o.tcb && error == o.error && sent == old(sent) + SentBy(o)
      ensures state.Valid() && old(state.path) <= state.path
    {
      hide SegmentOf, AdvertisedMSS;
      if !seg.HasFlag(FLAG_SYN) {
        return Some(UnexpectedSegment);
      }
      if state.current == Closed {
        var listening := state.Transition(Listen);
        if !listening {
          return Some(InvalidTransition);
        }
      }
      rcvNXT := Next(seg.seqNum);
      sndWND := seg.window;
      NegotiateMSS(seg);
      var ok := SendSYNACK(isn, accepted);
      if !ok {
        return Some(SendFailed);
      }
      var moved := state.Transition(SynReceived);
      return if moved then None else Some(InvalidTransition);
    }

    method SendACK(accepted: bool) returns (ok: bool)
      modifies this`sent
      ensures ok == accepted
      ensures sent == old(sent) + if accepted then [Emitted(View(), ACKHeader(View()), true).value] else []
    {
      var h := NewHeader(key, rcvWND, FLAG_ACK);
      h := h.(seqNum := sndNXT);
      h := h.(ackNum := rcvNXT);
      ok := Send(h, [], accepted);
    }

    method HandleSYNACK(seg: Header, accepted: bool) returns (error: Option<HandshakeError>)
      requires state.Valid()
      modifies this, state
      ensures var o := OnSYNACK(old(View()), seg, accepted);
        View() == o.tcb && error == o.error && sent == old(sent) + SentBy(o)
      ensures state.Valid() && old(state.path) <= state.path
    {
      if !seg.HasFlag(FLAG_SYN) || !seg.HasFlag(FLAG_ACK) {
        return Some(UnexpectedSegment);
      }
      if seg.ackNum != sndNXT {
        return Some(BadAck);
      }
      sndUNA := seg.ackNum;
      rcvNXT := Next(seg.seqNum);
      sndWND := seg.window;
      NegotiateMSS(seg);
      var ok := SendACK(accepted);
      if !ok {
        return Some(SendFailed);
      }
      var moved := state.Transition(Established);
      return if moved then None else Some(InvalidTransition);
    }

    method HandleACKInSynReceived(seg: Header) returns (error: Option<HandshakeError>)
      requires state.Valid()
      modifies this, state
      ensures var o := OnACK(old(View()), seg);
        View() == o.tcb && error == o.error && sent == old(sent) + SentBy(o)
      ensures state.Valid() && old(state.path) <= state.path
    {
      if !seg.HasFlag(FLAG_ACK) {
        return Some(UnexpectedSegment);
      }
      if seg.ackNum != sndNXT {
        return Some(BadAck);
      }
      sndUNA := seg.ackNum;
      sndWND := seg.window;
      var moved := state.Transition(Established);
      return if moved then None else Some(InvalidTransition);
    }
  }
}

/**
 The three-way handshake between two connections over a network that may lose, duplicate,
 reorder and hold old segments, and whose outputs may fail. Each handler is called only in
 the state its comment names.
 */
module Handshake {
  import opened Bytes
  import opened Checksum
  import opened TCPHeader
  import opened TCPSegment
  import opened StateMachine
  import opened Connection

  /**
   Both ends and every segment ever put on either link. `clientMSS` and `serverMSS` are the
   values the two sides started with, `offered` the MSS values of the SYNs the server handled.
   */
  datatype World = World(
    client: Tcb, server: Tcb, toServer: set<bytes>, toClient: set<bytes>,
    clientMSS: uint16, serverMSS: uint16, offered: set<uint16>)

  /** Delivering leaves a segment on its link, so it may come again, later, or never. */
  datatype Action =
    | Open(isn: uint32, accepted: bool)
    | ToServer(raw: bytes, isn: uint32, accepted: bool)
    | ToClient(raw: bytes, accepted: bool)

  ghost predicate Initial(w: World) {
    && w.client.state == Closed && w.server.state in {Closed, Listen}
    && w.client.mss == w.clientMSS > 0 && w.server.mss == w.serverMSS > 0
    && w.offered == {}
  }

  /** The link after a handler, with the segment it sent if the output took one. */
  function Carrying(link: set<bytes>, o: Outcome): set<bytes> {
    if o.sent.Some? then link + {o.sent.value} else link
  }

  function OfferedBy(seg: Header): set<uint16> {
    if seg.HasFlag(FLAG_SYN) && AdvertisedMSS(seg.options).Some? && AdvertisedMSS(seg.options).value > 0
    then {AdvertisedMSS(seg.options).value} else {}
  }

  function Act(w: World, a: Action): World {
    match a
    case Open(isn, accepted) =>
      if w.client.state != Closed then w
      else
        var o := OnOpen(w.client, isn, accepted);
        w.(client := o.tcb, toServer := Carrying(w.toServer, o))
    case ToServer(raw, isn, accepted) =>
      (match ParsedHeader(raw)
       case Err(_) => w
       case Ok(seg) =>
         if w.server.state in {Closed, Listen} then
           var o := OnSYN(w.server, seg, isn, accepted);
           w.(server := o.tcb, toClient := Carrying(w.toClient, o), offered := w.offered + OfferedBy(seg))
         else if w.server.state == SynReceived then
           w.(server := OnACK(w.server, seg).tcb)
         else w)
    case ToClient(raw, accepted) =>
      match ParsedHeader(raw)
      case Err(_) => w
      case Ok(seg) =>
        if w.client.state != SynSent then w
        else
          var o := OnSYNACK(w.client, seg, accepted);
          w.(client := o.tcb, toServer := Carrying(w.toServer, o))
  }

  /** `seg` is what some segment on the link reads as. */
  ghost predicate OnLink(link: set<bytes>, seg: Header) {
    exists raw :: raw in link && ParsedHeader(raw) == Ok(seg)
  }

  /** It bears an ACK, and acknowledges `n`. */
  ghost predicate AckOn(link: set<bytes>, n: uint32, seg: Header) {
    OnLink(link, seg) && seg.HasFlag(FLAG_ACK) && seg.ackNum == n
  }

  /** It is a SYN with sequence number `n`. */
  ghost predicate SynOn(link: set<bytes>, n: uint32, seg: Header) {
    OnLink(link, seg) && seg.HasFlag(FLAG_SYN) && seg.seqNum == n
  }

  /** Only segments on the link are delivered, and nothing old acknowledges a number being chosen. */
  ghost predicate Enabled(w: World, a: Action) {
    match a
    case Open(isn, _) => forall seg :: !AckOn(w.toClient, Next(isn), seg)
    case ToServer(raw, isn, _) =>
      && raw in w.toServer
      && (w.server.state in {Closed, Listen} ==> forall seg :: !AckOn(w.toServer, Next(isn), seg))
    case ToClient(raw, _) => raw in w.toClient
  }

  ghost predicate Steps(ws: seq<World>, acts: seq<Action>) {
    && |ws| == |acts| + 1
    && forall i :: 0 <= i < |acts| ==> Enabled(ws[i], acts[i]) && ws[i + 1] == Act(ws[i], acts[i])
  }

  ghost predicate Run(ws: seq<World>, acts: seq<Action>) {
    Steps(ws, acts) && Initial(ws[0])
  }

  // ---------------------------------------------------------------------------
  // What the handlers' segments look like on arrival
  // ---------------------------------------------------------------------------

  /** No options, or one MSS option, as in every segment that the handshake sends. */
  predicate HasOnlyMSS(h: Header) {
    h.options == [] || exists m :: h.options == [MSSOption(m)]
  }

  lemma SegmentArrives(src: bytes, dst: bytes, h: Header)
    requires HasOnlyMSS(h)
    ensures var r := ParsedHeader(SegmentOf(src, dst, h, []));
      && r.Ok? && r.value.srcPort == h.srcPort && r.value.dstPort == h.dstPort
      && r.value.flags == h.flags && r.value.seqNum == h.seqNum && r.value.ackNum == h.ackNum
      && r.value.window == h.window && r.value.options == h.options
    ensures TCPChecksumOf(dst, src, SegmentOf(src, dst, h, [])) == 0
  {
    OnlyMSSFits(h);
    hide SegmentOf, MarshalOf, TCPChecksumOf, OptionBytes, ParsedHeader;
    SegmentReadsBack(src, dst, h, []);
  }

  lemma OnlyMSSFits(h: Header)
    requires HasOnlyMSS(h)
    ensures AllWellFormed(h.options) && |OptionBytes(h.options)| <= 4
  {
    if h.options == [] {
      assert EncodedOptions(h.options) == [];
    } else {
      assert h.options[1..] == [];
      assert |EncodedOptions(h.options)| == 4;
    }
  }

  predicate SameFields(seg: Header, h: Header) {
    && seg.flags == h.flags && seg.seqNum == h.seqNum && seg.ackNum == h.ackNum
    && seg.window == h.window && seg.options == h.options
  }

  /** Putting a sent segment on a link adds at most that segment to what can be read. */
  lemma LinkGrows(link: set<bytes>, src: bytes, dst: bytes, h: Header, seg: Header)
    requires HasOnlyMSS(h)
    ensures OnLink(link + {SegmentOf(src, dst, h, [])}, seg) ==> OnLink(link, seg) || SameFields(seg, h)
    ensures OnLink(link, seg) ==> OnLink(link + {SegmentOf(src, dst, h, [])}, seg)
  {
    SegmentArrives(src, dst, h);
  }

  // ---------------------------------------------------------------------------
  // The invariant
  // ---------------------------------------------------------------------------

  predicate ClientStarted(w: World) { w.client.state in {SynSent, Established} }

  predicate ServerAnswered(w: World) { w.server.state in {SynReceived, Established} }

  /** `seg` is the server's SYN-ACK to the client's SYN. */
  predicate IsAnswer(w: World, seg: Header) {
    && ServerAnswered(w)
    && seg.seqNum == w.server.sndISN && seg.window == w.server.rcvWND
    && AdvertisedMSS(seg.options) == Some(w.server.mss)
    && w.server.rcvNXT == w.client.sndNXT
  }

  /** `seg` is the client's final ACK of the server's SYN-ACK. */
  predicate IsFinal(w: World, seg: Header) {
    && w.client.state == Established && w.client.rcvNXT == w.server.sndNXT
    && seg.window == w.client.rcvWND && seg.seqNum == w.server.rcvNXT
  }

  /** The sequence variables of one end. */
  predicate Sequenced(t: Tcb) {
    && (t.state in {SynSent, SynReceived, Established} ==>
          t.sndNXT == Next(t.sndISN) && (t.sndUNA == t.sndISN || t.sndUNA == t.sndNXT))
    && (t.state == Established ==> t.sndUNA == t.sndNXT)
  }

  /** The two ends agree on sequence numbers and on the server's window. */
  predicate Agreed(w: World) {
    && ServerAnswered(w)
    && w.client.rcvNXT == w.server.sndNXT && w.server.rcvNXT == w.client.sndNXT
    && w.client.sndWND == w.server.rcvWND
  }

  ghost predicate Inv(w: World) {
    && w.client.state in {Closed, SynSent, Established}
    && w.server.state in {Closed, Listen, SynReceived, Established}
    && Sequenced(w.client) && Sequenced(w.server)
    && (ClientStarted(w) ==> forall seg :: AckOn(w.toClient, w.client.sndNXT, seg) ==> IsAnswer(w, seg))
    && (ServerAnswered(w) ==> forall seg :: AckOn(w.toServer, w.server.sndNXT, seg) ==> IsFinal(w, seg))
    && (w.client.state == Established ==> Agreed(w))
    && (w.server.state == Established ==>
          w.client.state == Established && w.server.sndWND == w.client.rcvWND)
  }

  lemma OpenKeeps(w: World, isn: uint32, accepted: bool)
    requires Inv(w) && Enabled(w, Open(isn, accepted))
    ensures Inv(Act(w, Open(isn, accepted)))
  {
    hide SegmentOf, OnLink, AdvertisedMSS;
    if w.client.state == Closed {
      var w', t := Act(w, Open(isn, accepted)), WithISN(w.client, isn);
      assert HasOnlyMSS(SYNHeader(t));
      if accepted && ServerAnswered(w) {
        forall seg ensures !AckOn(w'.toServer, w'.server.sndNXT, seg) {
          assert !AckOn(w.toServer, w.server.sndNXT, seg);
          LinkGrows(w.toServer, t.key.srcIP, t.key.dstIP, SYNHeader(t), seg);
        }
      }
    }
  }

  lemma ServerHandlesSYN(w: World, raw: bytes, isn: uint32, accepted: bool)
    requires Inv(w) && Enabled(w, ToServer(raw, isn, accepted))
    requires w.server.state in {Closed, Listen} && ParsedHeader(raw).Ok?
    ensures Inv(Act(w, ToServer(raw, isn, accepted)))
  {
    hide SegmentOf, OnLink, AdvertisedMSS, ParsedHeader;
    var w', seg := Act(w, ToServer(raw, isn, accepted)), ParsedHeader(raw).value;
    if seg.HasFlag(FLAG_SYN) {
      var t := w'.server;
      assert HasOnlyMSS(SYNACKHeader(t));
      if accepted && ClientStarted(w) {
        forall s | AckOn(w'.toClient, w'.client.sndNXT, s) ensures IsAnswer(w', s) {
          LinkGrows(w.toClient, t.key.srcIP, t.key.dstIP, SYNACKHeader(t), s);
          AdvertisedBack(t.mss);
          assert !AckOn(w.toClient, w.client.sndNXT, s) || IsAnswer(w, s);
        }
      }
    }
  }

  lemma AdvertisedBack(mss: uint16)
    ensures AdvertisedMSS([MSSOption(mss)]) == Some(mss)
  {
  }

  lemma ServerHandlesACK(w: World, raw: bytes, isn: uint32, accepted: bool)
    requires Inv(w) && Enabled(w, ToServer(raw, isn, accepted))
    requires w.server.state == SynReceived && ParsedHeader(raw).Ok?
    ensures Inv(Act(w, ToServer(raw, isn, accepted)))
  {
    hide SegmentOf, AdvertisedMSS, ParsedHeader, OnLink;
    var w', seg := Act(w, ToServer(raw, isn, accepted)), ParsedHeader(raw).value;
    Delivered(w.toServer, raw);
    if seg.HasFlag(FLAG_ACK) && seg.ackNum == w.server.sndNXT {
      assert AckOn(w.toServer, w.server.sndNXT, seg);
    }
    forall s | AckOn(w'.toServer, w'.server.sndNXT, s) ensures IsFinal(w', s) {
      assert AckOn(w.toServer, w.server.sndNXT, s);
    }
    if ClientStarted(w) {
      forall s | AckOn(w'.toClient, w'.client.sndNXT, s) ensures IsAnswer(w', s) {
        assert AckOn(w.toClient, w.client.sndNXT, s);
      }
    }
  }

  lemma ClientHandlesSYNACK(w: World, raw: bytes, accepted: bool)
    requires Inv(w) && Enabled(w, ToClient(raw, accepted))
    requires w.client.state == SynSent && ParsedHeader(raw).Ok?
    ensures Inv(Act(w, ToClient(raw, accepted)))
  {
    hide SegmentOf, AdvertisedMSS, ParsedHeader, OnLink;
    var w', seg := Act(w, ToClient(raw, accepted)), ParsedHeader(raw).value;
    Delivered(w.toClient, raw);
    if seg.HasFlag(FLAG_SYN) && seg.HasFlag(FLAG_ACK) && seg.ackNum == w.client.sndNXT {
      assert AckOn(w.toClient, w.client.sndNXT, seg);
      assert IsAnswer(w, seg);
      var t := w'.client;
      assert HasOnlyMSS(ACKHeader(t));
      forall s | AckOn(w'.toClient, w'.client.sndNXT, s) ensures IsAnswer(w', s) {
        assert AckOn(w.toClient, w.client.sndNXT, s);
      }
      forall s | AckOn(w'.toServer, w'.server.sndNXT, s) ensures IsFinal(w', s) {
        LinkGrows(w.toServer, t.key.srcIP, t.key.dstIP, ACKHeader(t), s);
        assert !AckOn(w.toServer, w.server.sndNXT, s) || IsFinal(w, s);
      }
    }
  }

  lemma StepKeeps(w: World, a: Action)
    requires Inv(w) && Enabled(w, a)
    ensures Inv(Act(w, a))
  {
    match a
    case Open(isn, accepted) => OpenKeeps(w, isn, accepted);
    case ToServer(raw, isn, accepted) =>
      if ParsedHeader(raw).Ok? {
        if w.server.state in {Closed, Listen} {
          ServerHandlesSYN(w, raw, isn, accepted);
        } else if w.server.state == SynReceived {
          ServerHandlesACK(w, raw, isn, accepted);
        }
      }
    case ToClient(raw, accepted) =>
      if ParsedHeader(raw).Ok? && w.client.state == SynSent {
        ClientHandlesSYNACK(w, raw, accepted);
      }
  }

  lemma {:induction false} RunKeeps(ws: seq<World>, acts: seq<Action>, n: nat)
    requires Run(ws, acts) && n <= |acts|
    ensures Inv(ws[n])
  {
    hide Inv, Act, Enabled;
    if n == 0 {
      InitialHolds(ws[0]);
    } else {
      RunKeeps(ws, acts, n - 1);
      StepKeeps(ws[n - 1], acts[n - 1]);
    }
  }

  lemma InitialHolds(w: World)
    requires Initial(w)
    ensures Inv(w)
  {
  }

  /** Agreement, at every point of every run. */
  lemma Agreement(ws: seq<World>, acts: seq<Action>, n: nat)
    requires Run(ws, acts) && n <= |acts|
    ensures var c, s := ws[n].client, ws[n].server;
      && (s.state == Established ==> c.state == Established)
      && (c.state == Established ==>
            && s.state in {SynReceived, Established}
            && c.rcvNXT as int == (s.sndISN as int + 1) % 0x1_0000_0000
            && s.rcvNXT as int == (c.sndISN as int + 1) % 0x1_0000_0000)
      && (forall t :: t in {c, s} && t.state in {SynSent, SynReceived, Established} ==>
            && t.sndNXT as int == (t.sndISN as int + 1) % 0x1_0000_0000
            && (t.sndUNA == t.sndISN || t.sndUNA == t.sndNXT)
            && (t.state == Established ==> t.sndUNA == t.sndNXT))
  {
    hide Act, Enabled, AckOn;
    RunKeeps(ws, acts, n);
  }

  /**
   What is on the links at every point of every run: a segment that acknowledges the client's
   SYN is the server's SYN-ACK, and one that acknowledges the answered server's SYN is the
   client's last ACK, which carries the sequence number that the server expects next.
   */
  lemma SegmentsAgree(ws: seq<World>, acts: seq<Action>, n: nat, seg: Header)
    requires Run(ws, acts) && n <= |acts| && seg.HasFlag(FLAG_ACK)
    ensures var c, s := ws[n].client, ws[n].server;
      && (c.state in {SynSent, Established} && OnLink(ws[n].toClient, seg) && seg.ackNum == c.sndNXT ==>
            && s.state in {SynReceived, Established} && s.rcvNXT == c.sndNXT
            && seg.seqNum == s.sndISN && seg.window == s.rcvWND && AdvertisedMSS(seg.options) == Some(s.mss))
      && (s.state in {SynReceived, Established} && OnLink(ws[n].toServer, seg) && seg.ackNum == s.sndNXT ==>
            && c.state == Established && c.rcvNXT == s.sndNXT
            && seg.seqNum == s.rcvNXT && seg.window == c.rcvWND)
  {
    hide Act, Enabled, OnLink, AdvertisedMSS;
    RunKeeps(ws, acts, n);
    if OnLink(ws[n].toClient, seg) {
      assert AckOn(ws[n].toClient, seg.ackNum, seg);
    }
    if OnLink(ws[n].toServer, seg) {
      assert AckOn(ws[n].toServer, seg.ackNum, seg);
    }
  }

  /** Every step moves each end along the table, the server possibly by way of LISTEN. */
  lemma StepsFollowTable(w: World, a: Action)
    requires Inv(w)
    ensures var w' := Act(w, a);
      && (w'.client.state == w.client.state || w'.client.state in Allowed(w.client.state))
      && (w'.server.state == w.server.state || w'.server.state in Allowed(w.server.state)
          || (Listen in Allowed(w.server.state) && w'.server.state in Allowed(Listen)))
  {
    hide ParsedHeader, SegmentOf, AckOn, AdvertisedMSS;
  }

  /** In the documented states no handler's transition is refused, and a refused segment changes nothing. */
  lemma HandlersInTheirStates(t: Tcb, seg: Header, isn: uint32, accepted: bool)
    ensures t.state == Closed ==> OnOpen(t, isn, accepted).error != Some(InvalidTransition)
    ensures t.state in {Closed, Listen} ==> OnSYN(t, seg, isn, accepted).error != Some(InvalidTransition)
    ensures t.state == SynSent ==> OnSYNACK(t, seg, accepted).error != Some(InvalidTransition)
    ensures t.state == SynReceived ==> OnACK(t, seg).error != Some(InvalidTransition)
    ensures forall o :: o in {OnSYN(t, seg, isn, accepted), OnSYNACK(t, seg, accepted), OnACK(t, seg)} ==>
      (o.error in {Some(UnexpectedSegment), Some(BadAck)} ==> o.tcb == t && o.sent == None)
  {
    hide SegmentOf, AdvertisedMSS;
  }

  predicate RefusesSYN(seg: Header) { !seg.HasFlag(FLAG_SYN) }

  predicate RefusesSYNACK(t: Tcb, seg: Header) {
    !seg.HasFlag(FLAG_SYN) || !seg.HasFlag(FLAG_ACK) || seg.ackNum != t.sndNXT
  }

  /**
   An error leaves the connection as it was exactly when the flag or ack guard refused the
   segment, or every field that the handler writes already held the value written.
   */
  lemma ErrorKeepsIff(t: Tcb, seg: Header, isn: uint32, accepted: bool)
    ensures var o := OnOpen(t, isn, accepted);
      t.state == Closed && o.error.Some? ==> (o.tcb == t <==> HoldsISN(t, isn))
    ensures var o := OnSYN(t, seg, isn, accepted);
      t.state == Closed && o.error.Some? ==> (o.tcb == t <==> RefusesSYN(seg))
    ensures var o := OnSYN(t, seg, isn, accepted);
      t.state == Listen && o.error.Some? ==>
        (o.tcb == t <==> RefusesSYN(seg) || (HoldsISN(t, isn) && HoldsPeer(t, seg)))
    ensures var o := OnSYNACK(t, seg, accepted);
      t.state == SynSent && o.error.Some? ==>
        (o.tcb == t <==> RefusesSYNACK(t, seg) || (t.sndUNA == t.sndNXT && HoldsPeer(t, seg)))
    ensures var o := OnACK(t, seg);
      t.state == SynReceived && o.error.Some? ==> o.tcb == t
  {
    hide SegmentOf, AdvertisedMSS;
  }

  predicate HoldsISN(t: Tcb, isn: uint32) {
    t.sndISN == isn && t.sndUNA == isn && t.sndNXT == Next(isn)
  }

  predicate HoldsPeer(t: Tcb, seg: Header) {
    t.rcvNXT == Next(seg.seqNum) && t.sndWND == seg.window && t.mss == Negotiated(t.mss, seg)
  }

  /**
   Before its first number is chosen, or its SYN acknowledged, a connection that gets an error
   is as it was exactly when the guards refused the segment: a failed output always shows.
   */
  lemma FirstFailureShows(t: Tcb, seg: Header, isn: uint32)
    ensures t.state == Closed && t.sndNXT == t.sndISN ==> OnOpen(t, isn, false).tcb != t
    ensures t.state in {Closed, Listen} && t.sndNXT == t.sndISN ==>
      (OnSYN(t, seg, isn, false).tcb == t <==> RefusesSYN(seg))
    ensures t.state == SynSent && t.sndUNA != t.sndNXT ==>
      (OnSYNACK(t, seg, false).tcb == t <==> RefusesSYNACK(t, seg))
  {
    hide SegmentOf, AdvertisedMSS;
    ErrorKeepsIff(t, seg, isn, false);
  }

  /** A SYN-ACK whose ACK cannot be sent: still SYN_SENT, with the peer's numbers and MSS taken over. */
  lemma FailedACKLeavesFieldsWritten(key: ConnKey)
    ensures var t := Tcb(key, SynSent, 1000, 1001, 1000, DEFAULT_WINDOW, 0, DEFAULT_WINDOW, DEFAULT_MSS);
      var seg := Header(80, 50000, 7, 1001, 6, FLAG_SYN + FLAG_ACK, 4096, 0, 0, [MSSOption(500)]);
      var o := OnSYNACK(t, seg, false);
      && o.error == Some(SendFailed) && o.sent == None && o.tcb != t
      && o.tcb == t.(sndUNA := 1001, rcvNXT := 8, sndWND := 4096, mss := 500)
  {
    hide AdvertisedMSS;
    AdvertisedBack(500);
  }

  // ---------------------------------------------------------------------------
  // Maximum segment size and windows
  // ---------------------------------------------------------------------------

  /** No old SYN carries the sequence number that the client chooses. */
  ghost predicate FreshSYNs(ws: seq<World>, acts: seq<Action>)
    requires |ws| == |acts| + 1
  {
    forall i :: 0 <= i < |acts| ==> FreshSYN(ws[i], acts[i])
  }

  ghost predicate FreshSYN(w: World, a: Action) {
    a.Open? ==> forall seg :: !SynOn(w.toServer, a.isn, seg)
  }

  /** The server's MSS is the least of its own and all it was offered; the client's follows it. */
  predicate LowestMSS(w: World) {
    && 0 < w.server.mss <= w.serverMSS && w.clientMSS > 0
    && (forall m :: m in w.offered ==> w.server.mss <= m)
    && (w.server.mss == w.serverMSS || w.server.mss in w.offered)
    && (w.client.state == Closed ==> w.client.mss == w.clientMSS)
    && (w.client.state == SynSent ==>
          w.client.mss == w.clientMSS
          || (ServerAnswered(w) && w.client.mss == Min(w.clientMSS, w.server.mss)))
    && (w.client.state == Established ==> w.client.mss == Min(w.clientMSS, w.server.mss))
  }

  /** SYNs on the link with the client's number are the client's; the answered one was offered its MSS. */
  ghost predicate SYNsKnown(w: World) {
    && (ClientStarted(w) ==> forall seg :: SynOn(w.toServer, w.client.sndISN, seg) ==>
          AdvertisedMSS(seg.options) == Some(w.clientMSS) && seg.window == w.client.rcvWND)
    && (ServerAnswered(w) ==> exists seg :: AckOn(w.toClient, w.server.rcvNXT, seg))
    && (ClientStarted(w) && ServerAnswered(w) && w.server.rcvNXT == w.client.sndNXT ==>
          w.clientMSS in w.offered && w.server.sndWND == w.client.rcvWND)
  }

  lemma OpenKeepsMSS(w: World, isn: uint32, accepted: bool)
    requires Inv(w) && Enabled(w, Open(isn, accepted)) && FreshSYN(w, Open(isn, accepted))
    requires LowestMSS(w) && SYNsKnown(w)
    ensures LowestMSS(Act(w, Open(isn, accepted))) && SYNsKnown(Act(w, Open(isn, accepted)))
  {
    hide SegmentOf, OnLink, AdvertisedMSS;
    if w.client.state == Closed && accepted {
      var w', t := Act(w, Open(isn, accepted)), WithISN(w.client, isn);
      assert HasOnlyMSS(SYNHeader(t));
      AdvertisedBack(t.mss);
      forall seg | SynOn(w'.toServer, isn, seg)
        ensures AdvertisedMSS(seg.options) == Some(w.clientMSS) && seg.window == w.client.rcvWND
      {
        LinkGrows(w.toServer, t.key.srcIP, t.key.dstIP, SYNHeader(t), seg);
        assert !SynOn(w.toServer, isn, seg);
      }
    }
  }

  lemma ServerHandlesSYNKeepsMSS(w: World, raw: bytes, isn: uint32, accepted: bool)
    requires Inv(w) && Enabled(w, ToServer(raw, isn, accepted)) && LowestMSS(w) && SYNsKnown(w)
    requires w.server.state in {Closed, Listen} && ParsedHeader(raw).Ok?
    ensures LowestMSS(Act(w, ToServer(raw, isn, accepted))) && SYNsKnown(Act(w, ToServer(raw, isn, accepted)))
  {
    hide SegmentOf, AdvertisedMSS, ParsedHeader, LowestMSS, Inv, OnLink;
    ServerTakesMSS(w, raw, isn, accepted);
    InvSequenced(w);
    Delivered(w.toServer, raw);
    var w', seg := Act(w, ToServer(raw, isn, accepted)), ParsedHeader(raw).value;
    NextInjective(seg.seqNum, w.client.sndISN);
    if seg.HasFlag(FLAG_SYN) && accepted {
      AnswerOnLink(w.toClient, w'.server);
      if ClientStarted(w) && seg.seqNum == w.client.sndISN {
        assert SynOn(w.toServer, w.client.sndISN, seg);
      }
    }
  }

  lemma InvSequenced(w: World)
    requires Inv(w) && LowestMSS(w)
    ensures Sequenced(w.client) && Sequenced(w.server) && w.clientMSS > 0
  {
  }

  lemma NextInjective(a: uint32, b: uint32)
    ensures Next(a) == Next(b) <==> a == b
  {
  }

  lemma Delivered(link: set<bytes>, raw: bytes)
    requires raw in link && ParsedHeader(raw).Ok?
    ensures OnLink(link, ParsedHeader(raw).value)
  {
  }

  lemma ServerTakesMSS(w: World, raw: bytes, isn: uint32, accepted: bool)
    requires Inv(w) && LowestMSS(w) && w.server.state in {Closed, Listen} && ParsedHeader(raw).Ok?
    ensures LowestMSS(Act(w, ToServer(raw, isn, accepted)))
  {
    hide SegmentOf, AdvertisedMSS, ParsedHeader, AckOn;
  }

  lemma AnswerOnLink(link: set<bytes>, t: Tcb)
    ensures exists seg ::
      AckOn(link + {SegmentOf(t.key.srcIP, t.key.dstIP, SYNACKHeader(t), [])}, t.rcvNXT, seg)
  {
    hide SegmentOf, ParsedHeader;
    assert HasOnlyMSS(SYNACKHeader(t));
    SegmentArrives(t.key.srcIP, t.key.dstIP, SYNACKHeader(t));
    var raw := SegmentOf(t.key.srcIP, t.key.dstIP, SYNACKHeader(t), []);
    assert AckOn(link + {raw}, t.rcvNXT, ParsedHeader(raw).value);
  }

  lemma ServerHandlesACKKeepsMSS(w: World, raw: bytes, isn: uint32, accepted: bool)
    requires Inv(w) && Enabled(w, ToServer(raw, isn, accepted)) && LowestMSS(w) && SYNsKnown(w)
    requires w.server.state == SynReceived && ParsedHeader(raw).Ok?
    ensures LowestMSS(Act(w, ToServer(raw, isn, accepted))) && SYNsKnown(Act(w, ToServer(raw, isn, accepted)))
  {
    hide SegmentOf, AdvertisedMSS, ParsedHeader, OnLink;
    var w', seg := Act(w, ToServer(raw, isn, accepted)), ParsedHeader(raw).value;
    Delivered(w.toServer, raw);
    if seg.HasFlag(FLAG_ACK) && seg.ackNum == w.server.sndNXT {
      assert AckOn(w.toServer, w.server.sndNXT, seg);
    }
  }

  lemma ClientHandlesSYNACKKeepsMSS(w: World, raw: bytes, accepted: bool)
    requires Inv(w) && Enabled(w, ToClient(raw, accepted)) && LowestMSS(w) && SYNsKnown(w)
    requires w.client.state == SynSent && ParsedHeader(raw).Ok?
    ensures LowestMSS(Act(w, ToClient(raw, accepted))) && SYNsKnown(Act(w, ToClient(raw, accepted)))
  {
    hide SegmentOf, AdvertisedMSS, ParsedHeader, OnLink;
    var w', seg := Act(w, ToClient(raw, accepted)), ParsedHeader(raw).value;
    Delivered(w.toClient, raw);
    if seg.HasFlag(FLAG_SYN) && seg.HasFlag(FLAG_ACK) && seg.ackNum == w.client.sndNXT {
      assert AckOn(w.toClient, w.client.sndNXT, seg);
      assert IsAnswer(w, seg);
      var t := w'.client;
      assert HasOnlyMSS(ACKHeader(t));
      forall s | SynOn(w'.toServer, w'.client.sndISN, s) ensures SynOn(w.toServer, w.client.sndISN, s) {
        LinkGrows(w.toServer, t.key.srcIP, t.key.dstIP, ACKHeader(t), s);
      }
    }
  }

  lemma StepKeepsMSS(w: World, a: Action)
    requires Inv(w) && Enabled(w, a) && FreshSYN(w, a) && LowestMSS(w) && SYNsKnown(w)
    ensures LowestMSS(Act(w, a)) && SYNsKnown(Act(w, a))
  {
    match a
    case Open(isn, accepted) => OpenKeepsMSS(w, isn, accepted);
    case ToServer(raw, isn, accepted) =>
      if ParsedHeader(raw).Ok? {
        if w.server.state in {Closed, Listen} {
          ServerHandlesSYNKeepsMSS(w, raw, isn, accepted);
        } else if w.server.state == SynReceived {
          ServerHandlesACKKeepsMSS(w, raw, isn, accepted);
        }
      }
    case ToClient(raw, accepted) =>
      if ParsedHeader(raw).Ok? && w.client.state == SynSent {
        ClientHandlesSYNACKKeepsMSS(w, raw, accepted);
      }
  }

  lemma {:induction false} RunKeepsMSS(ws: seq<World>, acts: seq<Action>, n: nat)
    requires Run(ws, acts) && FreshSYNs(ws, acts) && n <= |acts|
    ensures LowestMSS(ws[n]) && SYNsKnown(ws[n])
  {
    hide Inv, Act, Enabled, FreshSYN, LowestMSS, SYNsKnown;
    if n == 0 {
      InitialMSS(ws[0]);
    } else {
      RunKeepsMSS(ws, acts, n - 1);
      RunKeeps(ws, acts, n - 1);
      StepKeepsMSS(ws[n - 1], acts[n - 1]);
    }
  }

  lemma InitialMSS(w: World)
    requires Initial(w)
    ensures LowestMSS(w) && SYNsKnown(w)
  {
  }

  /**
   Once both sides are established they hold the same MSS, and each has the other's window.
   That MSS is the lesser of the two initial values exactly when no SYN that the server
   handled offered less.
   */
  lemma MSSAgreement(ws: seq<World>, acts: seq<Action>, n: nat)
    requires Run(ws, acts) && FreshSYNs(ws, acts) && n <= |acts|
    requires ws[n].client.state == Established && ws[n].server.state == Established
    ensures var w := ws[n];
      && w.client.mss == w.server.mss
      && w.client.sndWND == w.server.rcvWND && w.server.sndWND == w.client.rcvWND
      && (w.client.mss == Min(w.clientMSS, w.serverMSS)
          <==> forall m :: m in w.offered ==> m >= Min(w.clientMSS, w.serverMSS))
  {
    hide Act, Enabled, AckOn;
    RunKeeps(ws, acts, n);
    RunKeepsMSS(ws, acts, n);
  }

  /** No SYN-ACK of the server fails to be sent. */
  predicate Answering(w: World, a: Action) {
    a.ToServer? && w.server.state in {Closed, Listen} ==> a.accepted
  }

  ghost predicate AllAnswering(ws: seq<World>, acts: seq<Action>)
    requires |ws| == |acts| + 1
  {
    forall i :: 0 <= i < |acts| ==> Answering(ws[i], acts[i])
  }

  /** The server has taken an offer from the one SYN that it answered, and none before. */
  ghost predicate OneOffer(w: World) {
    && (w.server.state in {Closed, Listen} ==> w.offered == {})
    && (forall m, n :: m in w.offered && n in w.offered ==> m == n)
  }

  lemma StepKeepsOneOffer(w: World, a: Action)
    requires OneOffer(w) && Answering(w, a)
    ensures OneOffer(Act(w, a))
  {
    hide ParsedHeader, SegmentOf, AdvertisedMSS;
  }

  lemma {:induction false} RunKeepsOneOffer(ws: seq<World>, acts: seq<Action>, n: nat)
    requires Run(ws, acts) && AllAnswering(ws, acts) && n <= |acts|
    ensures OneOffer(ws[n])
  {
    hide Act, Enabled, Answering;
    if n > 0 {
      RunKeepsOneOffer(ws, acts, n - 1);
      assert Answering(ws[n - 1], acts[n - 1]);
      StepKeepsOneOffer(ws[n - 1], acts[n - 1]);
    }
  }

  /** If no SYN-ACK fails to be sent, established ends hold the lesser of the two initial values. */
  lemma MSSIsLesser(ws: seq<World>, acts: seq<Action>, n: nat)
    requires Run(ws, acts) && FreshSYNs(ws, acts) && AllAnswering(ws, acts) && n <= |acts|
    requires ws[n].client.state == Established && ws[n].server.state == Established
    ensures var w := ws[n]; w.client.mss == w.server.mss == Min(w.clientMSS, w.serverMSS)
  {
    hide Act, Enabled, AckOn, Answering;
    RunKeeps(ws, acts, n);
    RunKeepsMSS(ws, acts, n);
    RunKeepsOneOffer(ws, acts, n);
  }

  // ---------------------------------------------------------------------------
  // A handshake that nothing disturbs
  // ---------------------------------------------------------------------------

  lemma ClientOpens(w: World, x: uint32) returns (w': World, syn: Header)
    requires w.client.state == Closed
    ensures w' == Act(w, Open(x, true)) && w'.client == WithISN(w.client, x).(state := SynSent)
    ensures exists raw :: w' == w.(client := w'.client, toServer := w.toServer + {raw}) && ParsedHeader(raw) == Ok(syn)
    ensures SameFields(syn, SYNHeader(w'.client))
    ensures forall seg :: OnLink(w'.toServer, seg) ==> OnLink(w.toServer, seg) || SameFields(seg, SYNHeader(w'.client))
  {
    hide SegmentOf, ParsedHeader, OnLink, AdvertisedMSS;
    w' := Act(w, Open(x, true));
    var c := w'.client;
    assert HasOnlyMSS(SYNHeader(c));
    SegmentArrives(c.key.srcIP, c.key.dstIP, SYNHeader(c));
    var raw := SegmentOf(c.key.srcIP, c.key.dstIP, SYNHeader(c), []);
    syn := ParsedHeader(raw).value;
    assert w' == w.(client := c, toServer := w.toServer + {raw});
    forall seg ensures OnLink(w'.toServer, seg) ==> OnLink(w.toServer, seg) || SameFields(seg, SYNHeader(c)) {
      LinkGrows(w.toServer, c.key.srcIP, c.key.dstIP, SYNHeader(c), seg);
    }
  }

  lemma ServerAnswers(w: World, raw: bytes, syn: Header, y: uint32) returns (w': World, answer: Header, raw': bytes)
    requires w.server.state in {Closed, Listen} && ParsedHeader(raw) == Ok(syn) && syn.HasFlag(FLAG_SYN)
    ensures w' == Act(w, ToServer(raw, y, true))
    ensures w'.server == WithISN(w.server.(rcvNXT := Next(syn.seqNum), sndWND := syn.window,
                                           mss := Negotiated(w.server.mss, syn)), y).(state := SynReceived)
    ensures w' == w.(server := w'.server, toClient := w.toClient + {raw'}, offered := w'.offered)
    ensures ParsedHeader(raw') == Ok(answer) && SameFields(answer, SYNACKHeader(w'.server))
  {
    hide SegmentOf, ParsedHeader, AdvertisedMSS;
    w' := Act(w, ToServer(raw, y, true));
    var s := w'.server;
    assert HasOnlyMSS(SYNACKHeader(s));
    SegmentArrives(s.key.srcIP, s.key.dstIP, SYNACKHeader(s));
    raw' := SegmentOf(s.key.srcIP, s.key.dstIP, SYNACKHeader(s), []);
    answer := ParsedHeader(raw').value;
  }

  lemma ClientFinishes(w: World, raw: bytes, answer: Header) returns (w': World, last: Header, raw': bytes)
    requires w.client.state == SynSent && ParsedHeader(raw) == Ok(answer)
    requires answer.HasFlag(FLAG_SYN) && answer.HasFlag(FLAG_ACK) && answer.ackNum == w.client.sndNXT
    ensures w' == Act(w, ToClient(raw, true))
    ensures w'.client.state == Established && w'.client.mss == Negotiated(w.client.mss, answer)
    ensures w'.client.rcvNXT == Next(answer.seqNum)
    ensures w' == w.(client := w'.client, toServer := w.toServer + {raw'})
    ensures ParsedHeader(raw') == Ok(last) && SameFields(last, ACKHeader(w'.client))
  {
    hide SegmentOf, ParsedHeader, AdvertisedMSS;
    w' := Act(w, ToClient(raw, true));
    var c := w'.client;
    assert HasOnlyMSS(ACKHeader(c));
    SegmentArrives(c.key.srcIP, c.key.dstIP, ACKHeader(c));
    raw' := SegmentOf(c.key.srcIP, c.key.dstIP, ACKHeader(c), []);
    last := ParsedHeader(raw').value;
  }

  /** From any fresh start, four deliveries establish both sides with the lesser MSS. */
  lemma Completes(w: World, x: uint32, y: uint32) returns (ws: seq<World>, acts: seq<Action>)
    requires w.client.state == Closed && w.server.state in {Closed, Listen}
    requires w.client.mss > 0 && w.server.mss > 0
    requires forall seg :: !AckOn(w.toClient, Next(x), seg) && !AckOn(w.toServer, Next(y), seg)
    ensures Steps(ws, acts) && |acts| == 4 && ws[0] == w && acts[0] == Open(x, true)
    ensures forall i :: 1 <= i < 4 ==> !acts[i].Open?
    ensures ws[4].client.state == Established && ws[4].server.state == Established
    ensures ws[4].client.mss == ws[4].server.mss == Min(w.client.mss, w.server.mss)
    ensures ws[4].clientMSS == w.clientMSS && ws[4].serverMSS == w.serverMSS
  {
    hide SegmentOf, ParsedHeader, AdvertisedMSS, OnLink, Act;
    var w1, syn := ClientOpens(w, x);
    var raw :| w1 == w.(client := w1.client, toServer := w.toServer + {raw}) && ParsedHeader(raw) == Ok(syn);
    forall seg ensures !AckOn(w1.toServer, Next(y), seg) {
      assert !AckOn(w.toServer, Next(y), seg);
    }
    AdvertisedBack(w.client.mss);
    var w2, answer, raw2 := ServerAnswers(w1, raw, syn, y);
    AdvertisedBack(w2.server.mss);
    var w3, last, raw3 := ClientFinishes(w2, raw2, answer);
    var w4 := Act(w3, ToServer(raw3, 0, true));
    ServerFinishes(w3, raw3, last);
    ws := [w, w1, w2, w3, w4];
    acts := [Open(x, true), ToServer(raw, y, true), ToClient(raw2, true), ToServer(raw3, 0, true)];
  }

  lemma ServerFinishes(w: World, raw: bytes, last: Header)
    requires w.server.state == SynReceived && ParsedHeader(raw) == Ok(last)
    requires last.HasFlag(FLAG_ACK) && last.ackNum == w.server.sndNXT
    ensures var w' := Act(w, ToServer(raw, 0, true));
      && w' == w.(server := w'.server) && w'.server.state == Established && w'.server.mss == w.server.mss
  {
    hide ParsedHeader;
  }

  // ---------------------------------------------------------------------------
  // A failed SYN-ACK leaves the MSS of the SYN it answered
  // ---------------------------------------------------------------------------

  function OldSYNHeader(): Header {
    Header(50000, 80, 7, 0, 0, FLAG_SYN, 65535, 0, 0, [MSSOption(500)])
  }

  function OldSYN(): bytes {
    SegmentOf([10, 0, 0, 1], [10, 0, 0, 2], OldSYNHeader(), [])
  }

  /** Two fresh ends with the default MSS, and one old SYN on the way to the server. */
  function SampleWorld(): World {
    var a, b: Address := [10, 0, 0, 1], [10, 0, 0, 2];
    World(Tcb(ConnKey(a, 50000, b, 80), Closed, 0, 0, 0, DEFAULT_WINDOW, 0, DEFAULT_WINDOW, DEFAULT_MSS),
          Tcb(ConnKey(b, 80, a, 50000), Listen, 0, 0, 0, DEFAULT_WINDOW, 0, DEFAULT_WINDOW, DEFAULT_MSS),
          {OldSYN()}, {}, DEFAULT_MSS, DEFAULT_MSS, {})
  }

  /** Only the old SYN can be read. */
  lemma OldSYNAlone()
    ensures forall seg :: OnLink(SampleWorld().toServer, seg) ==> SameFields(seg, OldSYNHeader())
    ensures forall seg :: !OnLink({}, seg)
    ensures ParsedHeader(OldSYN()).Ok? && SameFields(ParsedHeader(OldSYN()).value, OldSYNHeader())
  {
    hide SegmentOf, AdvertisedMSS, ParsedHeader;
    assert HasOnlyMSS(OldSYNHeader());
    SegmentArrives([10, 0, 0, 1], [10, 0, 0, 2], OldSYNHeader());
  }

  /** The server's failed answer to it keeps its MSS. */
  lemma OldSYNHandled()
    ensures var w := Act(SampleWorld(), ToServer(OldSYN(), 100, false));
      && w == SampleWorld().(server := w.server, offered := w.offered)
      && w.server.state == Listen && w.server.mss == 500
  {
    hide SegmentOf, AdvertisedMSS, ParsedHeader, OldSYN, OnLink;
    AdvertisedBack(500);
    OldSYNAlone();
  }

  /**
   The old SYN offers 500 and its SYN-ACK cannot be sent; the new handshake then completes
   with 500 on both sides, although both started from 1460.
   */
  lemma OldSYNLowersMSS() returns (ws: seq<World>, acts: seq<Action>)
    ensures Run(ws, acts) && FreshSYNs(ws, acts) && |acts| == 5
    ensures ws[5].client.state == Established && ws[5].server.state == Established
    ensures ws[5].clientMSS == ws[5].serverMSS == 1460
    ensures ws[5].client.mss == ws[5].server.mss == 500
  {
    hide SegmentOf, ParsedHeader, AdvertisedMSS, OnLink, Act, OldSYN;
    OldSYNAlone();
    OldSYNHandled();
    var w0, a0 := SampleWorld(), ToServer(OldSYN(), 100, false);
    var w1 := Act(w0, a0);
    var rest, acts1 := Completes(w1, 1000, 200);
    ws, acts := [w0] + rest, [a0] + acts1;
    assert OldSYN() in w0.toServer;
    forall i | 0 <= i < 5 ensures Enabled(ws[i], acts[i]) && ws[i + 1] == Act(ws[i], acts[i]) {
      if i > 0 {
        assert ws[i] == rest[i - 1] && acts[i] == acts1[i - 1] && ws[i + 1] == rest[i - 1 + 1];
      }
    }
  }
}

/** The IPv4 dispatcher (internal/ip/dispatcher.go), with the ICMP handler as its protocol handlers. */
module Dispatcher {
  import opened Bytes
  import opened IPAddress
  import IPHeader
  import opened Builder
  import opened Icmp

  datatype DispatchError = PacketTooShort | BadVersion | BadHeaderLen | BadTotalLen | Handler(error: HandleError)

  /** What a handler is called with. */
  datatype Delivery = Delivery(protocol: byte, srcIP: bytes, dstIP: bytes, payload: bytes)

  /** The checks of Dispatch and the fields that it takes from a packet that passes them. */
  function Routed(raw: bytes): Result<Delivery, DispatchError> {
    if |raw| < 20 then Err(PacketTooShort)
    else if raw[0] / 16 != 4 then Err(BadVersion)
    else
      var headerLen := raw[0] as int % 16 * 4;
      if headerLen < 20 || headerLen > |raw| then Err(BadHeaderLen)
      else
        var totalLen := Get16(raw, 2) as int;
        if totalLen > |raw| || totalLen < headerLen then Err(BadTotalLen)
        else
          var packet := raw[..totalLen];
          Ok(Delivery(packet[9], IPv4(packet[12..16]), IPv4(packet[16..20]), packet[headerLen..]))
  }

  /** Dispatch accepts what ParseHeader accepts, less short headers and cut-off packets, and reads the same fields. */
  lemma RoutedIffParses(raw: bytes)
    ensures Routed(raw).Ok? <==>
      var p := IPHeader.ParseHeader(raw);
      p.Ok? && p.value.ihl >= 5 && p.value.totalLen as int <= |raw|
    ensures Routed(raw).Ok? ==>
      var h := IPHeader.ParseHeader(raw).value;
      Routed(raw).value == Delivery(h.protocol, IPv4(h.src), IPv4(h.dst), h.PayloadOf(raw[..h.totalLen]))
  {
    if Routed(raw).Ok? {
      var h := IPHeader.ParseHeader(raw).value;
      var packet := raw[..h.totalLen];
      assert packet[12..16] == raw[12..16] && packet[16..20] == raw[16..20];
      assert |packet| == h.HeaderLen() ==> packet[h.HeaderLen()..] == [];
    }
  }

  /** The reason of each refusal, on the packet's bytes; the checks are made in this order. */
  lemma RefusedIff(raw: bytes)
    ensures Routed(raw) == Err(PacketTooShort) <==> |raw| < 20
    ensures Routed(raw) == Err(BadVersion) <==> |raw| >= 20 && raw[0] / 0x10 != 4
    ensures Routed(raw) == Err(BadHeaderLen)
       <==> |raw| >= 20 && raw[0] / 0x10 == 4 && !(20 <= raw[0] % 0x10 * 4 <= |raw|)
    ensures Routed(raw) == Err(BadTotalLen)
       <==> |raw| >= 20 && raw[0] / 0x10 == 4 && 20 <= raw[0] % 0x10 * 4 <= |raw|
            && !(raw[0] % 0x10 * 4 <= raw[2] * 0x100 + raw[3] <= |raw|)
  {
  }

  /** What follows the total length, such as the padding of a link, changes nothing. */
  lemma PaddingIgnored(raw: bytes, padding: bytes)
    requires Routed(raw).Ok?
    ensures Routed(raw + padding) == Routed(raw)
    ensures Routed(raw[..Get16(raw, 2)]) == Routed(raw)
  {
    var n := Get16(raw, 2) as int;
    assert (raw + padding)[..n] == raw[..n] == raw[..n][..n];
    assert Get16(raw + padding, 2) == Get16(raw[..n], 2) == n;
  }

  // ---------------------------------------------------------------------------
  // The dispatcher
  // ---------------------------------------------------------------------------

  type uint64 = x: int | 0 <= x < 0x1_0000_0000_0000_0000

  function Wrap64(n: nat): (r: uint64)
    ensures n < 0x1_0000_0000_0000_0000 ==> r == n
  {
    n % 0x1_0000_0000_0000_0000
  }

  lemma Wrap64Inside(a: nat, b: nat, c: nat)
    ensures Wrap64(Wrap64(a) + b + c) == Wrap64(a + b + c)
  {
    var m, q := 0x1_0000_0000_0000_0000, a / 0x1_0000_0000_0000_0000;
    assert a + b + c == (Wrap64(a) + b + c) + m * q;
  }

  datatype Counters = Counters(received: uint64, invalid: uint64, dropped: uint64, dispatched: uint64)
  {
    /** Every packet received was counted as exactly one of the other three. */
    predicate Balanced() { received == Wrap64(invalid + dropped + dispatched) }

    function Receive(): Counters { this.(received := Wrap64(received + 1)) }

    function Settle(o: Outcome): Counters {
      match o
      case Invalid => this.(invalid := Wrap64(invalid + 1))
      case Dropped => this.(dropped := Wrap64(dropped + 1))
      case Dispatched => this.(dispatched := Wrap64(dispatched + 1))
    }
  }

  datatype Outcome = Invalid | Dropped | Dispatched

  function OutcomeOf(raw: bytes, protocols: set<byte>): Outcome {
    match Routed(raw)
    case Err(_) => Invalid
    case Ok(d) => if d.protocol in protocols then Dispatched else Dropped
  }

  /** After `pending` packets were received but not settled. */
  predicate BalancedBut(c: Counters, pending: nat) {
    c.received == Wrap64(c.invalid + c.dropped + c.dispatched + pending)
  }

  lemma ReceiveKeeps(c: Counters, pending: nat)
    requires BalancedBut(c, pending)
    ensures BalancedBut(c.Receive(), pending + 1)
  {
    Wrap64Inside(c.invalid + c.dropped + c.dispatched + pending, 1, 0);
  }

  lemma SettleKeeps(c: Counters, o: Outcome, pending: nat)
    requires BalancedBut(c, pending) && pending > 0
    ensures BalancedBut(c.Settle(o), pending - 1)
  {
    match o
    case Invalid => Wrap64Inside(c.invalid + 1, c.dropped + c.dispatched, pending - 1);
    case Dropped => Wrap64Inside(c.dropped + 1, c.invalid + c.dispatched, pending - 1);
    case Dispatched => Wrap64Inside(c.dispatched + 1, c.invalid + c.dropped, pending - 1);
  }

  lemma CountedOnce(c: Counters, o: Outcome)
    ensures forall pending: nat :: BalancedBut(c, pending) ==> BalancedBut(c.Receive().Settle(o), pending)
  {
    hide BalancedBut;
    forall pending: nat | BalancedBut(c, pending) ensures BalancedBut(c.Receive().Settle(o), pending) {
      ReceiveKeeps(c, pending);
      SettleKeeps(c.Receive(), o, pending + 1);
    }
  }

  class Dispatcher {
    var handlers: map<byte, ICMPHandler>
    var packetsReceived: uint64
    var packetsInvalid: uint64
    var packetsDropped: uint64
    var packetsDispatched: uint64

    constructor ()
      ensures handlers == map[] && Stats() == Counters(0, 0, 0, 0)
    {
      handlers := map[];
      packetsReceived, packetsInvalid, packetsDropped, packetsDispatched := 0, 0, 0, 0;
    }

    function Stats(): Counters
      reads this
    {
      Counters(packetsReceived, packetsInvalid, packetsDropped, packetsDispatched)
    }

    ghost function Generators(): set<IDGenerator>
      reads this
    {
      set h | h in handlers.Values :: h.idGen
    }

    method Register(h: ICMPHandler)
      modifies this`handlers
      ensures handlers == old(handlers)[h.Protocol() := h]
    {
      handlers := handlers[h.Protocol() := h];
    }

    /** `HandlePacket` is this method under another name. */
    method Dispatch(raw: bytes, accepted: bool) returns (err: Option<DispatchError>)
      modifies this, handlers.Values, Generators()
      ensures handlers == old(handlers)
      ensures forall pending: nat :: BalancedBut(old(Stats()), pending) ==> BalancedBut(Stats(), pending)
      ensures Stats() == old(Stats()).Receive().Settle(OutcomeOf(raw, handlers.Keys))
      ensures packetsReceived == Wrap64(old(packetsReceived) + 1)
      ensures packetsInvalid == Wrap64(old(packetsInvalid) + if Routed(raw).Err? then 1 else 0)
      ensures var handled := Routed(raw).Ok? && Routed(raw).value.protocol in handlers;
        && packetsDropped == Wrap64(old(packetsDropped) + if Routed(raw).Ok? && !handled then 1 else 0)
        && packetsDispatched == Wrap64(old(packetsDispatched) + if handled then 1 else 0)
      ensures Routed(raw).Err? ==> err == Some(Routed(raw).error)
      ensures OutcomeOf(raw, handlers.Keys) == Dropped ==> err == None
      ensures OutcomeOf(raw, handlers.Keys) != Dispatched ==>
        forall h :: h in handlers.Values ==> h.written == old(h.written) && h.idGen.val == old(h.idGen.val)
      ensures OutcomeOf(raw, handlers.Keys) == Dispatched ==> (
          var d := Routed(raw).value;
          var h := handlers[d.protocol];
          && h.idGen.val == (if AnswerTo(d.payload).Some? then Wrap32(old(h.idGen.val) + 1) else old(h.idGen.val))
          && (forall k :: k in handlers.Values && k != h ==> k.written == old(k.written))
          && (AnswerTo(d.payload) == None ==>
                && h.written == old(h.written)
                && err == if ParseEcho(d.payload) == Err(TooShort) then Some(Handler(Malformed)) else None)
          && (AnswerTo(d.payload).Some? ==>
                && err == (if accepted then None else Some(Handler(WriteFailed)))
                && h.written == old(h.written) + if accepted then [ReplyPacket(d, Wrap16(h.idGen.val))] else []))
    {
      hide AnswerTo, Routed, PacketOf, Wrap64, BalancedBut;
      CountedOnce(Stats(), OutcomeOf(raw, handlers.Keys));
      packetsReceived := Wrap64(packetsReceived + 1);
      var routed := Routed(raw);
      if routed.Err? {
        packetsInvalid := Wrap64(packetsInvalid + 1);
        return Some(routed.error);
      }
      var d := routed.value;
      if d.protocol !in handlers {
        packetsDropped := Wrap64(packetsDropped + 1);
        return None;
      }
      packetsDispatched := Wrap64(packetsDispatched + 1);
      AnswerFits(raw);
      var e := handlers[d.protocol].HandleIPPayload(d.srcIP, d.dstIP, d.payload, accepted);
      err := if e.Some? then Some(Handler(e.value)) else None;
    }
  }

  function ReplyPacket(d: Delivery, id: uint16): (p: bytes)
    requires AnswerTo(d.payload).Some? && IPHeader.MIN_HEADER_LEN + |d.payload| <= 0xFFFF
  {
    PacketOf(d.dstIP, d.srcIP, PROTO_ICMP, ReplyContext(id), AnswerTo(d.payload).value)
  }

  /** A reply is as long as its request, so one to a request that arrived is never too large. */
  lemma AnswerFits(raw: bytes)
    requires Routed(raw).Ok?
    ensures IPHeader.MIN_HEADER_LEN + |Routed(raw).value.payload| <= 0xFFFF
    ensures AnswerTo(Routed(raw).value.payload).Some? ==>
      |AnswerTo(Routed(raw).value.payload).value| == |Routed(raw).value.payload|
  {
  }
}

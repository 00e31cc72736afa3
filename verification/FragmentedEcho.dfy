/** Built packets through fragmentation, reassembly and dispatch, and an echo exchange larger than the MTU. */
module FragmentedEcho {
  import opened Bytes
  import opened IPAddress
  import opened Checksum
  import IPHeader
  import opened Fragmentation
  import opened Tiling
  import opened ReassemblyModel
  import opened KeyTraffic
  import opened RoundTrip
  import opened Builder
  import opened Icmp
  import Dispatcher
  import Echo

  /** A built packet survives fragmentation unless MF was set in its context, which no option does. */
  lemma BuiltIsIntactIff(src: bytes, dst: bytes, proto: byte, c: BuildContext, payload: bytes)
    requires IPHeader.MIN_HEADER_LEN + |payload| <= 0xFFFF && c.flags < 8
    ensures Intact(PacketOf(src, dst, proto, c, payload)) <==> c.flags % 2 == 0
  {
    hide PacketOf, IPHeader.ParseHeader, ChecksumOf, IPHeader.MarshalOf;
    BuiltReadsBack(src, dst, proto, c, payload);
  }

  lemma OptionsKeepIntact(src: bytes, dst: bytes, proto: byte, c: BuildContext, opts: seq<BuildOption>, payload: bytes)
    requires IPHeader.MIN_HEADER_LEN + |payload| <= 0xFFFF && c.flags == 0
    ensures Intact(PacketOf(src, dst, proto, ApplyAll(c, opts), payload))
  {
    hide PacketOf, Intact, ApplyAll, LastGiven;
    LastOptionWins(c, opts);
    BuiltIsIntactIff(src, dst, proto, ApplyAll(c, opts), payload);
  }

  /** Without DF, a built packet above the MTU is split. */
  lemma BuiltIsSplit(src: bytes, dst: bytes, proto: byte, c: BuildContext, payload: bytes, mtu: int)
    requires c.flags == 0 && 28 <= mtu < IPHeader.MIN_HEADER_LEN + |payload| <= 0xFFFF
    ensures IsSplit(PacketOf(src, dst, proto, c, payload), mtu)
  {
    hide PacketOf, IPHeader.ParseHeader, ChecksumOf, IPHeader.MarshalOf, Split;
    BuiltReadsBack(src, dst, proto, c, payload);
  }

  /** A built packet above the MTU is refused for its DF flag exactly when it was built with the option. */
  lemma DFIsRefusedIff(
    src: bytes, dst: bytes, proto: byte, id: uint16, opts: seq<BuildOption>, payload: bytes, mtu: int)
    requires mtu < IPHeader.MIN_HEADER_LEN + |payload| <= 0xFFFF
    ensures var p := PacketOf(src, dst, proto, ApplyAll(BuildContext(64, 0, 0, id), opts), payload);
      FragmentOf(p, mtu) == Refused(DontFragment) <==> WithDF in opts
  {
    hide PacketOf, FragmentOf, ApplyAll, IPHeader.ParseHeader, LastGiven, Verifies, Get16;
    var c := ApplyAll(BuildContext(64, 0, 0, id), opts);
    BuiltBytes(src, dst, proto, id, opts, payload);
    LastOptionWins(BuildContext(64, 0, 0, id), opts);
    BuiltReadsBack(src, dst, proto, c, payload);
    RefusedIff(PacketOf(src, dst, proto, c, payload), mtu);
  }

  /** A run at a receiver over the fragments of `p`, ending with the last missing one. */
  ghost predicate Received(p: bytes, mtu: int, states: seq<State>, events: seq<Event>, kes: seq<KeyEvent>) {
    && IsSplit(p, mtu)
    && FreshRun(FragmentOf(p, mtu).fragments, KeyOf(IPHeader.ParseHeader(p).value), states, events, kes)
    && JustCompletes(kes, |FragmentOf(p, mtu).fragments|)
  }

  /** What the run delivers under the packet's key. */
  ghost function DeliveredIn(p: bytes, states: seq<State>): (seq<bytes>, seq<bytes>)
    requires states != [] && IPHeader.ParseHeader(p).Ok?
  {
    var k := KeyOf(IPHeader.ParseHeader(p).value);
    (DeliveredFor(states[0].delivered, k), DeliveredFor(states[|states| - 1].delivered, k))
  }

  /** The fragments of a built packet bring out that packet, which is dispatched as its payload and addresses. */
  lemma BuiltArrives(src: bytes, dst: bytes, proto: byte, c: BuildContext, payload: bytes, mtu: int,
                     states: seq<State>, events: seq<Event>, kes: seq<KeyEvent>)
    requires c.flags == 0 && IPHeader.MIN_HEADER_LEN + |payload| <= 0xFFFF
    requires Received(PacketOf(src, dst, proto, c, payload), mtu, states, events, kes)
    ensures var p := PacketOf(src, dst, proto, c, payload);
      && IPHeader.ParseHeader(p).Ok?
      && DeliveredIn(p, states).1 == DeliveredIn(p, states).0 + [p]
      && Dispatcher.Routed(p) == Ok(Dispatcher.Delivery(proto, IPv4(Quad(src)), IPv4(Quad(dst)), payload))
  {
    hide PacketOf, IPHeader.ParseHeader, ChecksumOf, Intact, FragmentOf, IsSplit, Step, Looks, JustCompletes;
    hide DeliveredFor, Dispatcher.Routed, KeyOf;
    var p := PacketOf(src, dst, proto, c, payload);
    BuiltReadsBack(src, dst, proto, c, payload);
    BuiltIsIntactIff(src, dst, proto, c, payload);
    FragmentThenReassemble(p, mtu, states, events, kes);
    Echo.BuiltIsRouted(src, dst, proto, c, payload, []);
    assert p + [] == p;
  }

  /**
   A ping in which both the request and the reply are split on the way: the request comes out
   whole at the other host, and the packet written in answer comes out whole at the first.
   */
  lemma LargePing(a: bytes, b: bytes, c: BuildContext, m: EchoMessage, id: uint16, mtu: int, mtu': int,
                  states: seq<State>, events: seq<Event>, kes: seq<KeyEvent>,
                  states': seq<State>, events': seq<Event>, kes': seq<KeyEvent>)
    requires |a| == |b| == 4 && c.flags == 0
    requires m.kind == TYPE_ECHO_REQUEST && IPHeader.MIN_HEADER_LEN + 8 + |m.data| <= 0xFFFF
    requires Received(PacketOf(a, b, PROTO_ICMP, c, EchoBytes(m)), mtu, states, events, kes)
    requires Received(PacketOf(IPv4(b), IPv4(a), PROTO_ICMP, ReplyContext(id), EchoBytes(NewEchoReply(m))),
                      mtu', states', events', kes')
    ensures var request := PacketOf(a, b, PROTO_ICMP, c, EchoBytes(m));
      && IPHeader.ParseHeader(request).Ok?
      && DeliveredIn(request, states).1 == DeliveredIn(request, states).0 + [request]
      && var d := Dispatcher.Delivery(PROTO_ICMP, IPv4(a), IPv4(b), EchoBytes(m));
      && Dispatcher.Routed(request) == Ok(d) && AnswerTo(d.payload).Some?
      && var reply := Dispatcher.ReplyPacket(d, id);
      && IPHeader.ParseHeader(reply).Ok?
      && DeliveredIn(reply, states').1 == DeliveredIn(reply, states').0 + [reply]
      && Dispatcher.Routed(reply)
           == Ok(Dispatcher.Delivery(PROTO_ICMP, IPv4(b), IPv4(a), EchoBytes(NewEchoReply(m))))
      && Echo.IsRequest(EchoBytes(m)) && Echo.Answers(EchoBytes(NewEchoReply(m)), EchoBytes(m))
  {
    hide Received, DeliveredIn, PacketOf, IPHeader.ParseHeader, EchoBytes, ChecksumOf, Verifies, Dispatcher.Routed;
    hide Unsummed, IPv4;
    BuiltArrives(a, b, PROTO_ICMP, c, EchoBytes(m), mtu, states, events, kes);
    BuiltArrives(IPv4(b), IPv4(a), PROTO_ICMP, ReplyContext(id), EchoBytes(NewEchoReply(m)), mtu',
                 states', events', kes');
    MarshalThenParse(m);
    MarshalThenParse(NewEchoReply(m));
    assert NewEchoReply(ParseEcho(EchoBytes(m)).value) == NewEchoReply(m);
  }
}

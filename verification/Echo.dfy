/** An echo exchange from end to end, and a dispatcher used by many callers at once. */
module Echo {
  import opened Bytes
  import opened IPAddress
  import opened Checksum
  import IPHeader
  import opened Builder
  import opened Icmp
  import opened Dispatcher

  /** A built packet, with anything after it, is dispatched as exactly its payload and addresses. */
  lemma BuiltIsRouted(src: bytes, dst: bytes, proto: byte, c: BuildContext, payload: bytes, padding: bytes)
    requires IPHeader.MIN_HEADER_LEN + |payload| <= 0xFFFF && c.flags < 8
    ensures Routed(PacketOf(src, dst, proto, c, payload) + padding)
         == Ok(Delivery(proto, IPv4(Quad(src)), IPv4(Quad(dst)), payload))
  {
    hide PacketOf, Verifies, IPHeader.ParseHeader, Routed, ChecksumOf;
    var p := PacketOf(src, dst, proto, c, payload);
    BuiltReadsBack(src, dst, proto, c, payload);
    RoutedIffParses(p);
    assert p[..|p|] == p;
    PaddingIgnored(p, padding);
  }

  predicate IsRequest(payload: bytes) {
    ParseEcho(payload).Ok? && ParseEcho(payload).value.kind == TYPE_ECHO_REQUEST
  }

  /** `reply` is the answer to `request`, and intact. */
  predicate Answers(reply: bytes, request: bytes)
    requires IsRequest(request)
  {
    var m := ParseEcho(request).value;
    && ParseEcho(reply)
         == Ok(EchoMessage(TYPE_ECHO_REPLY, 0, ChecksumOf(Unsummed(NewEchoReply(m))), m.id, m.seqNum, m.data))
    && Verifies(reply)
  }

  /**
   The packet written for a request that was dispatched has a header that verifies and, with
   any padding appended, is dispatched at the requester as the answer, which nobody answers.
   */
  lemma RequestAnswered(raw: bytes, id: uint16, padding: bytes)
    requires Routed(raw).Ok? && IsRequest(Routed(raw).value.payload)
    ensures var d := Routed(raw).value;
      && AnswerTo(d.payload).Some? && IPHeader.MIN_HEADER_LEN + |d.payload| <= 0xFFFF
      && Answers(AnswerTo(d.payload).value, d.payload)
      && Routed(ReplyPacket(d, id) + padding)
           == Ok(Delivery(PROTO_ICMP, d.dstIP, d.srcIP, AnswerTo(d.payload).value))
      && Verifies(ReplyPacket(d, id)[..IPHeader.MIN_HEADER_LEN])
      && ReplyPacket(d, id)[8] == 64 && ReplyPacket(d, id)[9] == 1 && Get16(ReplyPacket(d, id), 4) == id
      && AnswerTo(AnswerTo(d.payload).value) == None
  {
    AnswerFits(raw);
    AddressesAreIPv4(raw);
    hide Routed, PacketOf, EchoBytes, ChecksumOf, Verifies, IPHeader.ParseHeader;
    var d := Routed(raw).value;
    var reply := NewEchoReply(ParseEcho(d.payload).value);
    Icmp.MarshalThenParse(reply);
    BuiltReadsBack(d.dstIP, d.srcIP, PROTO_ICMP, ReplyContext(id), EchoBytes(reply));
    PacketBytes(d.dstIP, d.srcIP, PROTO_ICMP, ReplyContext(id), EchoBytes(reply));
    BuiltIsRouted(d.dstIP, d.srcIP, PROTO_ICMP, ReplyContext(id), EchoBytes(reply), padding);
  }

  lemma AddressesAreIPv4(raw: bytes)
    requires Routed(raw).Ok?
    ensures var d := Routed(raw).value; IPv4(Quad(d.srcIP)) == d.srcIP && IPv4(Quad(d.dstIP)) == d.dstIP
  {
  }

  /** A ping: a request built at one host comes back there as its answer, from the host it went to. */
  lemma Ping(a: bytes, b: bytes, c: BuildContext, m: EchoMessage, id: uint16, pad1: bytes, pad2: bytes)
    requires |a| == |b| == 4 && c.flags < 8
    requires m.kind == TYPE_ECHO_REQUEST && IPHeader.MIN_HEADER_LEN + 8 + |m.data| <= 0xFFFF
    ensures var arrived := Routed(PacketOf(a, b, PROTO_ICMP, c, EchoBytes(m)) + pad1);
      && arrived == Ok(Delivery(PROTO_ICMP, IPv4(a), IPv4(b), EchoBytes(m)))
      && IsRequest(EchoBytes(m))
      && var back := Routed(ReplyPacket(arrived.value, id) + pad2);
      && back.Ok? && back.value.srcIP == IPv4(b) && back.value.dstIP == IPv4(a)
      && ParseEcho(back.value.payload) == Ok(NewEchoReply(m).(checksum := ChecksumOf(Unsummed(NewEchoReply(m)))))
      && Verifies(back.value.payload)
  {
    hide Routed, PacketOf, EchoBytes, ChecksumOf, Verifies, ReplyPacket, IPv4, Unsummed;
    var raw := PacketOf(a, b, PROTO_ICMP, c, EchoBytes(m)) + pad1;
    BuiltIsRouted(a, b, PROTO_ICMP, c, EchoBytes(m), pad1);
    Icmp.MarshalThenParse(m);
    RequestAnswered(raw, id, pad2);
    assert NewEchoReply(ParseEcho(EchoBytes(m)).value) == NewEchoReply(m);
  }

  // ---------------------------------------------------------------------------
  // Concurrent callers of Dispatch
  // ---------------------------------------------------------------------------

  /** The counters, and the callers that have counted a packet as received and not yet settled it. */
  datatype Callers = Callers(counters: Counters, inside: set<nat>)

  datatype Step = Enter(t: nat) | Leave(t: nat, outcome: Outcome)

  /** Each increment is atomic; those of different callers interleave freely. */
  function Do(s: Callers, a: Step): Callers {
    match a
    case Enter(t) => if t in s.inside then s else Callers(s.counters.Receive(), s.inside + {t})
    case Leave(t, o) => if t !in s.inside then s else Callers(s.counters.Settle(o), s.inside - {t})
  }

  function Exec(s: Callers, steps: seq<Step>): Callers
    decreases |steps|
  {
    if steps == [] then s else Exec(Do(s, steps[0]), steps[1..])
  }

  /** At every point received exceeds the sum of the others by the calls under way, modulo 2^64. */
  lemma {:induction false} CountersBalance(s: Callers, steps: seq<Step>)
    requires BalancedBut(s.counters, |s.inside|)
    ensures BalancedBut(Exec(s, steps).counters, |Exec(s, steps).inside|)
    ensures Exec(s, steps).inside == {} ==> Exec(s, steps).counters.Balanced()
    decreases |steps|
  {
    hide Wrap64;
    if steps != [] {
      match steps[0] {
        case Enter(t) => ReceiveKeeps(s.counters, |s.inside|);
        case Leave(t, o) =>
          if t in s.inside {
            assert |s.inside - {t}| == |s.inside| - 1;
            SettleKeeps(s.counters, o, |s.inside|);
          }
      }
      CountersBalance(Do(s, steps[0]), steps[1..]);
    }
  }
}

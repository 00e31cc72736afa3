/** Echo messages and the handler that answers them (internal/icmp/icmp.go and handler.go). */
module Icmp {
  import opened Bytes
  import opened IPAddress
  import opened Checksum
  import IPHeader
  import opened Builder

  const TYPE_ECHO_REPLY: byte := 0
  const TYPE_ECHO_REQUEST: byte := 8

  datatype EchoError = TooShort | NotEcho

  datatype EchoMessage = EchoMessage(kind: byte, code: byte, checksum: uint16, id: uint16, seqNum: uint16, data: bytes)

  function ParseEcho(raw: bytes): Result<EchoMessage, EchoError> {
    if |raw| < 8 then Err(TooShort)
    else if raw[0] != TYPE_ECHO_REQUEST && raw[0] != TYPE_ECHO_REPLY then Err(NotEcho)
    else Ok(EchoMessage(raw[0], raw[1], Get16(raw, 2), Get16(raw, 4), Get16(raw, 6), raw[8..]))
  }

  /** The message with zero in its checksum field. */
  function Unsummed(m: EchoMessage): (b: bytes)
    ensures |b| == 8 + |m.data|
  {
    [m.kind, m.code, 0, 0, Hi(m.id), Lo(m.id), Hi(m.seqNum), Lo(m.seqNum)] + m.data
  }

  function EchoBytes(m: EchoMessage): (b: bytes)
    ensures |b| == 8 + |m.data|
  {
    Patch16(Unsummed(m), 2, ChecksumOf(Unsummed(m)))
  }

  method StoreFields(buf: array<byte>, m: EchoMessage)
    requires buf.Length >= 8
    modifies buf
    ensures buf[..] == Unsummed(m)[..8] + old(buf[8..])
  {
    buf[0], buf[1], buf[2], buf[3] := m.kind, m.code, 0, 0;
    buf[4], buf[5] := Hi(m.id), Lo(m.id);
    buf[6], buf[7] := Hi(m.seqNum), Lo(m.seqNum);
    assert buf[8..] == old(buf[8..]);
    assert buf[..8] == Unsummed(m)[..8];
  }

  method Marshal(m: EchoMessage) returns (buf: array<byte>)
    ensures fresh(buf) && buf[..] == EchoBytes(m)
  {
    hide ChecksumOf, Overwrite;
    buf := new byte[8 + |m.data|](_ => 0);
    assert buf[8..] == Zeros(|m.data|);
    StoreFields(buf, m);
    if |m.data| > 0 {
      OverwriteTail(Unsummed(m)[..8], Zeros(|m.data|), m.data);
      OverwriteFront(m.data, 0);
      CopyInto(buf, 8, m.data);
    }
    assert buf[..] == Unsummed(m);
    var checksum := ICMPChecksum(buf[..]);
    buf[2], buf[3] := Hi(checksum), Lo(checksum);
    assert buf[..] == EchoBytes(m);
  }

  /** An echo message that fits in a packet reads back with its checksum filled in, and verifies. */
  lemma MarshalThenParse(m: EchoMessage)
    requires m.kind in {TYPE_ECHO_REPLY, TYPE_ECHO_REQUEST} && |m.data| <= 131066
    ensures ParseEcho(EchoBytes(m)) == Ok(m.(checksum := ChecksumOf(Unsummed(m))))
    ensures Verifies(EchoBytes(m))
  {
    hide ChecksumOf, Verifies;
    var b := EchoBytes(m);
    assert b[8..] == m.data;
    assert Patch16(Unsummed(m), 2, 0) == Unsummed(m);
    StoredChecksumVerifies(Unsummed(m), 2);
  }

  /** Reading and writing again reproduces a message exactly when it carries the computed checksum. */
  lemma ParseThenMarshal(raw: bytes)
    requires ParseEcho(raw).Ok?
    ensures var m := ParseEcho(raw).value;
      EchoBytes(m) == raw <==> m.checksum == ChecksumOf(Patch16(raw, 2, 0))
  {
    hide ChecksumOf;
    var m := ParseEcho(raw).value;
    HiLoOfGet16(raw, 2);
    HiLoOfGet16(raw, 4);
    HiLoOfGet16(raw, 6);
    assert Unsummed(m) == Patch16(raw, 2, 0);
    var x := ChecksumOf(Patch16(raw, 2, 0));
    if m.checksum == x {
      assert EchoBytes(m) == raw;
    } else {
      assert Get16(EchoBytes(m), 2) == x;
    }
  }

  /** What is read, and from where: type 8 or 0 and at least eight bytes. */
  lemma ReadLayout(raw: bytes)
    ensures ParseEcho(raw) == Err(TooShort) <==> |raw| < 8
    ensures ParseEcho(raw).Ok? <==> |raw| >= 8 && (raw[0] == 8 || raw[0] == 0)
    ensures ParseEcho(raw).Ok? ==>
      var m := ParseEcho(raw).value;
      m == EchoMessage(raw[0], raw[1], Get16(raw, 2), Get16(raw, 4), Get16(raw, 6), raw[8..])
  {
  }

  /** The reply is the request with zeros for type and code and its own checksum. */
  lemma ReplyLayout(raw: bytes)
    ensures AnswerTo(raw).Some? <==> |raw| >= 8 && raw[0] == 8
    ensures AnswerTo(raw).Some? ==>
      var b := AnswerTo(raw).value;
      |b| == |raw| && b[0] == 0 && b[1] == 0 && b[4..] == raw[4..]
      && Get16(b, 2) == ChecksumOf([0, 0, 0, 0] + raw[4..])
  {
    hide ChecksumOf;
    if AnswerTo(raw).Some? {
      var m := NewEchoReply(ParseEcho(raw).value);
      HiLoOfGet16(raw, 4);
      HiLoOfGet16(raw, 6);
      assert Unsummed(m) == [0, 0, 0, 0] + raw[4..];
    }
  }

  function NewEchoReply(req: EchoMessage): EchoMessage {
    EchoMessage(TYPE_ECHO_REPLY, 0, 0, req.id, req.seqNum, req.data)
  }

  datatype HandleError = Malformed | TooLarge | WriteFailed

  /** The message that answers a payload, if it is a request. */
  function AnswerTo(payload: bytes): Option<bytes> {
    match ParseEcho(payload)
    case Ok(m) => if m.kind == TYPE_ECHO_REQUEST then Some(EchoBytes(NewEchoReply(m))) else None
    case Err(_) => None
  }

  function ReplyContext(id: uint16): BuildContext { BuildContext(DEFAULT_TTL, 0, 0, id) }

  class ICMPHandler {
    /** The packets that the output accepted. */
    var written: seq<bytes>
    const idGen: IDGenerator

    constructor (idGen: IDGenerator)
      ensures this.idGen == idGen && written == []
    {
      this.idGen, this.written := idGen, [];
    }

    /** The protocol it is registered for. */
    function Protocol(): (p: byte)
      ensures p == 1
    {
      PROTO_ICMP
    }

    /** The packet sink: takes the packet, or fails and takes nothing. */
    method Write(packet: bytes, accepted: bool) returns (err: Option<HandleError>)
      modifies this`written
      ensures written == old(written) + (if accepted then [packet] else [])
      ensures err == if accepted then None else Some(WriteFailed)
    {
      if !accepted {
        return Some(WriteFailed);
      }
      written := written + [packet];
      err := None;
    }

    /** A request that fits takes one identification and is answered; nothing else writes anything. */
    method HandleIPPayload(srcIP: bytes, dstIP: bytes, payload: bytes, accepted: bool)
      returns (err: Option<HandleError>)
      modifies this`written, idGen
      ensures idGen.val == if AnswerTo(payload).Some? then Wrap32(old(idGen.val) + 1) else old(idGen.val)
      ensures AnswerTo(payload) == None ==> (
          && written == old(written)
          && err == if ParseEcho(payload) == Err(TooShort) then Some(Malformed) else None)
      ensures AnswerTo(payload).Some? && IPHeader.MIN_HEADER_LEN + |payload| > 0xFFFF ==>
        err == Some(TooLarge) && written == old(written)
      ensures AnswerTo(payload).Some? && IPHeader.MIN_HEADER_LEN + |payload| <= 0xFFFF ==> (
          && err == (if accepted then None else Some(WriteFailed))
          && written == old(written) + (if accepted then
               [PacketOf(dstIP, srcIP, PROTO_ICMP, ReplyContext(Wrap16(idGen.val)), AnswerTo(payload).value)]
             else []))
    {
      hide EchoBytes, PacketOf;
      var parsed := ParseEcho(payload);
      if parsed.Err? {
        return if parsed.error == NotEcho then None else Some(Malformed);
      }
      var msg := parsed.value;
      err := None;
      if msg.kind == TYPE_ECHO_REQUEST {
        var reply := NewEchoReply(msg);
        var replyBytes := Marshal(reply);
        var builder := new PacketBuilder(dstIP, srcIP, PROTO_ICMP, idGen);
        var built := builder.BuildWithOptions(replyBytes[..], []);
        if built.Err? {
          return Some(TooLarge);
        }
        err := Write(built.value, accepted);
      }
    }
  }
}

/**
 The IP options of fragments. Section 3.1 of RFC 791 puts an option into the fragments after
 the first only if its copied flag is set; the code copies the whole option area.
 */
module FragmentOptions {
  import opened Bytes
  import opened IPAddress
  import opened IPHeader
  import opened Fragmentation
  import opened Tiling

  const OPT_END_OF_LIST: byte := 0
  const OPT_NO_OPERATION: byte := 1
  const OPT_RECORD_ROUTE: byte := 7

  /** The options of an area, each with its bytes; a no-operation may come and go on fragmentation. */
  function OptionsIn(area: bytes): (opts: seq<bytes>)
    ensures forall i :: 0 <= i < |opts| ==> opts[i] != []
  {
    if area == [] || area[0] == OPT_END_OF_LIST then []
    else if area[0] == OPT_NO_OPERATION then OptionsIn(area[1..])
    else if |area| < 2 || area[1] < 2 || area[1] as int > |area| then []
    else [area[..area[1]]] + OptionsIn(area[area[1]..])
  }

  /** The copied flag is the high bit of the type. */
  predicate IsCopied(opt: bytes) {
    opt != [] && opt[0] >= 0x80
  }

  /** What a fragment after the first may carry. */
  function CopiedOf(opts: seq<bytes>): seq<bytes> {
    if opts == [] then []
    else (if IsCopied(opts[0]) then [opts[0]] else []) + CopiedOf(opts[1..])
  }

  predicate AllCopied(opts: seq<bytes>) {
    forall i :: 0 <= i < |opts| ==> IsCopied(opts[i])
  }

  lemma {:induction false} CopiedOfAll(opts: seq<bytes>)
    ensures |CopiedOf(opts)| <= |opts|
    ensures CopiedOf(opts) == opts <==> AllCopied(opts)
  {
    if opts != [] {
      CopiedOfAll(opts[1..]);
      assert opts == [opts[0]] + opts[1..];
      if IsCopied(opts[0]) {
        assert CopiedOf(opts)[1..] == CopiedOf(opts[1..]);
        assert AllCopied(opts) <==> AllCopied(opts[1..]);
      }
    }
  }

  /** The options of fragment `f` are those that the RFC lets a fragment after the first carry. */
  predicate Complies(h: Header, f: bytes) {
    && ParseHeader(f).Ok?
    && OptionsIn(ParseHeader(f).value.options) == CopiedOf(OptionsIn(h.options))
  }

  /** No-operation, loose source route (copied), timestamp (not copied), end of list. */
  lemma OptionExamples()
    ensures var opts := OptionsIn([1, 131, 3, 4, 68, 4, 5, 0, 0, 9]);
      opts == [[131, 3, 4], [68, 4, 5, 0]] && CopiedOf(opts) == [[131, 3, 4]] && !AllCopied(opts)
    ensures OptionsIn([131, 5, 4]) == []
  {
    var area: bytes := [1, 131, 3, 4, 68, 4, 5, 0, 0, 9];
    var a1 := area[1..];
    assert a1 == [131, 3, 4, 68, 4, 5, 0, 0, 9];
    var a2 := a1[3..];
    assert a1[..3] == [131, 3, 4] && a2 == [68, 4, 5, 0, 0, 9];
    var a3 := a2[4..];
    assert a2[..4] == [68, 4, 5, 0] && a3 == [0, 9];
    assert OptionsIn(a2) == [[68, 4, 5, 0]] + OptionsIn(a3);
    assert OptionsIn(a1) == [[131, 3, 4]] + OptionsIn(a2);
    var opts: seq<bytes> := [[131, 3, 4], [68, 4, 5, 0]];
    assert opts[1..] == [[68, 4, 5, 0]] && opts[1..][1..] == [];
    assert !IsCopied(opts[1]);
  }

  lemma PieceCompliesIff(t: Tiling, i: nat)
    requires t.Valid() && 0 < i < t.Count()
    ensures Complies(t.h, t.Frag(i)) <==> AllCopied(OptionsIn(t.h.options))
  {
    hide ParseHeader, PieceBytes, PieceHeader, OptionsIn, CopiedOf, AllCopied, IsCut;
    t.HeadFields(i);
    t.PieceParses(i);
    CopiedOfAll(OptionsIn(t.h.options));
  }

  /** The fragments after the first all comply, or none does: exactly when every option has the copied flag. */
  lemma FragmentCompliesIff(packet: bytes, mtu: int, i: nat)
    requires IsSplit(packet, mtu) && 0 < i < |FragmentOf(packet, mtu).fragments|
    ensures Complies(ParseHeader(packet).value, FragmentOf(packet, mtu).fragments[i])
       <==> AllCopied(OptionsIn(ParseHeader(packet).value.options))
  {
    hide ParseHeader, PieceBytes, PieceHeader, OptionsIn, CopiedOf, AllCopied, FragmentOf, Complies;
    FragmentIsTiling(packet, mtu);
    PieceCompliesIff(TilingOf(packet, mtu), i);
  }

  // ---------------------------------------------------------------------------
  // A record route option, which belongs in the first fragment only
  // ---------------------------------------------------------------------------

  function SampleOptions(): bytes { [OPT_RECORD_ROUTE, 3, 4, OPT_END_OF_LIST] }

  function SampleHeader(): Header {
    Header(4, 6, 0, 40, 7, 0, 0, 64, PROTO_ICMP, 0, [10, 0, 0, 1], [10, 0, 0, 2], SampleOptions())
  }

  /** A packet of 40 bytes, 16 of them payload. */
  function SamplePacket(): bytes {
    MarshalOf(SampleHeader()) + Zeros(16)
  }

  lemma RecordRouteIsCopied()
    ensures IsSplit(SamplePacket(), 32) && |FragmentOf(SamplePacket(), 32).fragments| >= 2
    ensures ParseHeader(SamplePacket()) == Ok(SampleHeader())
    ensures var f := FragmentOf(SamplePacket(), 32).fragments[1];
      && ParseHeader(f).Ok? && ParseHeader(f).value.options == SampleOptions()
      && !Complies(SampleHeader(), f)
  {
    hide ParseHeader, MarshalOf, Complies, Split;
    MarshalThenParse(SampleHeader(), Zeros(16));
    assert |SamplePacket()| == 40;
    FragmentIsTiling(SamplePacket(), 32);
    TilingOf(SamplePacket(), 32).HeadFields(1);
    TilingOf(SamplePacket(), 32).PieceParses(1);
    FragmentCompliesIff(SamplePacket(), 32, 1);
    var opts := OptionsIn(SampleOptions());
    assert opts[0][0] == OPT_RECORD_ROUTE;
  }
}

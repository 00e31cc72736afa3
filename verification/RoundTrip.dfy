/** Fragmentation followed by reassembly, end to end. */
module RoundTrip {
  import opened Bytes
  import opened IPHeader
  import opened Checksum
  import opened Fragmentation
  import opened Tiling
  import opened Refragmentation
  import opened ReassemblyModel
  import opened KeyTraffic

  /** What a sender can check before fragmenting: a whole datagram, exact length, computed checksum. */
  predicate Intact(p: bytes) {
    && ParseHeader(p).Ok?
    && var h := ParseHeader(p).value;
       && h.ihl >= 5 && h.fragOffset == 0 && !h.MF()
       && h.totalLen as int == |p| && h.checksum == Seal(h).checksum
  }

  /** The packet a rebuild makes, from any packet that parses: exact length, computed checksum. */
  function Normal(p: bytes): bytes
    requires ParseHeader(p).Ok? && ParseHeader(p).value.ihl >= 5 && |p| <= 0xFFFF
  {
    var h := ParseHeader(p).value;
    MarshalOf(Seal(h.(totalLen := |p|))) + h.PayloadOf(p)
  }

  lemma NormalIffIntact(p: bytes)
    requires ParseHeader(p).Ok? && ParseHeader(p).value.ihl >= 5 && |p| <= 0xFFFF
    requires ParseHeader(p).value.fragOffset == 0 && !ParseHeader(p).value.MF()
    ensures Normal(p) == p <==> Intact(p)
  {
    var h := ParseHeader(p).value;
    var n := Seal(h.(totalLen := |p|));
    hide MarshalOf, ChecksumOf;
    ParseThenMarshal(p);
    assert p == MarshalOf(h) + h.PayloadOf(p);
    MarshalThenParse(n, h.PayloadOf(p));
  }

  lemma DatagramIsNormal(p: bytes, mtu: int)
    requires IsSplit(p, mtu) && TilingOf(p, mtu).Valid() && TilingOf(p, mtu).Whole()
    ensures TilingOf(p, mtu).Datagram() == Normal(p)
  {
    var t := TilingOf(p, mtu);
    hide MarshalOf, ChecksumOf, ParseHeader;
    assert PieceDraft(t.h, 0, |t.payload|, true) == t.h.(totalLen := |p|);
    assert PieceDraft(t.h, 0, |t.payload|, true).(checksum := 0) == t.h.(totalLen := |p|).(checksum := 0);
  }

  ghost predicate SeenAll(kes: seq<KeyEvent>, n: nat) {
    forall j: nat :: j < n ==> j in Seen(kes)
  }

  /** Arrivals in which the last one is the first to complete the set of the `n` pieces. */
  ghost predicate JustCompletes(kes: seq<KeyEvent>, n: nat) {
    && kes != [] && Timely(kes)
    && SeenAll(kes, n) && !SeenAll(kes[..|kes| - 1], n)
  }

  /** A run over fragments `fs` of one key, which has no group at the start. */
  ghost predicate FreshRun(
    fs: seq<bytes>, k: FragmentKey, states: seq<State>, events: seq<Event>, kes: seq<KeyEvent>)
  {
    && Run(states, events) && AllLook(fs, k, events, kes)
    && k !in states[0].groups
  }

  /** For any tiling: nothing before the last piece, then the datagram if the original was whole. */
  lemma TilingRun(t: Tiling, states: seq<State>, events: seq<Event>, kes: seq<KeyEvent>, n: nat)
    requires t.Valid() && IsCutUp(t) && FreshRun(t.Frags(), KeyOf(t.h), states, events, kes)
    requires JustCompletes(kes, t.Count()) && n <= |events|
    ensures DeliveredFor(states[n].delivered, KeyOf(t.h))
         == DeliveredFor(states[0].delivered, KeyOf(t.h))
            + if n == |events| && t.Whole() then [t.Datagram()] else []
  {
    hide Step, Looks, IsCut, IsCutUp, KeyOf, Collect, Holds;
    var c := Collector(None, DeliveredFor(states[0].delivered, KeyOf(t.h)));
    RunRefinesCollector(t, c, states, events, kes, n);
    SeenGrows(kes, n);
    assert kes[..|kes|] == kes;
    if n == |events| && t.Whole() {
      LastPiece(t, c, kes);
    } else {
      Gathering(t, c, kes[..n]);
    }
  }

  lemma SeenGrows(kes: seq<KeyEvent>, n: nat)
    requires n <= |kes|
    ensures n < |kes| ==> Seen(kes[..n]) <= Seen(kes[..|kes| - 1])
    ensures Timely(kes) ==> Timely(kes[..n])
  {
    if n < |kes| {
      forall i | i in Seen(kes[..n]) ensures i in Seen(kes[..|kes| - 1]) {
        var j :| 0 <= j < n && kes[..n][j].Piece? && kes[..n][j].i == i;
        assert kes[..|kes| - 1][j] == kes[j];
      }
    }
  }

  /**
   Fragments of `p`, in any order and with any repeats: nothing is delivered under its key
   before the last missing piece arrives, and what is delivered then is `p` exactly when `p`
   was intact.
   */
  lemma FragmentThenReassemble(
    p: bytes, mtu: int, states: seq<State>, events: seq<Event>, kes: seq<KeyEvent>)
    requires IsSplit(p, mtu)
    requires FreshRun(FragmentOf(p, mtu).fragments, KeyOf(ParseHeader(p).value), states, events, kes)
    requires JustCompletes(kes, |FragmentOf(p, mtu).fragments|)
    ensures var k, n := KeyOf(ParseHeader(p).value), |events|;
      var before := DeliveredFor(states[0].delivered, k);
      && (forall j :: 0 <= j < n ==> DeliveredFor(states[j].delivered, k) == before)
      && (DeliveredFor(states[n].delivered, k) == before + [p] <==> Intact(p))
  {
    hide Step, IsCut, KeyOf, ParseHeader, PieceBytes, PieceHeader, JustCompletes, IsSplit, Intact, Looks;
    hide FragmentOf, SplitCuts, DeliveredFor;
    FragmentIsTiling(p, mtu);
    WholeIffIntact(p, mtu);
    var t := TilingOf(p, mtu);
    forall j: nat | j <= |events|
      ensures DeliveredFor(states[j].delivered, KeyOf(t.h))
           == DeliveredFor(states[0].delivered, KeyOf(t.h))
              + if j == |events| && t.Whole() then [t.Datagram()] else []
    {
      TilingRun(t, states, events, kes, j);
    }
    OneMore(DeliveredFor(states[0].delivered, KeyOf(t.h)), p, t.Datagram());
  }

  lemma OneMore(log: seq<bytes>, p: bytes, d: bytes)
    ensures log + [] == log && log != log + [p]
    ensures log + [d] == log + [p] <==> d == p
  {
    assert (log + [d])[|log|] == d && (log + [p])[|log|] == p;
    assert |log| != |log + [p]|;
  }

  lemma WholeIffIntact(p: bytes, mtu: int)
    requires IsSplit(p, mtu)
    ensures TilingOf(p, mtu).Valid()
    ensures TilingOf(p, mtu).Whole() && TilingOf(p, mtu).Datagram() == p <==> Intact(p)
  {
    FragmentIsTiling(p, mtu);
    hide MarshalOf, ChecksumOf, SplitCuts, IsCut;
    if TilingOf(p, mtu).Whole() {
      DatagramIsNormal(p, mtu);
      NormalIffIntact(p);
    }
  }

  /** A packet that needed no fragmentation is handed on at once, and leaves the groups alone. */
  lemma UnsplitIsDelivered(p: bytes, mtu: int, s: State, now: int, s': State, res: AddResult)
    requires Intact(p) && FragmentOf(p, mtu) == Pieces([p]) && AddStep(s, p, now, s', res)
    ensures s' == s.(delivered := s.delivered + [Direct(p)]) && res == Added
  {
  }

  /** An intact packet is the one piece of a tiling of its own. */
  function SinglePiece(p: bytes): Tiling
    requires Intact(p)
  {
    var payload := ParseHeader(p).value.PayloadOf(p);
    Tiling(ParseHeader(p).value, payload, [0, |payload|])
  }

  lemma SinglePieceTiles(p: bytes)
    requires Intact(p) && ParseHeader(p).value.PayloadOf(p) != []
    ensures var t := SinglePiece(p);
      t.Valid() && t.Whole() && t.Frags() == [p] && t.Datagram() == p
  {
    hide MarshalOf, ChecksumOf;
    var t := SinglePiece(p);
    NormalIffIntact(p);
    var d := PieceDraft(t.h, 0, |t.payload|, true);
    assert d.(checksum := 0) == t.h.(checksum := 0);
    assert t.payload[0..|t.payload|] == t.payload;
    assert t.Frag(0) == p;
  }

  lemma {:induction false} EmptyPayloadStays(p: bytes, hops: seq<Hop>)
    requires Intact(p) && ParseHeader(p).value.PayloadOf(p) == []
    ensures Forward([p], hops).Some? ==> Forward([p], hops) == Some([p])
    decreases |hops|
  {
    if hops != [] {
      assert Replace([p], 0, [p]) == [p];
      EmptyPayloadStays(p, hops[1..]);
    }
  }

  /** The same after any chain of hops that split the packet, its fragments, and their fragments. */
  lemma HopsThenReassemble(
    p: bytes, hops: seq<Hop>, fs: seq<bytes>, states: seq<State>, events: seq<Event>, kes: seq<KeyEvent>)
    requires Intact(p) && Forward([p], hops) == Some(fs) && |fs| >= 2
    requires FreshRun(fs, KeyOf(ParseHeader(p).value), states, events, kes) && JustCompletes(kes, |fs|)
    ensures var k, n := KeyOf(ParseHeader(p).value), |events|;
      var before := DeliveredFor(states[0].delivered, k);
      && (forall j :: 0 <= j < n ==> DeliveredFor(states[j].delivered, k) == before)
      && DeliveredFor(states[n].delivered, k) == before + [p]
  {
    hide Step, IsCut, KeyOf, ParseHeader, PieceBytes, PieceHeader, JustCompletes, Looks, MarshalOf, ChecksumOf;
    hide DeliveredFor, Forward;
    if ParseHeader(p).value.PayloadOf(p) == [] {
      EmptyPayloadStays(p, hops);
    } else {
      SinglePieceTiles(p);
      var t := ChainTiles(SinglePiece(p), hops);
      SameDatagram(SinglePiece(p), t);
      forall j: nat | j <= |events|
        ensures DeliveredFor(states[j].delivered, KeyOf(t.h))
             == DeliveredFor(states[0].delivered, KeyOf(t.h)) + if j == |events| then [p] else []
      {
        TilingRun(t, states, events, kes, j);
      }
      OneMore(DeliveredFor(states[0].delivered, KeyOf(t.h)), p, p);
    }
  }

  lemma SameDatagram(t: Tiling, r: Tiling)
    requires t.Valid() && r.Valid() && r.h == t.h && r.payload == t.payload
    ensures r.Datagram() == t.Datagram() && (r.Whole() <==> t.Whole())
  {
  }
}

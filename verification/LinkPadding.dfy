/**
 Link padding on fragments. The dispatcher trims a packet to its total length, but the
 reassembly buffer takes all bytes after the header for payload (internal/ip/reassembly.go).
 */
module LinkPadding {
  import opened Bytes
  import opened IPHeader
  import opened Checksum
  import opened Fragmentation
  import opened Tiling
  import opened ReassemblyModel
  import opened KeyTraffic
  import opened RoundTrip
  import opened Progress
  import opened FragmentOptions

  // ---------------------------------------------------------------------------
  // The buffer never looks at the total length of a fragment
  // ---------------------------------------------------------------------------

  function Bare(h: Header): Header { h.(totalLen := 0, checksum := 0) }

  /** Two packets that differ at most in total length and checksum. */
  predicate Same(a: bytes, b: bytes) {
    a == b
    || (ParseHeader(a).Ok? && ParseHeader(b).Ok? && Bare(ParseHeader(a).value) == Bare(ParseHeader(b).value)
        && PayloadIn(a) == PayloadIn(b))
  }

  ghost predicate SameGroup(g: Group, u: Group) {
    && g.(fragments := map[]) == u.(fragments := map[]) && g.fragments.Keys == u.fragments.Keys
    && forall o :: o in g.fragments ==> Same(g.fragments[o], u.fragments[o])
  }

  ghost predicate SameState(s: State, u: State) {
    && s.(groups := map[]) == u.(groups := map[]) && s.groups.Keys == u.groups.Keys
    && forall k :: k in s.groups ==> SameGroup(s.groups[k], u.groups[k])
  }

  lemma {:induction false} SameWrites(
    buf: bytes, m: map<uint16, bytes>, m': map<uint16, bytes>, headerLen: nat, order: seq<uint16>)
    requires Fits(buf, headerLen, order)
    requires forall o :: o in order ==> o in m && o in m' && Same(m[o], m'[o])
    ensures WriteAll(buf, m, headerLen, order) == WriteAll(buf, m', headerLen, order)
    decreases |order|
  {
    hide Overwrite, ParseHeader;
    if order != [] {
      SameWrites(buf, m, m', headerLen, order[..|order| - 1]);
      assert Same(m[order[|order| - 1]], m'[order[|order| - 1]]);
    }
  }

  lemma SameWhole(a: Header, b: Header, n: nat)
    requires Bare(a) == Bare(b) && a.ihl >= 5
    ensures WholeHeader(a, n) == WholeHeader(b, n) && Blank(a, n) == Blank(b, n)
  {
    hide MarshalOf, ChecksumOf;
    var x := a.ClearMF().(fragOffset := 0, totalLen := Wrap16(a.HeaderLen() + n), checksum := 0);
    assert x == b.ClearMF().(fragOffset := 0, totalLen := Wrap16(b.HeaderLen() + n), checksum := 0);
  }

  lemma SameRebuild(g: Group, u: Group, r: Rebuild)
    requires g.totalLen > 0 && SameGroup(g, u) && Rebuilds(g, r)
    ensures Rebuilds(u, r)
  {
    hide ParseHeader, Blank, WriteAll;
    if 0 in g.fragments && ParseHeader(g.fragments[0]).Ok? {
      assert Same(g.fragments[0], u.fragments[0]);
      var h, h' := ParseHeader(g.fragments[0]).value, ParseHeader(u.fragments[0]).value;
      if h.ihl >= 5 && !Overruns(g) {
        var order :| RebuildsInOrder(g, h, order, r);
        SameWhole(h, h', g.totalLen);
        SameWrites(Blank(h, g.totalLen), g.fragments, u.fragments, h.HeaderLen(), order);
        assert RebuildsInOrder(u, h', order, r);
      }
    }
  }

  lemma SameStore(g: Group, u: Group, h: Header, raw: bytes, h': Header, raw': bytes)
    requires SameGroup(g, u) && Same(raw, raw') && ParseHeader(raw) == Ok(h) && ParseHeader(raw') == Ok(h')
    ensures SameGroup(Store(g, h, raw), Store(u, h', raw'))
  {
    hide ParseHeader;
    assert h.PayloadOf(raw) == h'.PayloadOf(raw') && h.fragOffset == h'.fragOffset && h.MF() == h'.MF();
  }

  lemma SameStored(s: State, u: State, h: Header, raw: bytes, h': Header, raw': bytes, now: int)
    requires SameState(s, u) && Same(raw, raw') && ParseHeader(raw) == Ok(h) && ParseHeader(raw') == Ok(h')
    ensures KeyOf(h) == KeyOf(h') && SameState(Stored(s, h, raw, now), Stored(u, h', raw', now))
  {
    hide SameGroup, Store, ParseHeader;
    SameKeys(h, raw, h', raw');
    hide KeyOf;
    var k := KeyOf(h);
    var g := if k in s.groups then s.groups[k] else NewGroup(now);
    var v := if k in u.groups then u.groups[k] else NewGroup(now);
    SameAtStart(now);
    SameStore(g, v, h, raw, h', raw');
    SameOffsets(g, v);
  }

  lemma SameKeys(h: Header, raw: bytes, h': Header, raw': bytes)
    requires Same(raw, raw') && ParseHeader(raw) == Ok(h) && ParseHeader(raw') == Ok(h')
    ensures KeyOf(h) == KeyOf(h') && h.fragOffset == h'.fragOffset && (IsFragment(h) <==> IsFragment(h'))
  {
    hide ParseHeader;
  }

  lemma SameAtStart(now: int)
    ensures SameGroup(NewGroup(now), NewGroup(now))
  {
  }

  lemma SameOffsets(g: Group, u: Group)
    requires SameGroup(g, u)
    ensures g.fragments.Keys == u.fragments.Keys && (Complete(g) <==> Complete(u))
  {
  }

  lemma SameFinished(s: State, u: State, k: FragmentKey, r: Rebuild)
    requires SameState(s, u)
    ensures SameState(Finished(s, k, r), Finished(u, k, r))
  {
    hide SameGroup;
  }

  /** Each call of Add on the one state and packet can be matched on the other. */
  lemma SameAdd(s: State, u: State, raw: bytes, raw': bytes, now: int, s': State, res: AddResult) returns (u': State)
    requires SameState(s, u) && AddStep(s, raw, now, s', res)
    requires raw == raw' || (Same(raw, raw') && ParseHeader(raw).Ok? && IsFragment(ParseHeader(raw).value))
    ensures AddStep(u, raw', now, u', res) && SameState(s', u')
  {
    hide ParseHeader, IsFragment, KeyOf, Complete, Rebuilds, Stored, Finished, SameGroup;
    match ParseHeader(raw)
    case Err(_) => u' := u;
    case Ok(h) =>
      var h' := ParseHeader(raw').value;
      SameKeys(h, raw, h', raw');
      if !IsFragment(h) {
        u' := u.(delivered := u.delivered + [Direct(raw)]);
      } else {
        SameStored(s, u, h, raw, h', raw', now);
        var g, v := StoredGroup(s, h, raw, now), StoredGroup(u, h', raw', now);
        SameOffsets(g, v);
        if !Complete(g) {
          u' := Stored(u, h', raw', now);
        } else {
          PositiveLength(g);
          PositiveLength(v);
          var r :| Rebuilds(g, r) && s' == Finished(Stored(s, h, raw, now), KeyOf(h), r)
                   && res == if r.Panicked? then Crashed else Added;
          SameRebuild(g, v, r);
          SameFinished(Stored(s, h, raw, now), Stored(u, h', raw', now), KeyOf(h), r);
          u' := Finished(Stored(u, h', raw', now), KeyOf(h), r);
        }
      }
  }

  lemma SameCleaned(s: State, u: State, now: int)
    requires SameState(s, u)
    ensures SameState(Cleaned(s, now), Cleaned(u, now))
  {
    hide Same;
    assert forall k :: k in s.groups ==> s.groups[k].createdAt == u.groups[k].createdAt;
    assert StaleKeys(s, now) == StaleKeys(u, now);
  }

  /** Two events that arrive at the same time, with fragments that differ at most in total length and checksum. */
  ghost predicate SameEvent(e: Event, e': Event) {
    e == e'
    || (e.Arrive? && e'.Arrive? && e.now == e'.now && Same(e.raw, e'.raw)
        && ParseHeader(e.raw).Ok? && IsFragment(ParseHeader(e.raw).value))
  }

  /** So a run on the one traffic is matched by one on the other. */
  lemma {:induction false} SameRun(states: seq<State>, events: seq<Event>, events': seq<Event>, u: State)
    returns (states': seq<State>)
    requires Run(states, events) && |events| == |events'| && SameState(states[0], u)
    requires forall j :: 0 <= j < |events| ==> SameEvent(events[j], events'[j])
    ensures Run(states', events') && states'[0] == u
    ensures forall j :: 0 <= j <= |events| ==> SameState(states[j], states'[j])
    decreases |events|
  {
    hide AddStep, Cleaned, SameState, Same, ParseHeader, IsFragment;
    if events == [] {
      states' := [u];
    } else {
      var n := |events| - 1;
      var before, e, e' := states[..n + 1], events[n], events'[n];
      forall j | 0 <= j < n ensures Step(before[j], events[..n][j], before[j + 1]) {
        assert Step(states[j], events[j], states[j + 1]);
      }
      var init := SameRun(before, events[..n], events'[..n], u);
      assert Step(states[n], e, states[n + 1]) && SameEvent(e, e');
      var next: State;
      match e {
        case Arrive(raw, now) =>
          var res :| AddStep(states[n], raw, now, states[n + 1], res) && !res.Crashed?;
          next := SameAdd(states[n], init[n], raw, e'.raw, now, states[n + 1], res);
        case Tick(now) =>
          SameCleaned(states[n], init[n], now);
          next := Cleaned(init[n], now);
      }
      assert Step(init[n], e', next);
      states' := init + [next];
      forall j | 0 <= j < |events'| ensures Step(states'[j], events'[j], states'[j + 1]) {
        if j < n {
          assert Step(init[j], events'[..n][j], init[j + 1]);
        }
      }
    }
  }

  // ---------------------------------------------------------------------------
  // Padding on the last fragment
  // ---------------------------------------------------------------------------

  ghost predicate CanPad(t: Tiling, pad: bytes) {
    t.Valid() && t.Whole() && t.Count() >= 2 && t.h.HeaderLen() + |t.payload| + |pad| <= 0xFFFF
  }

  /** The fragments, with padding after the last. */
  ghost function PaddedFrags(t: Tiling, pad: bytes): (fs: seq<bytes>)
    requires CanPad(t, pad)
    ensures |fs| == t.Count()
  {
    t.Frags()[t.Count() - 1 := t.Frag(t.Count() - 1) + pad]
  }

  /** The tiling that has the padding for payload. */
  ghost function PaddedTiling(t: Tiling, pad: bytes): Tiling
    requires CanPad(t, pad)
  {
    t.(payload := t.payload + pad, cuts := t.cuts[t.Count() := |t.payload| + |pad|])
  }

  lemma PaddedTilingValid(t: Tiling, pad: bytes)
    requires CanPad(t, pad)
    ensures var p := PaddedTiling(t, pad);
      p.Valid() && p.Whole() && p.Count() == t.Count() && IsCutUp(p)
  {
    var c := PaddedTiling(t, pad).cuts;
    t.Ends();
    assert forall i :: 0 <= i < |c| - 1 ==> c[i] == t.cuts[i];
  }

  /** Every padded fragment is a piece of that tiling, but for total length and checksum. */
  lemma PaddedIsSame(t: Tiling, pad: bytes, i: nat)
    requires CanPad(t, pad) && i < t.Count() && PaddedTiling(t, pad).Valid()
    ensures var f := PaddedFrags(t, pad)[i];
      && Same(f, PaddedTiling(t, pad).Frag(i))
      && ParseHeader(f) == Ok(t.Head(i)) && IsFragment(t.Head(i))
  {
    PaddedTilingValid(t, pad);
    PaddedPart(t, pad, i);
    PaddedFrag(t, pad, i);
    PadsWhole(t, pad);
    hide PieceBytes, PieceHeader, ParseHeader, IsCut, PaddedFrags, PaddedTiling, CanPad, IsFragment, IsCutUp;
    var p := PaddedTiling(t, pad);
    SameHeads(t, p, i);
    p.PieceParses(i);
    PieceKey(t, i);
    PaddedPayload(t, i, PadAt(t, pad, i));
  }

  /** What follows fragment `i`. */
  ghost function PadAt(t: Tiling, pad: bytes, i: nat): bytes {
    if i < t.Count() - 1 then [] else pad
  }

  lemma PaddedPart(t: Tiling, pad: bytes, i: nat)
    requires CanPad(t, pad) && i < t.Count()
    ensures var p := PaddedTiling(t, pad);
      && IsCutUp(t) && p.h == t.h && p.cuts[i] == t.cuts[i] < t.cuts[i + 1] <= |t.payload|
      && p.cuts[i] < p.cuts[i + 1] <= |p.payload|
      && p.payload[p.cuts[i]..p.cuts[i + 1]] == t.payload[t.cuts[i]..t.cuts[i + 1]] + PadAt(t, pad, i)
  {
    t.Ends();
    var part := t.payload[t.cuts[i]..t.cuts[i + 1]];
    if i < t.Count() - 1 {
      assert (t.payload + pad)[t.cuts[i]..t.cuts[i + 1]] == part;
    } else {
      assert (t.payload + pad)[t.cuts[i]..] == part + pad;
    }
  }

  lemma PaddedFrag(t: Tiling, pad: bytes, i: nat)
    requires CanPad(t, pad) && i < t.Count()
    ensures PaddedFrags(t, pad)[i] == t.Frag(i) + PadAt(t, pad, i)
  {
    hide PieceBytes, PieceHeader, IsCut;
  }

  lemma SameHeads(t: Tiling, p: Tiling, i: nat)
    requires t.Valid() && p.Valid() && i < t.Count() == p.Count() && p.h == t.h && p.cuts[i] == t.cuts[i]
    ensures Bare(p.Head(i)) == Bare(t.Head(i))
  {
    hide PieceHeader, IsCut;
    t.HeadFields(i);
    p.HeadFields(i);
  }

  lemma PaddedPayload(t: Tiling, i: nat, pad: bytes)
    requires t.Valid() && i < t.Count()
    ensures t.cuts[i] < t.cuts[i + 1] <= |t.payload|
    ensures ParseHeader(t.Frag(i) + pad) == Ok(t.Head(i))
    ensures t.Head(i).PayloadOf(t.Frag(i) + pad) == t.payload[t.cuts[i]..t.cuts[i + 1]] + pad
  {
    hide MarshalOf, PieceHeader, ParseHeader;
    t.HeadFields(i);
    var part := t.payload[t.cuts[i]..t.cuts[i + 1]];
    assert t.Frag(i) + pad == MarshalOf(t.Head(i)) + (part + pad);
    MarshalThenParse(t.Head(i), part + pad);
  }

  lemma DatagramPadded(t: Tiling, pad: bytes)
    requires CanPad(t, pad) && PaddedTiling(t, pad).Valid()
    ensures PaddedTiling(t, pad).Datagram() == t.Datagram() <==> pad == []
  {
    hide MarshalOf, ChecksumOf;
    if pad == [] {
      assert t.payload + pad == t.payload;
    }
  }

  /** The same traffic with the pieces of the padded tiling in place of the padded fragments. */
  ghost function Repacked(t: Tiling, pad: bytes, e: Event, ke: KeyEvent): Event
    requires CanPad(t, pad) && PaddedTiling(t, pad).Valid() && PaddedTiling(t, pad).Count() == t.Count()
  {
    if ke.Piece? && ke.i < t.Count() then Arrive(PaddedTiling(t, pad).Frag(ke.i), ke.now) else e
  }

  /**
   With the last fragment padded, nothing is delivered before the last missing fragment and
   then a datagram with the padding in its payload: the original exactly without padding.
   */
  lemma PaddedThenReassembled(
    t: Tiling, pad: bytes, states: seq<State>, events: seq<Event>, kes: seq<KeyEvent>)
    requires CanPad(t, pad)
    requires FreshRun(PaddedFrags(t, pad), KeyOf(t.h), states, events, kes) && JustCompletes(kes, t.Count())
    ensures PaddedTiling(t, pad).Valid()
    ensures var k, n, before := KeyOf(t.h), |events|, DeliveredFor(states[0].delivered, KeyOf(t.h));
      && (forall j :: 0 <= j < n ==> DeliveredFor(states[j].delivered, k) == before)
      && DeliveredFor(states[n].delivered, k) == before + [PaddedTiling(t, pad).Datagram()]
      && (DeliveredFor(states[n].delivered, k) == before + [t.Datagram()] <==> pad == [])
  {
    hide IsCut, IsCutUp, KeyOf, ParseHeader, PieceBytes, PieceHeader, JustCompletes, Step, IsFragment, Same;
    hide DeliveredFor, CanPad;
    PadsWhole(t, pad);
    PaddedTilingValid(t, pad);
    DatagramPadded(t, pad);
    var p := PaddedTiling(t, pad);
    var events' := seq(|events|, j requires 0 <= j < |events| => Repacked(t, pad, events[j], kes[j]));
    forall j | 0 <= j < |events|
      ensures SameEvent(events[j], events'[j]) && Looks(p.Frags(), KeyOf(t.h), events'[j], kes[j])
    {
      assert Looks(PaddedFrags(t, pad), KeyOf(t.h), events[j], kes[j]);
      if kes[j].Piece? {
        PaddedIsSame(t, pad, kes[j].i);
      }
    }
    StateIsSame(states[0]);
    var states' := SameRun(states, events, events', states[0]);
    forall j: nat | j <= |events|
      ensures DeliveredFor(states[j].delivered, KeyOf(t.h))
           == DeliveredFor(states[0].delivered, KeyOf(t.h)) + if j == |events| then [p.Datagram()] else []
    {
      TilingRun(p, states', events', kes, j);
      assert SameState(states[j], states'[j]);
    }
    OneMore(DeliveredFor(states[0].delivered, KeyOf(t.h)), t.Datagram(), p.Datagram());
  }

  lemma PadsWhole(t: Tiling, pad: bytes)
    requires CanPad(t, pad)
    ensures t.Valid() && t.Whole() && t.Count() >= 2
  {
  }

  lemma StateIsSame(s: State)
    ensures SameState(s, s)
  {
  }

  /** Such a run exists, whatever the buffer holds under other keys. */
  lemma PaddingHappens(t: Tiling, pad: bytes, s: State) returns (states: seq<State>)
    requires CanPad(t, pad) && KeyOf(t.h) !in s.groups
    ensures Run(states, InOrder(PaddedFrags(t, pad), t.Count()).0) && states[0] == s
    ensures PaddedTiling(t, pad).Valid()
    ensures DeliveredFor(states[t.Count()].delivered, KeyOf(t.h))
         == DeliveredFor(s.delivered, KeyOf(t.h)) + [PaddedTiling(t, pad).Datagram()]
  {
    hide IsCut, IsCutUp, KeyOf, ParseHeader, PieceBytes, PieceHeader, JustCompletes, Step, IsFragment;
    hide DeliveredFor, CanPad, Holds;
    PadsWhole(t, pad);
    PaddedTilingValid(t, pad);
    var p, n := PaddedTiling(t, pad), t.Count();
    var (events, kes) := InOrder(PaddedFrags(t, pad), n);
    var (events', kes') := InOrder(p.Frags(), n);
    assert kes == kes';
    AllCompletes(PaddedFrags(t, pad));
    AllCompletes(p.Frags());
    var states' := PiecesRun(p, Collector(None, DeliveredFor(s.delivered, KeyOf(t.h))), s, events', kes);
    forall j | 0 <= j < n ensures SameEvent(events'[j], events[j]) {
      PaddedIsSame(t, pad, j);
      p.PieceParses(j);
      PieceKey(p, j);
    }
    StateIsSame(s);
    states := SameRun(states', events', events, s);
    PaddedThenReassembled(t, pad, states, events, kes);
  }

  /** Two fragments of 40 bytes, the second with two bytes of padding, are delivered as a packet of 42 bytes. */
  lemma PaddedSample(s: State) returns (states: seq<State>, packet: bytes)
    requires KeyOf(SampleHeader()) !in s.groups
    ensures IsSplit(SamplePacket(), 32) && |FragmentOf(SamplePacket(), 32).fragments| == 2
    ensures var fs := FragmentOf(SamplePacket(), 32).fragments;
      Run(states, [Arrive(fs[0], 0), Arrive(fs[1] + [0, 0], 0)]) && states[0] == s
    ensures DeliveredFor(states[2].delivered, KeyOf(SampleHeader()))
         == DeliveredFor(s.delivered, KeyOf(SampleHeader())) + [packet]
    ensures |packet| == |SamplePacket()| + 2
  {
    hide ParseHeader, MarshalOf, Split, Step, DeliveredFor;
    RecordRouteIsCopied();
    FragmentIsTiling(SamplePacket(), 32);
    var t := TilingOf(SamplePacket(), 32);
    MarshalThenParse(SampleHeader(), Zeros(16));
    assert t.cuts == [0, 8, 16];
    states := PaddingHappens(t, [0, 0], s);
    packet := PaddedTiling(t, [0, 0]).Datagram();
    assert InOrder(PaddedFrags(t, [0, 0]), 2).0 == [Arrive(t.Frag(0), 0), Arrive(t.Frag(1) + [0, 0], 0)];
  }

  // ---------------------------------------------------------------------------
  // Padding on another fragment
  // ---------------------------------------------------------------------------

  /**
   With another fragment padded, the count is too high by the padding. The group then counts as
   complete exactly when as many bytes are missing, and never once every fragment is there.
   */
  lemma PaddedInside(t: Tiling, have: set<nat>, since: int, g: Group, i: nat, pad: bytes)
    requires t.Valid() && t.Whole() && Holds(t, have, since, g) && i < t.Count() - 1 && i !in have
    ensures var stored := Store(g, t.Head(i), t.Frag(i) + pad);
      var bytesIn := BytesIn(t.cuts, have + {i}, t.Count());
      && stored.received == bytesIn + |pad|
      && (Complete(stored) <==> t.Count() - 1 in have && |t.payload| - bytesIn == |pad|)
      && (HasAll(t, have + {i}) && pad != [] ==> !Complete(stored))
  {
    hide PieceBytes, PieceHeader, IsCut, BytesIn;
    t.Ends();
    t.HeadFields(i);
    t.PieceParses(i);
    var part := t.payload[t.cuts[i]..t.cuts[i + 1]];
    PaddedPayload(t, i, pad);
    assert forall j :: j in have ==> j != i;
    forall j | j in have ensures OffsetOf(t, j) != OffsetOf(t, i) {
      OffsetsDiffer(t, i, j);
    }
    assert t.Head(i).fragOffset as int == OffsetOf(t, i);
    BytesInAdd(t.cuts, have, i, t.Count());
    AllBytes(t, have + {i});
  }

  lemma AllBytes(t: Tiling, have: set<nat>)
    requires t.Valid()
    ensures HasAll(t, have) ==> BytesIn(t.cuts, have, t.Count()) == |t.payload|
  {
    t.Ends();
    BytesInAll(t.cuts, |t.payload|, have, t.Count());
  }
}

/** The relations of the reassembly model always have an outcome, so its runs exist. */
module Progress {
  import opened Bytes
  import opened IPHeader
  import opened Fragmentation
  import opened Tiling
  import opened ReassemblyModel
  import opened KeyTraffic
  import opened RoundTrip

  /** A finite map can be visited. */
  lemma {:induction false} OrderExists(keys: set<uint16>) returns (order: seq<uint16>)
    ensures Enumerates(order, keys)
    decreases |keys|
  {
    if keys == {} {
      order := [];
    } else {
      var o :| o in keys;
      var init := OrderExists(keys - {o});
      EnumeratesSnoc(init, keys - {o}, o);
      assert keys - {o} + {o} == keys;
      order := init + [o];
    }
  }

  /** Every complete group has an outcome. */
  lemma RebuildExists(g: Group) returns (r: Rebuild)
    requires g.totalLen > 0
    ensures Rebuilds(g, r)
  {
    hide WriteAll, Blank;
    if 0 !in g.fragments || ParseHeader(g.fragments[0]).Err? {
      r := Failed;
    } else {
      var h := ParseHeader(g.fragments[0]).value;
      if h.ihl < 5 || Overruns(g) {
        r := Panicked;
      } else {
        var order := OrderExists(g.fragments.Keys);
        assert forall i :: 0 <= i < |order| ==> order[i] in g.fragments;
        r := Built(WriteAll(Blank(h, g.totalLen), g.fragments, h.HeaderLen(), order));
        assert RebuildsInOrder(g, h, order, r);
      }
    }
  }

  lemma AddExists(s: State, raw: bytes, now: int) returns (s': State, res: AddResult)
    ensures AddStep(s, raw, now, s', res)
  {
    hide ParseHeader, IsFragment, Stored, Rebuilds, Finished, Complete;
    match ParseHeader(raw)
    case Err(e) =>
      s', res := s, Rejected(e);
    case Ok(h) =>
      if !IsFragment(h) {
        s', res := s.(delivered := s.delivered + [Direct(raw)]), Added;
      } else if !Complete(StoredGroup(s, h, raw, now)) {
        s', res := Stored(s, h, raw, now), Added;
      } else {
        PositiveLength(StoredGroup(s, h, raw, now));
        var r := RebuildExists(StoredGroup(s, h, raw, now));
        s' := Finished(Stored(s, h, raw, now), KeyOf(h), r);
        res := if r.Panicked? then Crashed else Added;
      }
  }

  /** Pieces of one tiling, in any order and with any repeats and sweeps, never crash the buffer. */
  lemma {:induction false} PiecesRun(t: Tiling, c: Collector, s: State, events: seq<Event>, kes: seq<KeyEvent>)
    returns (states: seq<State>)
    requires t.Valid() && IsCutUp(t) && Agrees(t, c, s)
    requires AllLook(t.Frags(), KeyOf(t.h), events, kes) && Foreign !in kes
    ensures Run(states, events) && states[0] == s
    decreases |events|
  {
    hide Looks, Agrees, IsCut, IsCutUp, KeyOf, Collect, Holds, AddStep;
    if events == [] {
      states := [s];
    } else {
      var n := |events| - 1;
      var init := PiecesRun(t, c, s, events[..n], kes[..n]);
      RunRefinesCollector(t, c, init, events[..n], kes[..n], n);
      var next := PieceSteps(t, CollectAll(t, c, kes[..n][..n]), init[n], events[n], kes[n]);
      states := init + [next];
      forall j | 0 <= j < |events| ensures Step(states[j], events[j], states[j + 1]) {
        assert j < n ==> events[..n][j] == events[j];
      }
    }
  }

  lemma PieceSteps(t: Tiling, c: Collector, s: State, e: Event, ke: KeyEvent) returns (s': State)
    requires t.Valid() && IsCutUp(t) && Agrees(t, c, s)
    requires Looks(t.Frags(), KeyOf(t.h), e, ke) && ke != Foreign
    ensures Step(s, e, s')
  {
    hide Agrees, IsCut, IsCutUp, KeyOf, AddStep, Cleaned, PieceBytes, PieceHeader;
    match ke
    case Piece(i, now) =>
      var s1, res := AddExists(s, e.raw, now);
      PieceAgrees(t, c, s, i, now, s1, res);
      s' := s1;
    case Sweep(now) =>
      s' := Cleaned(s, now);
  }

  /** The events that bring piece 0, 1, ... in this order. */
  ghost function InOrder(fs: seq<bytes>, n: nat): (seq<Event>, seq<KeyEvent>)
    requires n <= |fs|
  {
    (seq(n, i requires 0 <= i < n => Arrive(fs[i], 0)), seq(n, i requires 0 <= i < n => Piece(i, 0)))
  }

  /** So the round trip can happen: from any buffer without the key, an intact packet comes out. */
  lemma RoundTripHappens(p: bytes, mtu: int, s: State) returns (states: seq<State>)
    requires IsSplit(p, mtu) && Intact(p) && KeyOf(ParseHeader(p).value) !in s.groups
    ensures states != [] && states[0] == s
    ensures Run(states, InOrder(FragmentOf(p, mtu).fragments, |FragmentOf(p, mtu).fragments|).0)
    ensures var k := KeyOf(ParseHeader(p).value);
      DeliveredFor(states[|states| - 1].delivered, k) == DeliveredFor(s.delivered, k) + [p]
  {
    hide ParseHeader, PieceBytes, PieceHeader, FragmentOf, IsSplit, Intact, KeyOf, DeliveredFor, SplitCuts, Holds;
    FragmentIsTiling(p, mtu);
    var t := TilingOf(p, mtu);
    var fs := t.Frags();
    var (events, kes) := InOrder(fs, |fs|);
    AllCompletes(fs);
    states := PiecesRun(t, Collector(None, DeliveredFor(s.delivered, KeyOf(t.h))), s, events, kes);
    FragmentThenReassemble(p, mtu, states, events, kes);
  }

  lemma AllCompletes(fs: seq<bytes>)
    requires |fs| >= 1
    ensures JustCompletes(InOrder(fs, |fs|).1, |fs|)
    ensures forall k :: AllLook(fs, k, InOrder(fs, |fs|).0, InOrder(fs, |fs|).1)
    ensures Foreign !in InOrder(fs, |fs|).1
  {
    var n, kes := |fs|, InOrder(fs, |fs|).1;
    forall j: nat | j < n ensures j in Seen(kes) {
      assert kes[j] == Piece(j, 0);
    }
    assert n - 1 !in Seen(kes[..n - 1]);
  }
}

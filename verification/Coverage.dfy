/**
 What the byte counter says about an arbitrary group. `received == totalLen` means that
 every byte has arrived exactly when no two stored pieces overlap and none runs past the end.
 */
module Coverage {
  import opened Bytes
  import opened IPHeader
  import opened Fragmentation
  import opened Tiling
  import opened ReassemblyModel
  import opened KeyTraffic
  import opened Accounting
  import opened Progress

  ghost function Range(lo: int, n: nat): (r: set<int>)
    ensures forall x :: x in r <==> lo <= x < lo + n
    ensures |r| == n
  {
    if n == 0 then {} else Range(lo, n - 1) + {lo + n - 1}
  }

  /** The payload positions that the piece at offset `o` covers. */
  ghost function Extent(o: uint16, raw: bytes): set<int> {
    Range(o as int * 8, |PayloadIn(raw)|)
  }

  ghost function Covered(m: map<uint16, bytes>): set<int> {
    set o, x | o in m && x in Extent(o, m[o]) :: x
  }

  ghost predicate NoOverlap(m: map<uint16, bytes>) {
    forall o, p :: o in m && p in m && o != p ==> Extent(o, m[o]) !! Extent(p, m[p])
  }

  lemma UnionSize(a: set<int>, b: set<int>)
    ensures |a + b| <= |a| + |b|
    ensures |a + b| == |a| + |b| <==> a !! b
  {
    assert |a + b| == |a| + |b| - |a * b|;
    if a * b == {} {
      forall x | x in a ensures x !in b {
        assert x !in a * b;
      }
    }
  }

  lemma SubsetSize(a: set<int>, b: set<int>)
    requires a <= b
    ensures |a| <= |b|
    ensures |a| == |b| ==> a == b
  {
    assert b == a + (b - a);
    UnionSize(a, b - a);
  }

  /** The sum of the lengths bounds what is covered, and meets it only without overlap. */
  lemma {:induction false} CoveredSize(m: map<uint16, bytes>)
    ensures |Covered(m)| <= StoredBytes(m)
    ensures |Covered(m)| == StoredBytes(m) <==> NoOverlap(m)
    decreases |m|
  {
    hide PayloadIn;
    if m == map[] {
      assert Covered(m) == {};
    } else {
      var o :| o in m;
      var rest := m - {o};
      StoredBytesMinus(m, o);
      CoveredSize(rest);
      hide StoredBytes;
      var e := Extent(o, m[o]);
      SplitOff(m, o);
      UnionSize(e, Covered(rest));
    }
  }

  lemma SplitOff(m: map<uint16, bytes>, o: uint16)
    requires o in m
    ensures Covered(m) == Extent(o, m[o]) + Covered(m - {o})
    ensures NoOverlap(m) <==> NoOverlap(m - {o}) && Extent(o, m[o]) !! Covered(m - {o})
  {
    hide Extent;
    var rest := m - {o};
    assert forall p :: p in rest <==> p in m && p != o;
    forall x | x in Covered(m) ensures x in Extent(o, m[o]) + Covered(rest) {
      var p :| p in m && x in Extent(p, m[p]);
      assert p != o ==> p in rest && x in Extent(p, rest[p]);
    }
    forall p, x | p in m && x in Extent(p, m[p]) ensures x in Covered(m) {
    }
    forall x | x in Covered(rest) ensures x in Covered(m) {
      var p :| p in rest && x in Extent(p, rest[p]);
      assert p in m && x in Extent(p, m[p]);
    }
    SplitOverlap(m, o);
  }

  lemma SplitOverlap(m: map<uint16, bytes>, o: uint16)
    requires o in m
    ensures NoOverlap(m) <==> NoOverlap(m - {o}) && Extent(o, m[o]) !! Covered(m - {o})
  {
    hide Extent;
    var rest := m - {o};
    if NoOverlap(m) {
      forall x | x in Covered(rest) ensures x !in Extent(o, m[o]) {
        var p :| p in rest && x in Extent(p, rest[p]);
        assert Extent(o, m[o]) !! Extent(p, m[p]);
      }
      forall p, q | p in rest && q in rest && p != q ensures Extent(p, rest[p]) !! Extent(q, rest[q]) {
        assert Extent(p, m[p]) !! Extent(q, m[q]);
      }
    }
    if NoOverlap(rest) && Extent(o, m[o]) !! Covered(rest) {
      forall p, q | p in m && q in m && p != q ensures Extent(p, m[p]) !! Extent(q, m[q]) {
        if p != o && q != o {
          assert Extent(p, rest[p]) !! Extent(q, rest[q]);
        } else {
          var r := if p == o then q else p;
          assert forall x :: x in Extent(r, rest[r]) ==> x in Covered(rest);
        }
      }
    }
  }

  /** Every byte of the payload has arrived. */
  ghost predicate AllArrived(g: Group) {
    forall x :: 0 <= x < g.totalLen ==> x in Covered(g.fragments)
  }

  /** What a sender that cuts one payload guarantees. */
  ghost predicate Disjoint(g: Group) {
    NoOverlap(g.fragments) && forall x :: x in Covered(g.fragments) ==> 0 <= x < g.totalLen
  }

  /** Of counter, coverage and disjointness, any two imply the third. */
  lemma CounterIsGenuineIff(g: Group)
    requires g.received == StoredBytes(g.fragments) && g.totalLen > 0
    ensures Complete(g) ==> (AllArrived(g) <==> Disjoint(g))
    ensures Disjoint(g) ==> (Complete(g) <==> AllArrived(g))
    ensures AllArrived(g) ==> (Complete(g) <==> Disjoint(g))
  {
    hide StoredBytes, NoOverlap, Covered;
    var c, all := Covered(g.fragments), Range(0, g.totalLen);
    CoveredSize(g.fragments);
    if AllArrived(g) {
      assert all <= c;
      SubsetSize(all, c);
    }
    if forall x :: x in c ==> 0 <= x < g.totalLen {
      assert c <= all;
      SubsetSize(c, all);
    }
  }

  // ---------------------------------------------------------------------------
  // Overlapping fragments: a complete count with a hole
  // ---------------------------------------------------------------------------

  /** A 40-byte payload of ones, of which bytes 0..16, 8..24 and 32..40 arrive: 40 bytes counted, 32 covered. */
  function SampleHeader(): Header {
    Header(4, 5, 0, 60, 7, 0, 0, 64, 1, 0, [10, 0, 0, 1], [10, 0, 0, 2], [])
  }

  function Ones(): bytes { seq(40, _ => 1) }

  function SamplePiece(lo: nat, hi: nat): bytes
    requires lo <= hi <= 40
  {
    PieceBytes(SampleHeader(), Ones(), lo, hi, hi == 40)
  }

  function SampleTraffic(): seq<Event> {
    [Arrive(SamplePiece(0, 16), 0), Arrive(SamplePiece(8, 24), 0), Arrive(SamplePiece(32, 40), 0)]
  }

  lemma SampleParses(lo: nat, hi: nat)
    requires lo < hi <= 40 && lo % 8 == 0
    ensures ParseHeader(SamplePiece(lo, hi)).Ok?
    ensures var h := ParseHeader(SamplePiece(lo, hi)).value;
      && h.OnWire() && h.HeaderLen() == 20 && KeyOf(h) == KeyOf(SampleHeader())
      && h.fragOffset as int * 8 == lo && (h.MF() <==> hi != 40)
      && h.PayloadOf(SamplePiece(lo, hi)) == Ones()[lo..hi]
  {
    hide MarshalOf, ParseHeader;
    DraftFields(SampleHeader(), lo, hi, hi == 40);
    MarshalThenParse(PieceHeader(SampleHeader(), lo, hi, hi == 40), Ones()[lo..hi]);
  }

  /** A position that no visited fragment covers keeps its zero. */
  lemma {:induction false} Untouched(buf: bytes, m: map<uint16, bytes>, headerLen: nat, order: seq<uint16>, x: nat)
    requires Fits(buf, headerLen, order) && (forall o :: o in order ==> o in m)
    requires headerLen + x < |buf| && x !in Covered(m)
    ensures WriteAll(buf, m, headerLen, order)[headerLen + x] == buf[headerLen + x]
    decreases |order|
  {
    if order != [] {
      var o := order[|order| - 1];
      Untouched(buf, m, headerLen, order[..|order| - 1], x);
      assert x !in Extent(o, m[o]);
    }
  }

  /** The group after the three arrivals. */
  ghost function SampleGroup(): Group {
    Group(map[0 := SamplePiece(0, 16), 1 := SamplePiece(8, 24), 4 := SamplePiece(32, 40)], 40, 40, 0)
  }

  /** What the arrival of a fragment does to its group and to the deliveries. */
  lemma FragmentArrives(s: State, raw: bytes, h: Header, now: int, s': State, res: AddResult)
    requires ParseHeader(raw) == Ok(h) && IsFragment(h) && AddStep(s, raw, now, s', res)
    ensures var k := KeyOf(h);
      var g := Store(if k in s.groups then s.groups[k] else NewGroup(now), h, raw);
      if !Complete(g) then s'.groups == s.groups[k := g] && s'.delivered == s.delivered && res == Added
      else exists r :: Rebuilds(g, r) && (res.Crashed? <==> r.Panicked?) && s'.delivered
             == s.delivered + if r.Built? then [Rebuilt(k, r.packet)] else []
  {
    hide ParseHeader, KeyOf, Rebuilds, Store;
  }

  lemma SampleRebuild(r: Rebuild)
    requires Rebuilds(SampleGroup(), r)
    ensures r.Built? && |r.packet| == 60 && r.packet[44] == 0
  {
    hide SamplePiece, WriteAll, Covered, ParseHeader, MarshalOf, KeyOf;
    var g := SampleGroup();
    SampleParses(0, 16);
    SampleHole();
    var h := ParseHeader(g.fragments[0]).value;
    assert !Overruns(g);
    var order :| RebuildsInOrder(g, h, order, r);
    Untouched(Blank(h, 40), g.fragments, 20, order, 24);
  }

  lemma SampleHole()
    ensures 24 !in Covered(SampleGroup().fragments)
  {
    hide SamplePiece, ParseHeader, KeyOf;
    SampleParses(0, 16);
    SampleParses(8, 24);
    SampleParses(32, 40);
  }

  /** From fragments that carry only ones, the buffer delivers a packet with a zero in the hole. */
  lemma OverlapDeliversHole(s: State) returns (states: seq<State>, packet: bytes)
    requires s.groups == map[]
    ensures Run(states, SampleTraffic()) && states[0] == s
    ensures states[3].delivered == s.delivered + [Rebuilt(KeyOf(SampleHeader()), packet)]
    ensures |packet| == 60 && packet[44] == 0
  {
    hide SamplePiece, ParseHeader, KeyOf, Rebuilds, AddStep, Store;
    var (f0, f1, f2) := (SamplePiece(0, 16), SamplePiece(8, 24), SamplePiece(32, 40));
    var s1, res1 := AddExists(s, f0, 0);
    var s2, res2 := AddExists(s1, f1, 0);
    var s3, res3 := AddExists(s2, f2, 0);
    SampleStores();
    var (h0, h1, h2) := (ParseHeader(f0).value, ParseHeader(f1).value, ParseHeader(f2).value);
    FragmentArrives(s, f0, h0, 0, s1, res1);
    FragmentArrives(s1, f1, h1, 0, s2, res2);
    FragmentArrives(s2, f2, h2, 0, s3, res3);
    var r :| Rebuilds(SampleGroup(), r) && (res3.Crashed? <==> r.Panicked?)
             && s3.delivered == s2.delivered + if r.Built? then [Rebuilt(KeyOf(h2), r.packet)] else [];
    SampleRebuild(r);
    states, packet := [s, s1, s2, s3], r.packet;
  }

  /** The group as the three fragments arrive, complete only with the third. */
  lemma SampleStores()
    ensures forall f :: f in {SamplePiece(0, 16), SamplePiece(8, 24), SamplePiece(32, 40)} ==>
      ParseHeader(f).Ok? && IsFragment(ParseHeader(f).value)
      && KeyOf(ParseHeader(f).value) == KeyOf(SampleHeader())
    ensures var g1 := Store(NewGroup(0), ParseHeader(SamplePiece(0, 16)).value, SamplePiece(0, 16));
      var g2 := Store(g1, ParseHeader(SamplePiece(8, 24)).value, SamplePiece(8, 24));
      var g3 := Store(g2, ParseHeader(SamplePiece(32, 40)).value, SamplePiece(32, 40));
      !Complete(g1) && !Complete(g2) && Complete(g3) && g3 == SampleGroup()
  {
    hide SamplePiece, ParseHeader, KeyOf;
    SampleParses(0, 16);
    SampleParses(8, 24);
    SampleParses(32, 40);
    var g1 := Store(NewGroup(0), ParseHeader(SamplePiece(0, 16)).value, SamplePiece(0, 16));
    var g2 := Store(g1, ParseHeader(SamplePiece(8, 24)).value, SamplePiece(8, 24));
    var g3 := Store(g2, ParseHeader(SamplePiece(32, 40)).value, SamplePiece(32, 40));
    assert g3.fragments == SampleGroup().fragments;
  }
}

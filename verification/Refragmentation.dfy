/** What comes out of `Fragment`, and of any chain of hops that fragment fragments again. */
module Refragmentation {
  import opened Bytes
  import opened IPHeader
  import opened Checksum
  import opened Fragmentation
  import opened Tiling

  // ---------------------------------------------------------------------------
  // One call of Fragment
  // ---------------------------------------------------------------------------

  /** The payloads of a list of packets, end to end. */
  function Joined(fs: seq<bytes>): bytes {
    if fs == [] then [] else Joined(fs[..|fs| - 1]) + PayloadIn(fs[|fs| - 1])
  }

  lemma JoinedSnoc(fs: seq<bytes>, f: bytes)
    ensures Joined(fs + [f]) == Joined(fs) + PayloadIn(f)
  {
    assert (fs + [f])[..|fs|] == fs;
  }

  lemma {:induction false} JoinedPrefix(t: Tiling, i: nat)
    requires t.Valid() && i <= t.Count()
    ensures t.cuts[i] <= |t.payload| && Joined(t.Frags()[..i]) == t.payload[..t.cuts[i]]
  {
    hide ParseHeader, PieceBytes, PieceHeader, Joined, IsCut;
    t.Ends();
    if i == 0 {
      JoinedNothing();
    } else {
      JoinedPrefix(t, i - 1);
      t.PieceParses(i - 1);
      JoinedSnoc(t.Frags()[..i - 1], t.Frag(i - 1));
      assert t.Frags()[..i] == t.Frags()[..i - 1] + [t.Frag(i - 1)];
      assert t.payload[..t.cuts[i]] == t.payload[..t.cuts[i - 1]] + t.payload[t.cuts[i - 1]..t.cuts[i]];
    }
  }

  lemma JoinedNothing()
    ensures Joined([]) == []
  {
  }

  /** `f`, the `i`-th of `fs`, is a proper fragment of the packet with header `h`. */
  ghost predicate IsProperFragment(h: Header, mtu: int, fs: seq<bytes>, i: nat)
    requires i < |fs| && h.OnWire()
  {
    var f := fs[i];
    && |f| <= mtu && (i < |fs| - 1 ==> |f| > mtu - 8)
    && ParseHeader(f).Ok?
    && var fh := ParseHeader(f).value;
       && fh == h.(fragOffset := fh.fragOffset, totalLen := fh.totalLen, flags := fh.flags, checksum := fh.checksum)
       && fh.totalLen as int == |f|
       && fh.HeaderLen() < |f|
       && Verifies(f[..fh.HeaderLen()])
       && fh.fragOffset as int * 8 == h.fragOffset as int * 8 + |Joined(fs[..i])|
       && fh.flags / 2 == h.flags / 2
       && (fh.MF() <==> h.MF() || i < |fs| - 1)
       && (i < |fs| - 1 ==> |fh.PayloadOf(f)| % 8 == 0)
  }

  lemma FragmentOutput(packet: bytes, mtu: int)
    requires IsSplit(packet, mtu)
    ensures var h, fs := ParseHeader(packet).value, FragmentOf(packet, mtu).fragments;
      && |fs| >= 2
      && Joined(fs) == h.PayloadOf(packet)
      && forall i :: 0 <= i < |fs| ==> IsProperFragment(h, mtu, fs, i)
  {
    hide ParseHeader, PieceBytes, PieceHeader, FragmentOf, IsProperFragment, Joined;
    FragmentIsTiling(packet, mtu);
    var t := TilingOf(packet, mtu);
    var fs := t.Frags();
    JoinedPrefix(t, |fs|);
    assert fs[..|fs|] == fs;
    forall i: nat | i < |fs| ensures IsProperFragment(t.h, mtu, fs, i) {
      PieceIsProper(t, mtu, i);
    }
  }

  lemma PieceIsProper(t: Tiling, mtu: int, i: nat)
    requires t.Valid() && i < t.Count() && |t.Frag(i)| <= mtu && (i < t.Count() - 1 ==> |t.Frag(i)| > mtu - 8)
    ensures IsProperFragment(t.h, mtu, t.Frags(), i)
  {
    hide ParseHeader, PieceBytes, PieceHeader, Verifies, Joined, IsCut;
    t.HeadFields(i);
    t.PieceParses(i);
    t.PieceSealed(i);
    JoinedPrefix(t, i);
    WholeBlocks(t, i);
  }

  lemma WholeBlocks(t: Tiling, i: nat)
    requires t.Valid() && i < t.Count()
    ensures i < t.Count() - 1 ==> t.cuts[i] < t.cuts[i + 1] && (t.cuts[i + 1] - t.cuts[i]) % 8 == 0
  {
    assert t.cuts[i] < t.cuts[i + 1] && t.cuts[i] % 8 == 0;
  }

  // ---------------------------------------------------------------------------
  // Fragmenting a fragment
  // ---------------------------------------------------------------------------

  /** Cutting piece `lo..hi` at `a..b` is cutting the original at `lo + a..lo + b`. */
  lemma PieceOfPiece(h: Header, payload: bytes, lo: nat, hi: nat, last: bool, a: nat, b: nat, last': bool)
    requires h.OnWire() && lo + a < lo + b <= hi <= |payload| && lo % 8 == 0 && a % 8 == 0
    requires h.fragOffset as int * 8 + hi <= 0xFFFF && h.HeaderLen() + hi <= 0xFFFF
    ensures PieceBytes(PieceHeader(h, lo, hi, last), payload[lo..hi], a, b, last')
         == PieceBytes(h, payload, lo + a, lo + b, last && last')
  {
    hide MarshalOf, PieceHeader;
    SliceOfSlice(payload, lo, hi, a, b);
    DraftOfPiece(h, lo, hi, last, a, b, last');
  }

  lemma DraftOfPiece(h: Header, lo: nat, hi: nat, last: bool, a: nat, b: nat, last': bool)
    requires h.OnWire() && lo + a < lo + b <= hi && lo % 8 == 0 && a % 8 == 0
    requires h.fragOffset as int * 8 + hi <= 0xFFFF && h.HeaderLen() + hi <= 0xFFFF
    ensures PieceHeader(PieceHeader(h, lo, hi, last), a, b, last')
         == PieceHeader(h, lo + a, lo + b, last && last')
  {
    hide MarshalOf, ChecksumOf;
    var h' := PieceHeader(h, lo, hi, last);
    DraftFields(h, lo, hi, last);
    DraftFields(h', a, b, last');
    DraftFields(h, lo + a, lo + b, last && last');
    assert PieceDraft(h', a, b, last').(checksum := 0)
        == PieceDraft(h, lo + a, lo + b, last && last').(checksum := 0);
  }

  function RefinedCut(cuts: seq<nat>, i: nat, inner: seq<nat>, k: nat): nat
    requires i + 1 < |cuts| && |inner| >= 2 && k < |cuts| + |inner| - 2
  {
    if k < i then cuts[k]
    else if k < i + |inner| then cuts[i] + inner[k - i]
    else cuts[k - |inner| + 2]
  }

  /** The cut points of piece `i` replaced by those of its own fragmentation. */
  function RefineCuts(cuts: seq<nat>, i: nat, inner: seq<nat>): seq<nat>
    requires i + 1 < |cuts| && |inner| >= 2
  {
    seq(|cuts| + |inner| - 2, k requires 0 <= k < |cuts| + |inner| - 2 => RefinedCut(cuts, i, inner, k))
  }

  lemma RefinedIsCut(cuts: seq<nat>, n: nat, i: nat, inner: seq<nat>)
    requires IsCut(cuts, n) && i + 1 < |cuts| && IsCut(inner, cuts[i + 1] - cuts[i])
    ensures IsCut(RefineCuts(cuts, i, inner), n)
  {
    var c := RefineCuts(cuts, i, inner);
    forall k | 0 <= k < |c| - 1 ensures c[k] < c[k + 1] && c[k] % 8 == 0 {
      assert c[k] == RefinedCut(cuts, i, inner, k) && c[k + 1] == RefinedCut(cuts, i, inner, k + 1);
    }
    CutFromSteps(c, n);
  }

  function Replace(fs: seq<bytes>, i: nat, ps: seq<bytes>): seq<bytes>
    requires i < |fs|
  {
    fs[..i] + ps + fs[i + 1..]
  }

  ghost function Refine(t: Tiling, i: nat, s: Tiling): Tiling
    requires t.Valid() && i < t.Count() && s.Valid()
  {
    t.(cuts := RefineCuts(t.cuts, i, s.cuts))
  }

  /** Piece `k` of the refined tiling. */
  lemma RefinedFrag(t: Tiling, i: nat, s: Tiling, k: nat)
    requires t.Valid() && i < t.Count() && s.Valid() && Refine(t, i, s).Valid()
    requires s.h == t.Head(i) && t.cuts[i] < t.cuts[i + 1] <= |t.payload|
    requires s.payload == t.payload[t.cuts[i]..t.cuts[i + 1]]
    requires k < t.Count() + s.Count() - 1
    ensures Refine(t, i, s).Frag(k)
         == if k < i then t.Frag(k) else if k < i + s.Count() then s.Frag(k - i) else t.Frag(k - s.Count() + 1)
  {
    hide PieceBytes, PieceHeader, IsCut;
    s.Ends();
    var r := Refine(t, i, s);
    assert r.cuts[k] == RefinedCut(t.cuts, i, s.cuts, k);
    assert r.cuts[k + 1] == RefinedCut(t.cuts, i, s.cuts, k + 1);
    if i <= k < i + s.Count() {
      s.HeadFields(k - i);
      t.HeadFields(i);
      PieceOfPiece(t.h, t.payload, t.cuts[i], t.cuts[i + 1], i == t.Count() - 1,
                   s.cuts[k - i], s.cuts[k - i + 1], k - i == s.Count() - 1);
    }
  }

  lemma RefinedFrags(t: Tiling, i: nat, s: Tiling)
    requires t.Valid() && i < t.Count() && s.Valid() && Refine(t, i, s).Valid()
    requires s.h == t.Head(i) && t.cuts[i] < t.cuts[i + 1] <= |t.payload|
    requires s.payload == t.payload[t.cuts[i]..t.cuts[i + 1]]
    ensures Refine(t, i, s).Frags() == Replace(t.Frags(), i, s.Frags())
  {
    hide PieceBytes, PieceHeader, RefineCuts;
    RefineCount(t, i, s);
    var r := Refine(t, i, s);
    forall k: nat | k < r.Count() ensures r.Frags()[k] == Replace(t.Frags(), i, s.Frags())[k] {
      RefinedFrag(t, i, s, k);
    }
  }

  /** Fragmenting one piece of a tiling and putting the result in its place gives a tiling of the same payload. */
  lemma FragmentRefines(t: Tiling, i: nat, mtu: int) returns (r: Tiling)
    requires t.Valid() && i < t.Count() && FragmentOf(t.Frag(i), mtu).Pieces?
    ensures r.Valid() && r.h == t.h && r.payload == t.payload
    ensures r.Frags() == Replace(t.Frags(), i, FragmentOf(t.Frag(i), mtu).fragments)
  {
    hide PieceBytes, PieceHeader, ParseHeader, RefineCuts;
    t.HeadFields(i);
    t.PieceParses(i);
    if |t.Frag(i)| <= mtu {
      r := t;
      assert t.Frags() == t.Frags()[..i] + [t.Frag(i)] + t.Frags()[i + 1..];
    } else {
      FragmentIsTiling(t.Frag(i), mtu);
      var s := TilingOf(t.Frag(i), mtu);
      RefinedIsCut(t.cuts, |t.payload|, i, s.cuts);
      r := Refine(t, i, s);
      RefinedFrags(t, i, s);
    }
  }

  lemma RefineCount(t: Tiling, i: nat, s: Tiling)
    requires t.Valid() && i < t.Count() && s.Valid()
    ensures Refine(t, i, s).Count() == t.Count() + s.Count() - 1
  {
  }

  /** A hop sends one of the packets over a link with the given MTU. */
  datatype Hop = Hop(index: nat, mtu: int)

  /** The packets in flight after a chain of hops; None when `Fragment` refuses one of them. */
  function Forward(fs: seq<bytes>, hops: seq<Hop>): Option<seq<bytes>>
    decreases |hops|
  {
    if hops == [] then Some(fs)
    else if hops[0].index >= |fs| then None
    else match FragmentOf(fs[hops[0].index], hops[0].mtu)
      case Pieces(ps) => Forward(Replace(fs, hops[0].index, ps), hops[1..])
      case _ => None
  }

  lemma {:induction false} ChainTiles(t: Tiling, hops: seq<Hop>) returns (r: Tiling)
    requires t.Valid() && Forward(t.Frags(), hops).Some?
    ensures r.Valid() && r.h == t.h && r.payload == t.payload
    ensures Forward(t.Frags(), hops) == Some(r.Frags())
    decreases |hops|
  {
    hide PieceBytes, PieceHeader, ParseHeader, FragmentOf;
    r := t;
    if hops != [] {
      var next := FragmentRefines(t, hops[0].index, hops[0].mtu);
      r := ChainTiles(next, hops[1..]);
    }
  }
}

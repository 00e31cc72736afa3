/**
 A tiling: one payload cut at multiples of 8, each piece under its own sealed header.
 Fragmenting produces tilings, fragmenting a fragment refines them, and reassembly
 (module Reassembly) is proved for every tiling.
 */
module Tiling {
  import opened Bytes
  import opened IPHeader
  import opened Checksum
  import opened Fragmentation

  /** Cut points of `n` bytes: increasing from 0 to `n`, a multiple of 8 before each piece. */
  ghost predicate IsCut(cuts: seq<nat>, n: nat) {
    && |cuts| >= 2 && cuts[0] == 0 && cuts[|cuts| - 1] == n
    && (forall i, j :: 0 <= i < j < |cuts| ==> cuts[i] < cuts[j])
    && (forall i :: 0 <= i < |cuts| - 1 ==> cuts[i] % 8 == 0)
  }

  lemma DraftFields(h: Header, lo: nat, hi: nat, last: bool)
    requires h.OnWire() && lo < hi && lo % 8 == 0
    requires h.fragOffset as int * 8 + hi <= 0xFFFF && h.HeaderLen() + hi <= 0xFFFF
    ensures var d := PieceDraft(h, lo, hi, last);
      && d.OnWire() && (d.MF() <==> h.MF() || !last) && d.flags / 2 == h.flags / 2
      && d.fragOffset as int * 8 == h.fragOffset as int * 8 + lo
      && d.totalLen as int == h.HeaderLen() + hi - lo
      && d == h.(fragOffset := d.fragOffset, totalLen := d.totalLen, flags := d.flags)
  {
    assert h.fragOffset as int + lo / 8 < 0x2000;
  }

  /** `h` is the header of the packet that was cut, which may itself be a fragment. */
  datatype Tiling = Tiling(h: Header, payload: bytes, cuts: seq<nat>) {
    ghost predicate Valid() {
      && h.OnWire()
      && |cuts| >= 2
      && IsCut(cuts, |payload|)
      && h.HeaderLen() + |payload| <= 0xFFFF
      && h.fragOffset as int * 8 + |payload| <= 0xFFFF
    }

    function Count(): int { |cuts| - 1 }

    /** The original packet starts a datagram and ends it: it is not a fragment itself. */
    predicate Whole() { h.fragOffset == 0 && !h.MF() }

    ghost function Head(i: nat): Header
      requires Valid() && i < Count()
    {
      PieceHeader(h, cuts[i], cuts[i + 1], i == Count() - 1)
    }

    ghost function Frag(i: nat): bytes
      requires Valid() && i < Count()
    {
      PieceBytes(h, payload, cuts[i], cuts[i + 1], i == Count() - 1)
    }

    ghost function Frags(): (fs: seq<bytes>)
      requires Valid()
      ensures |fs| == Count()
      ensures forall i: nat :: i < Count() ==> fs[i] == Frag(i)
    {
      seq(Count(), i requires 0 <= i < Count() => Frag(i))
    }

    /** The packet that the pieces stand for: offset and checksum recomputed, nothing else changed. */
    ghost function Datagram(): bytes
      requires Valid()
    {
      MarshalOf(PieceHeader(h, 0, |payload|, true)) + payload
    }

    /** The header of a piece: offset, length, MF and checksum are its own, the rest is from `h`. */
    lemma HeadFields(i: nat)
      requires Valid() && i < Count()
      ensures cuts[i] < cuts[i + 1] <= |payload| && cuts[i] % 8 == 0
      ensures Head(i).OnWire()
      ensures Head(i).fragOffset as int * 8 == h.fragOffset as int * 8 + cuts[i]
      ensures Head(i).totalLen as int == h.HeaderLen() + cuts[i + 1] - cuts[i]
      ensures Head(i).MF() <==> h.MF() || i < Count() - 1
      ensures Head(i).flags / 2 == h.flags / 2
      ensures Head(i) == h.(fragOffset := Head(i).fragOffset, totalLen := Head(i).totalLen,
                            flags := Head(i).flags, checksum := Head(i).checksum)
    {
      assert cuts[i] < cuts[i + 1] <= |payload| && cuts[i] % 8 == 0;
      DraftFields(h, cuts[i], cuts[i + 1], i == Count() - 1);
    }

    lemma Ends()
      requires Valid()
      ensures cuts[0] == 0 && cuts[|cuts| - 1] == |payload|
    {
    }

    /** Every piece parses to its header, and carries its part of the payload. */
    lemma PieceParses(i: nat)
      requires Valid() && i < Count()
      ensures ParseHeader(Frag(i)) == Ok(Head(i))
      ensures cuts[i] < cuts[i + 1] <= |payload|
      ensures Head(i).PayloadOf(Frag(i)) == payload[cuts[i]..cuts[i + 1]]
      ensures |Frag(i)| == h.HeaderLen() + cuts[i + 1] - cuts[i]
    {
      HeadFields(i);
      MarshalThenParse(Head(i), payload[cuts[i]..cuts[i + 1]]);
    }

    lemma PieceSealed(i: nat)
      requires Valid() && i < Count()
      ensures |Frag(i)| >= h.HeaderLen() && Frag(i)[..h.HeaderLen()] == MarshalOf(Head(i))
      ensures Verifies(Frag(i)[..h.HeaderLen()])
    {
      HeadFields(i);
      SealedVerifies(PieceDraft(h, cuts[i], cuts[i + 1], i == Count() - 1));
    }
  }

  // ---------------------------------------------------------------------------
  // Fragment produces a tiling
  // ---------------------------------------------------------------------------

  /** The points where the splitting loop cuts `n` bytes, starting at `from`. */
  function SplitCuts(n: nat, size: nat, from: nat): seq<nat>
    requires size > 0 && from < n
    decreases n - from
  {
    if n - from <= size then [from, n] else [from] + SplitCuts(n, size, from + size)
  }

  lemma {:induction false} SplitCutsShape(n: nat, size: nat, from: nat)
    requires size > 0 && size % 8 == 0 && from % 8 == 0 && from < n
    ensures var c := SplitCuts(n, size, from);
      && |c| >= 2 && c[0] == from && c[|c| - 1] == n
      && (forall i :: 0 <= i < |c| - 1 ==> c[i] < c[i + 1] <= c[i] + size && c[i] % 8 == 0)
      && (forall i :: 0 <= i < |c| - 2 ==> c[i + 1] == c[i] + size)
      && (forall i :: 0 <= i < |c| ==> c[i] <= n)
    decreases n - from
  {
    if n - from > size {
      SplitCutsShape(n, size, from + size);
      var c, rest := SplitCuts(n, size, from), SplitCuts(n, size, from + size);
      forall i | 0 <= i < |c| - 1
        ensures c[i] < c[i + 1] <= c[i] + size && c[i] % 8 == 0 && (i < |c| - 2 ==> c[i + 1] == c[i] + size)
      {
        assert i > 0 ==> c[i] == rest[i - 1] && c[i + 1] == rest[i - 1 + 1];
      }
    }
  }

  lemma {:induction false} StepsIncrease(c: seq<nat>, i: nat, j: nat)
    requires i < j < |c|
    requires forall k :: 0 <= k < |c| - 1 ==> c[k] < c[k + 1]
    ensures c[i] < c[j]
  {
    if i + 1 < j {
      StepsIncrease(c, i, j - 1);
    }
    assert c[j - 1] < c[j - 1 + 1];
  }

  lemma CutFromSteps(c: seq<nat>, n: nat)
    requires |c| >= 2 && c[0] == 0 && c[|c| - 1] == n
    requires forall k :: 0 <= k < |c| - 1 ==> c[k] < c[k + 1] && c[k] % 8 == 0
    ensures IsCut(c, n)
  {
    forall i, j | 0 <= i < j < |c| ensures c[i] < c[j] {
      StepsIncrease(c, i, j);
    }
  }

  lemma SplitCutsAreCut(n: nat, size: nat)
    requires size > 0 && size % 8 == 0 && n > 0
    ensures IsCut(SplitCuts(n, size, 0), n)
  {
    SplitCutsShape(n, size, 0);
    CutFromSteps(SplitCuts(n, size, 0), n);
  }

  lemma {:induction false} SplitPiece(h: Header, payload: bytes, size: nat, from: nat, i: nat)
    requires h.ihl >= 5 && size > 0 && size % 8 == 0 && from % 8 == 0 && from < |payload|
    requires i < |SplitCuts(|payload|, size, from)| - 1
    ensures var c, fs := SplitCuts(|payload|, size, from), Split(h, payload, size, from);
      && |fs| == |c| - 1 && c[i] < c[i + 1] <= |payload|
      && fs[i] == PieceBytes(h, payload, c[i], c[i + 1], i == |c| - 2)
    decreases |payload| - from
  {
    hide PieceBytes, PieceHeader;
    SplitCutsShape(|payload|, size, from);
    if |payload| - from > size {
      SplitCutsShape(|payload|, size, from + size);
      SplitPiece(h, payload, size, from + size, if i == 0 then 0 else i - 1);
    }
  }

  /** `packet` exceeds the MTU, is accepted, and no fragment offset can leave the 13-bit field. */
  predicate IsSplit(packet: bytes, mtu: int) {
    && mtu < |packet| <= 0xFFFF
    && FragmentOf(packet, mtu).Pieces?
    && ParseHeader(packet).value.fragOffset as int * 8
       + |ParseHeader(packet).value.PayloadOf(packet)| <= 0xFFFF
  }

  function TilingOf(packet: bytes, mtu: int): Tiling
    requires IsSplit(packet, mtu)
  {
    var h := ParseHeader(packet).value;
    var payload := h.PayloadOf(packet);
    Tiling(h, payload, SplitCuts(|payload|, PieceSize(mtu, h.HeaderLen()), 0))
  }

  /** Whatever `Fragment` splits, it splits into a tiling of at least two pieces that fill the MTU but for the last. */
  lemma FragmentIsTiling(packet: bytes, mtu: int)
    requires IsSplit(packet, mtu)
    ensures var t := TilingOf(packet, mtu);
      && t.Valid() && t.Count() >= 2
      && FragmentOf(packet, mtu) == Pieces(t.Frags())
      && (forall i :: 0 <= i < t.Count() ==> |t.Frag(i)| <= mtu)
      && (forall i :: 0 <= i < t.Count() - 1 ==> |t.Frag(i)| > mtu - 8)
  {
    hide PieceBytes;
    var t := TilingOf(packet, mtu);
    var size := PieceSize(mtu, t.h.HeaderLen());
    SplitCutsAreCut(|t.payload|, size);
    SplitCutsShape(|t.payload|, size, 0);
    forall i: nat | i < t.Count()
      ensures |Split(t.h, t.payload, size, 0)| == t.Count()
      ensures Split(t.h, t.payload, size, 0)[i] == t.Frag(i)
      ensures |t.Frag(i)| <= mtu && (i < t.Count() - 1 ==> |t.Frag(i)| > mtu - 8)
    {
      SplitPiece(t.h, t.payload, size, 0, i);
      t.PieceParses(i);
    }
    assert |Split(t.h, t.payload, size, 0)| == t.Count() by {
      SplitPiece(t.h, t.payload, size, 0, 0);
    }
  }
}

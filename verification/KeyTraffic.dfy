/**
 The reassembly buffer seen from one key whose fragments come from one tiling: the byte
 counter, the map and the rebuild amount to collecting piece numbers in a set. Whatever
 the other keys receive, fragments of theirs may be malformed or overlap.
 */
module KeyTraffic {
  import opened Bytes
  import opened IPHeader
  import opened Checksum
  import opened Fragmentation
  import opened Tiling
  import opened ReassemblyModel

  // ---------------------------------------------------------------------------
  // The counter
  // ---------------------------------------------------------------------------

  /** The bytes of the pieces below `n` whose numbers are in `have`. */
  ghost function BytesIn(cuts: seq<nat>, have: set<nat>, n: nat): int
    requires n < |cuts|
  {
    if n == 0 then 0
    else BytesIn(cuts, have, n - 1) + if n - 1 in have then cuts[n] as int - cuts[n - 1] else 0
  }

  lemma {:induction false} BytesInAdd(cuts: seq<nat>, have: set<nat>, i: nat, n: nat)
    requires n < |cuts| && i !in have && i + 1 < |cuts|
    ensures BytesIn(cuts, have + {i}, n) == BytesIn(cuts, have, n) + if i < n then cuts[i + 1] as int - cuts[i] else 0
  {
    if n > 0 {
      BytesInAdd(cuts, have, i, n - 1);
    }
  }

  /** The count reaches the end of piece `n - 1` exactly when no piece below `n` is missing. */
  lemma {:induction false} BytesInAll(cuts: seq<nat>, len: nat, have: set<nat>, n: nat)
    requires IsCut(cuts, len) && n < |cuts|
    ensures BytesIn(cuts, have, n) <= cuts[n]
    ensures BytesIn(cuts, have, n) == cuts[n] <==> forall j: nat :: j < n ==> j in have
  {
    if n > 0 {
      BytesInAll(cuts, len, have, n - 1);
      assert cuts[n - 1] < cuts[n];
    }
  }

  // ---------------------------------------------------------------------------
  // A group that holds pieces of a tiling
  // ---------------------------------------------------------------------------

  ghost function OffsetOf(t: Tiling, i: nat): int
    requires i < |t.cuts|
  {
    t.h.fragOffset as int + t.cuts[i] / 8
  }

  lemma OffsetsDiffer(t: Tiling, i: nat, j: nat)
    requires t.Valid() && i < t.Count() && j < t.Count() && i != j
    ensures OffsetOf(t, i) != OffsetOf(t, j)
  {
    assert t.cuts[Min(i, j)] < t.cuts[if i < j then j else i];
    assert t.cuts[i] % 8 == 0 && t.cuts[j] % 8 == 0;
  }

  ghost predicate HasAll(t: Tiling, have: set<nat>) {
    forall j: nat :: j < t.Count() ==> j in have
  }

  /** Every piece of the tiling is a fragment in the eyes of the buffer. */
  ghost predicate IsCutUp(t: Tiling) {
    t.Count() >= 2 || !t.Whole()
  }

  /** `g` holds the pieces in `have`, and nothing else. */
  ghost predicate Holds(t: Tiling, have: set<nat>, since: int, g: Group)
    requires t.Valid()
  {
    && (forall i :: i in have ==> i < t.Count())
    && (forall o: uint16 :: o in g.fragments <==> exists i :: i in have && OffsetOf(t, i) == o)
    && (forall i :: i in have ==> HoldsPiece(t, i, g))
    && g.received == BytesIn(t.cuts, have, t.Count())
    && g.totalLen == (if t.Count() - 1 in have && !t.h.MF() then t.h.fragOffset as int * 8 + |t.payload| else -1)
    && g.createdAt == since
  }

  ghost predicate HoldsPiece(t: Tiling, i: nat, g: Group)
    requires t.Valid() && i < t.Count()
  {
    forall o: uint16 :: o == OffsetOf(t, i) ==> o in g.fragments && g.fragments[o] == t.Frag(i)
  }

  lemma EmptyHolds(t: Tiling, now: int)
    requires t.Valid()
    ensures Holds(t, {}, now, NewGroup(now))
  {
    NoBytes(t.cuts, t.Count());
  }

  lemma {:induction false} NoBytes(cuts: seq<nat>, n: nat)
    requires n < |cuts|
    ensures BytesIn(cuts, {}, n) == 0
  {
    if n > 0 {
      NoBytes(cuts, n - 1);
    }
  }

  /** Storing piece `i` adds its number to the set; a repeat changes nothing. */
  lemma StoreHolds(t: Tiling, have: set<nat>, since: int, g: Group, i: nat)
    requires t.Valid() && i < t.Count() && Holds(t, have, since, g)
    ensures Holds(t, have + {i}, since, Store(g, t.Head(i), t.Frag(i)))
  {
    hide PieceBytes, PieceHeader, IsCut, BytesIn, Holds;
    t.Ends();
    t.HeadFields(i);
    t.PieceParses(i);
    if i in have {
      StoreRepeat(t, have, since, g, i);
      assert have + {i} == have;
    } else {
      StoreNew(t, have, since, g, i);
    }
  }

  lemma StoreRepeat(t: Tiling, have: set<nat>, since: int, g: Group, i: nat)
    requires t.Valid() && i in have && i < t.Count() && Holds(t, have, since, g)
    ensures Holds(t, have, since, Store(g, t.Head(i), t.Frag(i)))
  {
    hide PieceBytes, PieceHeader, IsCut, BytesIn;
    t.Ends();
    t.HeadFields(i);
    t.PieceParses(i);
    assert HoldsPiece(t, i, g);
    assert Store(g, t.Head(i), t.Frag(i)).fragments == g.fragments;
  }

  lemma StoreNew(t: Tiling, have: set<nat>, since: int, g: Group, i: nat)
    requires t.Valid() && i !in have && i < t.Count() && Holds(t, have, since, g)
    ensures Holds(t, have + {i}, since, Store(g, t.Head(i), t.Frag(i)))
  {
    hide PieceBytes, PieceHeader, IsCut, BytesIn;
    t.Ends();
    t.HeadFields(i);
    t.PieceParses(i);
    assert t.Head(i).fragOffset as int == OffsetOf(t, i);
    forall j | j in have ensures OffsetOf(t, j) != OffsetOf(t, i) {
      OffsetsDiffer(t, i, j);
    }
    BytesInAdd(t.cuts, have, i, t.Count());
  }

  /** The completeness test of the code, for pieces of a tiling. */
  lemma CompleteIff(t: Tiling, have: set<nat>, since: int, g: Group)
    requires t.Valid() && Holds(t, have, since, g)
    ensures Complete(g) <==> t.Whole() && HasAll(t, have)
  {
    BytesInAll(t.cuts, |t.payload|, have, t.Count());
  }

  // ---------------------------------------------------------------------------
  // The rebuild
  // ---------------------------------------------------------------------------

  lemma {:induction false} FindPiece(t: Tiling, x: nat, n: nat) returns (i: nat)
    requires t.Valid() && n < |t.cuts| && x < t.cuts[n]
    ensures i < n && t.cuts[i] <= x < t.cuts[i + 1]
  {
    if x < t.cuts[n - 1] {
      i := FindPiece(t, x, n - 1);
    } else {
      i := n - 1;
    }
  }

  /** The part of the buffer that piece `i` belongs in. */
  ghost predicate InPlace(t: Tiling, i: nat, buf: bytes)
    requires t.Valid() && i < t.Count()
  {
    var a, b := t.h.HeaderLen() + t.cuts[i], t.h.HeaderLen() + t.cuts[i + 1];
    a <= b <= |buf| && t.cuts[i] <= t.cuts[i + 1] <= |t.payload| && buf[a..b] == t.payload[t.cuts[i]..t.cuts[i + 1]]
  }

  lemma OverwriteElsewhere(buf: bytes, off: nat, src: bytes, a: nat, b: nat)
    requires off <= |buf| && a <= b <= |buf| && (b <= off || off + |src| <= a)
    ensures Overwrite(buf, off, src)[a..b] == buf[a..b]
  {
  }

  lemma OverwriteHere(buf: bytes, off: nat, src: bytes)
    requires off + |src| <= |buf|
    ensures Overwrite(buf, off, src)[off..off + |src|] == src
  {
  }

  lemma PiecesApart(t: Tiling, i: nat, j: nat)
    requires t.Valid() && i < t.Count() && j < t.Count() && i != j
    ensures t.cuts[i + 1] <= t.cuts[j] || t.cuts[j + 1] <= t.cuts[i]
  {
    if i + 1 < j { assert t.cuts[i + 1] < t.cuts[j]; }
    if j + 1 < i { assert t.cuts[j + 1] < t.cuts[i]; }
  }

  /** Which piece is stored under an offset. */
  lemma PieceAt(t: Tiling, have: set<nat>, since: int, g: Group, o: uint16) returns (j: nat)
    requires t.Valid() && Holds(t, have, since, g) && o in g.fragments
    ensures j in have && j < t.Count() && OffsetOf(t, j) == o && g.fragments[o] == t.Frag(j)
  {
    j :| j in have && OffsetOf(t, j) == o;
    assert HoldsPiece(t, j, g);
  }

  /** Copying piece `j` puts it in place and leaves the header and the other pieces alone. */
  lemma CopyPiece(t: Tiling, before: bytes, j: nat, i: nat)
    requires t.Valid() && t.Whole() && i < t.Count() && j < t.Count()
    requires |before| == t.h.HeaderLen() + |t.payload|
    ensures t.h.HeaderLen() + OffsetOf(t, j) * 8 <= |before|
    ensures var hl := t.h.HeaderLen();
      var after := Overwrite(before, hl + OffsetOf(t, j) * 8, PayloadIn(t.Frag(j)));
      && after[..hl] == before[..hl]
      && (i == j || InPlace(t, i, before) ==> InPlace(t, i, after))
  {
    hide PieceBytes, PieceHeader, IsCut, Overwrite;
    t.HeadFields(i);
    t.HeadFields(j);
    t.PieceParses(j);
    var hl, src := t.h.HeaderLen(), PayloadIn(t.Frag(j));
    OverwriteElsewhere(before, hl + t.cuts[j], src, 0, hl);
    if i == j {
      OverwriteHere(before, hl + t.cuts[j], src);
    } else {
      PiecesApart(t, i, j);
      OverwriteElsewhere(before, hl + t.cuts[j], src, hl + t.cuts[i], hl + t.cuts[i + 1]);
    }
  }

  /** After the visits in `order`, every visited piece is in place and the header is intact. */
  lemma {:induction false} Written(
    t: Tiling, have: set<nat>, since: int, g: Group, blank: bytes, order: seq<uint16>, i: nat)
    requires t.Valid() && Holds(t, have, since, g) && i < t.Count()
    requires |blank| == t.h.HeaderLen() + |t.payload| && t.Whole()
    requires Fits(blank, t.h.HeaderLen(), order) && forall o :: o in order ==> o in g.fragments
    ensures var buf := WriteAll(blank, g.fragments, t.h.HeaderLen(), order);
      && buf[..t.h.HeaderLen()] == blank[..t.h.HeaderLen()]
      && ((exists o :: o in order && o == OffsetOf(t, i)) ==> InPlace(t, i, buf))
    decreases |order|
  {
    hide PieceBytes, PieceHeader, IsCut, BytesIn, Overwrite, InPlace, PayloadIn;
    if order != [] {
      var rest, o := order[..|order| - 1], order[|order| - 1];
      Written(t, have, since, g, blank, rest, i);
      var j := PieceAt(t, have, since, g, o);
      hide Holds, OffsetOf;
      CopyPiece(t, WriteAll(blank, g.fragments, t.h.HeaderLen(), rest), j, i);
      if i != j {
        OffsetsDiffer(t, i, j);
        assert forall p :: p in order && p == OffsetOf(t, i) ==> p in rest;
      }
    }
  }

  /** Once every piece has been visited, the buffer is the header followed by the payload. */
  lemma AllInPlace(t: Tiling, buf: bytes)
    requires t.Valid() && |buf| == t.h.HeaderLen() + |t.payload|
    requires forall i: nat :: i < t.Count() ==> InPlace(t, i, buf)
    ensures buf[t.h.HeaderLen()..] == t.payload
  {
    var hl := t.h.HeaderLen();
    forall x: nat | x < |t.payload| ensures buf[hl + x] == t.payload[x] {
      var i := FindPiece(t, x, t.Count());
      assert InPlace(t, i, buf);
      var a, b := t.cuts[i], t.cuts[i + 1];
      assert buf[hl + a..hl + b][x - a] == t.payload[a..b][x - a];
    }
  }

  /** The new header of the rebuilt packet, taken from piece 0, is that of the packet that was cut. */
  lemma RebuiltHeader(t: Tiling)
    requires t.Valid() && t.Whole()
    ensures WholeHeader(t.Head(0), |t.payload|) == PieceHeader(t.h, 0, |t.payload|, true)
  {
    hide MarshalOf, ChecksumOf;
    t.Ends();
    t.HeadFields(0);
    DraftFields(t.h, 0, |t.payload|, true);
    var a := t.Head(0).ClearMF().(fragOffset := 0, totalLen := Wrap16(t.h.HeaderLen() + |t.payload|));
    var b := PieceDraft(t.h, 0, |t.payload|, true);
    assert a.(checksum := 0) == b.(checksum := 0);
  }

  /** In whatever order the map is visited, rebuilding all pieces gives the packet that was cut. */
  lemma RebuildIsDatagram(t: Tiling, have: set<nat>, since: int, g: Group, r: Rebuild)
    requires t.Valid() && t.Whole() && Holds(t, have, since, g) && HasAll(t, have)
    requires g.totalLen > 0 && Rebuilds(g, r)
    ensures r == Built(t.Datagram())
  {
    hide PieceBytes, PieceHeader, IsCut, BytesIn, RebuildsInOrder;
    FirstPiece(t, have, since, g);
    NoOverrun(t, have, since, g);
    var order :| RebuildsInOrder(g, t.Head(0), order, r);
    OrderIsImmaterial(t, have, since, g, order, r);
  }

  lemma FirstPiece(t: Tiling, have: set<nat>, since: int, g: Group)
    requires t.Valid() && t.Whole() && Holds(t, have, since, g) && HasAll(t, have)
    ensures 0 in g.fragments && ParseHeader(g.fragments[0]) == Ok(t.Head(0)) && t.Head(0).OnWire()
  {
    hide PieceBytes, PieceHeader, BytesIn;
    t.HeadFields(0);
    t.PieceParses(0);
    assert HoldsPiece(t, 0, g);
  }

  lemma NoOverrun(t: Tiling, have: set<nat>, since: int, g: Group)
    requires t.Valid() && t.Whole() && Holds(t, have, since, g) && HasAll(t, have)
    ensures g.totalLen == |t.payload| && !Overruns(g)
  {
    hide PieceBytes, PieceHeader, BytesIn, IsCut;
    forall o | o in g.fragments ensures o as int * 8 <= g.totalLen {
      var j := PieceAt(t, have, since, g, o);
      t.HeadFields(j);
    }
  }

  lemma OrderIsImmaterial(t: Tiling, have: set<nat>, since: int, g: Group, order: seq<uint16>, r: Rebuild)
    requires t.Valid() && t.Whole() && Holds(t, have, since, g) && HasAll(t, have)
    requires g.totalLen == |t.payload| && g.totalLen > 0 && t.Head(0).OnWire()
    requires RebuildsInOrder(g, t.Head(0), order, r)
    ensures r == Built(t.Datagram())
  {
    hide PieceBytes, PieceHeader, IsCut, BytesIn, WriteAll, InPlace;
    t.HeadFields(0);
    RebuiltHeader(t);
    var hl, blank := t.h.HeaderLen(), Blank(t.Head(0), g.totalLen);
    var buf := WriteAll(blank, g.fragments, hl, order);
    Written(t, have, since, g, blank, order, 0);
    forall i: nat | i < t.Count() ensures InPlace(t, i, buf) {
      Written(t, have, since, g, blank, order, i);
      t.HeadFields(i);
      assert HoldsPiece(t, i, g);
      assert t.Head(i).fragOffset in order;
    }
    AllInPlace(t, buf);
    assert buf == buf[..hl] + buf[hl..];
  }

  // ---------------------------------------------------------------------------
  // The collector: what the buffer does for one key
  // ---------------------------------------------------------------------------

  /** The piece numbers seen since the group was made at `since`. */
  datatype Slot = Slot(have: set<nat>, since: int)

  datatype Collector = Collector(slot: Option<Slot>, out: seq<bytes>)

  /** What an event means to the key: one of its pieces, a sweep, or nothing. */
  datatype KeyEvent = Piece(i: nat, now: int) | Sweep(now: int) | Foreign

  ghost function Collect(t: Tiling, c: Collector, e: KeyEvent): Collector
    requires t.Valid()
  {
    match e
    case Piece(i, now) =>
      var slot := if c.slot.Some? then c.slot.value else Slot({}, now);
      var have := slot.have + {i};
      if t.Whole() && HasAll(t, have) then Collector(None, c.out + [t.Datagram()])
      else c.(slot := Some(Slot(have, slot.since)))
    case Sweep(now) =>
      if c.slot.Some? && now - c.slot.value.since > STALE_AFTER then c.(slot := None) else c
    case Foreign => c
  }

  datatype Event = Arrive(raw: bytes, now: int) | Tick(now: int)

  /** One step of the buffer; a run ends at a panic, so a step does not include one. */
  ghost predicate Step(s: State, e: Event, s': State) {
    match e
    case Arrive(raw, now) => exists res :: AddStep(s, raw, now, s', res) && !res.Crashed?
    case Tick(now) => s' == Cleaned(s, now)
  }

  /** How an event looks from key `k`, whose packets are `fs`. Fragments under other keys are arbitrary. */
  ghost predicate Looks(fs: seq<bytes>, k: FragmentKey, e: Event, ke: KeyEvent) {
    match ke
    case Piece(i, now) => i < |fs| && e == Arrive(fs[i], now)
    case Sweep(now) => e == Tick(now)
    case Foreign => IsForeign(k, e)
  }

  ghost predicate IsForeign(k: FragmentKey, e: Event) {
    && e.Arrive?
    && (ParseHeader(e.raw).Ok? ==>
          !IsFragment(ParseHeader(e.raw).value) || KeyOf(ParseHeader(e.raw).value) != k)
  }

  /** The rebuilt packets delivered under one key. */
  ghost function DeliveredFor(log: seq<Delivery>, k: FragmentKey): seq<bytes> {
    if log == [] then []
    else
      var d := log[|log| - 1];
      DeliveredFor(log[..|log| - 1], k) + if d.Rebuilt? && d.key == k then [d.packet] else []
  }

  /** The buffer, at the key of `t`, is in the state of the collector. */
  ghost predicate Agrees(t: Tiling, c: Collector, s: State)
    requires t.Valid()
  {
    var k := KeyOf(t.h);
    && (k in s.groups <==> c.slot.Some?)
    && (c.slot.Some? ==> Holds(t, c.slot.value.have, c.slot.value.since, s.groups[k]))
    && c.out == DeliveredFor(s.delivered, k)
  }

  lemma DeliveredSnoc(log: seq<Delivery>, d: Delivery, k: FragmentKey)
    ensures DeliveredFor(log + [d], k)
         == DeliveredFor(log, k) + if d.Rebuilt? && d.key == k then [d.packet] else []
  {
    assert (log + [d])[..|log|] == log;
  }

  lemma PieceKey(t: Tiling, i: nat)
    requires t.Valid() && i < t.Count() && IsCutUp(t)
    ensures KeyOf(t.Head(i)) == KeyOf(t.h) && IsFragment(t.Head(i))
  {
    hide PieceHeader, IsCut;
    t.HeadFields(i);
    if i > 0 {
      t.HeadFields(i - 1);
    }
  }

  /** The group of the key after storing piece `i`. */
  lemma PieceStored(t: Tiling, c: Collector, s: State, i: nat, now: int)
    requires t.Valid() && IsCutUp(t) && i < t.Count() && Agrees(t, c, s)
    ensures var slot := if c.slot.Some? then c.slot.value else Slot({}, now);
      && Holds(t, slot.have + {i}, slot.since, StoredGroup(s, t.Head(i), t.Frag(i), now))
      && KeyOf(t.Head(i)) == KeyOf(t.h)
  {
    hide PieceBytes, PieceHeader, IsCut, Holds, Store, KeyOf;
    PieceKey(t, i);
    var k := KeyOf(t.h);
    var slot := if c.slot.Some? then c.slot.value else Slot({}, now);
    EmptyHolds(t, now);
    StoreHolds(t, slot.have, slot.since, if k in s.groups then s.groups[k] else NewGroup(now), i);
  }

  /** An arriving piece moves the buffer exactly as it moves the collector, and cannot crash it. */
  lemma PieceAgrees(t: Tiling, c: Collector, s: State, i: nat, now: int, s': State, res: AddResult)
    requires t.Valid() && IsCutUp(t) && i < t.Count() && Agrees(t, c, s)
    requires AddStep(s, t.Frag(i), now, s', res)
    ensures res == Added && Agrees(t, Collect(t, c, Piece(i, now)), s')
    ensures s'.failed == s.failed
  {
    hide PieceBytes, PieceHeader, IsCut, Holds, Rebuilds, Store, Complete, HasAll, ParseHeader, KeyOf, IsCutUp;
    hide IsFragment, DeliveredFor;
    t.PieceParses(i);
    PieceKey(t, i);
    PieceStored(t, c, s, i, now);
    var k, h, raw := KeyOf(t.h), t.Head(i), t.Frag(i);
    var slot := if c.slot.Some? then c.slot.value else Slot({}, now);
    var g := StoredGroup(s, h, raw, now);
    CompleteIff(t, slot.have + {i}, slot.since, g);
    if Complete(g) {
      PositiveLength(g);
      var r :| Rebuilds(g, r) && s' == Finished(Stored(s, h, raw, now), k, r)
               && res == if r.Panicked? then Crashed else Added;
      RebuildIsDatagram(t, slot.have + {i}, slot.since, g, r);
      DeliveredSnoc(s.delivered, Rebuilt(k, t.Datagram()), k);
    }
  }

  lemma PositiveLength(g: Group)
    requires Complete(g)
    ensures g.totalLen > 0
  {
  }

  /** A group under another key is untouched. */
  lemma OtherKeys(s: State, h: Header, raw: bytes, now: int, r: Rebuild, k: FragmentKey)
    requires k != KeyOf(h)
    ensures var t := Stored(s, h, raw, now);
      && t.delivered == s.delivered
      && (k in t.groups <==> k in s.groups) && (k in s.groups ==> t.groups[k] == s.groups[k])
    ensures var f := Finished(Stored(s, h, raw, now), KeyOf(h), r);
      && DeliveredFor(f.delivered, k) == DeliveredFor(s.delivered, k)
      && (k in f.groups <==> k in s.groups) && (k in s.groups ==> f.groups[k] == s.groups[k])
  {
    hide KeyOf, Store;
    if r.Built? {
      DeliveredSnoc(s.delivered, Rebuilt(KeyOf(h), r.packet), k);
    }
  }

  lemma ForeignAgrees(t: Tiling, c: Collector, s: State, raw: bytes, now: int, s': State, res: AddResult)
    requires t.Valid() && Agrees(t, c, s)
    requires IsForeign(KeyOf(t.h), Arrive(raw, now)) && AddStep(s, raw, now, s', res)
    ensures Agrees(t, c, s')
  {
    hide IsCut, Holds, Rebuilds, Complete, ParseHeader, Stored, Finished, DeliveredFor, KeyOf;
    var k := KeyOf(t.h);
    if ParseHeader(raw).Ok? {
      var h := ParseHeader(raw).value;
      if !IsFragment(h) {
        DeliveredSnoc(s.delivered, Direct(raw), k);
      } else if !Complete(StoredGroup(s, h, raw, now)) {
        OtherKeys(s, h, raw, now, Failed, k);
      } else {
        PositiveLength(StoredGroup(s, h, raw, now));
        var r :| Rebuilds(StoredGroup(s, h, raw, now), r)
                 && s' == Finished(Stored(s, h, raw, now), KeyOf(h), r)
                 && res == if r.Panicked? then Crashed else Added;
        OtherKeys(s, h, raw, now, r, k);
      }
    }
  }

  lemma StepAgrees(t: Tiling, c: Collector, s: State, e: Event, ke: KeyEvent, s': State)
    requires t.Valid() && IsCutUp(t) && Agrees(t, c, s)
    requires Looks(t.Frags(), KeyOf(t.h), e, ke) && Step(s, e, s')
    ensures Agrees(t, Collect(t, c, ke), s')
  {
    hide AddStep, PieceBytes, PieceHeader, IsCut, Holds, KeyOf, IsCutUp;
    match ke
    case Piece(i, now) =>
      var res :| AddStep(s, e.raw, now, s', res) && !res.Crashed?;
      PieceAgrees(t, c, s, i, now, s', res);
    case Foreign =>
      var res :| AddStep(s, e.raw, e.now, s', res) && !res.Crashed?;
      ForeignAgrees(t, c, s, e.raw, e.now, s', res);
    case Sweep(now) =>
      SweepAgrees(t, c, s, now);
  }

  lemma SweepAgrees(t: Tiling, c: Collector, s: State, now: int)
    requires t.Valid() && Agrees(t, c, s)
    ensures Agrees(t, Collect(t, c, Sweep(now)), Cleaned(s, now))
  {
    hide IsCut, KeyOf, BytesIn, HoldsPiece;
  }

  // ---------------------------------------------------------------------------
  // Whole runs
  // ---------------------------------------------------------------------------

  ghost predicate Run(states: seq<State>, events: seq<Event>) {
    && |states| == |events| + 1
    && forall j :: 0 <= j < |events| ==> Step(states[j], events[j], states[j + 1])
  }

  ghost predicate AllLook(fs: seq<bytes>, k: FragmentKey, events: seq<Event>, kes: seq<KeyEvent>) {
    && |events| == |kes|
    && forall j :: 0 <= j < |events| ==> Looks(fs, k, events[j], kes[j])
  }

  ghost function CollectAll(t: Tiling, c: Collector, kes: seq<KeyEvent>): Collector
    requires t.Valid()
  {
    if kes == [] then c
    else Collect(t, CollectAll(t, c, kes[..|kes| - 1]), kes[|kes| - 1])
  }

  /** The buffer refines the collector over every run, whatever happens under other keys. */
  lemma {:induction false} RunRefinesCollector(
    t: Tiling, c: Collector, states: seq<State>, events: seq<Event>, kes: seq<KeyEvent>, n: nat)
    requires t.Valid() && IsCutUp(t) && Run(states, events) && Agrees(t, c, states[0])
    requires AllLook(t.Frags(), KeyOf(t.h), events, kes) && n <= |events|
    ensures Agrees(t, CollectAll(t, c, kes[..n]), states[n])
  {
    hide Step, Looks, Agrees, IsCut, IsCutUp, KeyOf, Collect;
    if n > 0 {
      RunRefinesCollector(t, c, states, events, kes, n - 1);
      assert kes[..n][..n - 1] == kes[..n - 1];
      StepAgrees(t, CollectAll(t, c, kes[..n - 1]), states[n - 1], events[n - 1], kes[n - 1], states[n]);
    }
  }

  /** The events that concern the key. */
  ghost function Own(kes: seq<KeyEvent>): seq<KeyEvent> {
    if kes == [] then []
    else Own(kes[..|kes| - 1]) + if kes[|kes| - 1].Foreign? then [] else [kes[|kes| - 1]]
  }

  lemma {:induction false} ForeignIsInvisible(t: Tiling, c: Collector, kes: seq<KeyEvent>)
    requires t.Valid()
    ensures CollectAll(t, c, kes) == CollectAll(t, c, Own(kes))
  {
    hide IsCut, HasAll;
    if kes != [] {
      var init, last := kes[..|kes| - 1], kes[|kes| - 1];
      ForeignIsInvisible(t, c, init);
      if !last.Foreign? {
        assert (Own(init) + [last])[..|Own(init)|] == Own(init);
      } else {
        assert Own(kes) == Own(init);
      }
    }
  }

  /** What is delivered under a key depends only on that key's own fragments and on the sweeps. */
  lemma KeyIndependence(
    t: Tiling, c: Collector,
    states: seq<State>, events: seq<Event>, kes: seq<KeyEvent>,
    states': seq<State>, events': seq<Event>, kes': seq<KeyEvent>)
    requires t.Valid() && IsCutUp(t) && Run(states, events) && Run(states', events')
    requires Agrees(t, c, states[0]) && Agrees(t, c, states'[0])
    requires AllLook(t.Frags(), KeyOf(t.h), events, kes) && AllLook(t.Frags(), KeyOf(t.h), events', kes')
    requires Own(kes) == Own(kes')
    ensures DeliveredFor(states[|events|].delivered, KeyOf(t.h))
         == DeliveredFor(states'[|events'|].delivered, KeyOf(t.h))
  {
    hide Step, Looks, IsCut, IsCutUp, KeyOf, Collect, Holds;
    RunRefinesCollector(t, c, states, events, kes, |events|);
    RunRefinesCollector(t, c, states', events', kes', |events'|);
    assert kes[..|events|] == kes && kes'[..|events'|] == kes';
    ForeignIsInvisible(t, c, kes);
    ForeignIsInvisible(t, c, kes');
  }

  /** The event brings no fragment of the datagram with header `h`: source, destination, ID or protocol differ. */
  ghost predicate OtherDatagram(h: Header, e: Event) {
    && e.Arrive?
    && (ParseHeader(e.raw).Ok? && IsFragment(ParseHeader(e.raw).value) ==>
          var f := ParseHeader(e.raw).value;
          f.src != h.src || f.dst != h.dst || f.id != h.id || f.protocol != h.protocol)
  }

  lemma ForeignIffOther(h: Header, e: Event)
    requires h.OnWire()
    ensures IsForeign(KeyOf(h), e) <==> OtherDatagram(h, e)
  {
    if e.Arrive? && ParseHeader(e.raw).Ok? {
      ReadLayout(e.raw);
    }
    hide ParseHeader, IsFragment;
  }

  /** One of the pieces, a sweep, or a packet of another datagram. */
  ghost predicate LooksByFields(t: Tiling, e: Event, ke: KeyEvent)
    requires t.Valid()
  {
    match ke
    case Piece(i, now) => i < t.Count() && e == Arrive(t.Frag(i), now)
    case Sweep(now) => e == Tick(now)
    case Foreign => OtherDatagram(t.h, e)
  }

  /**
   Independence on the header fields: what is delivered under a datagram's key is the same in
   two runs that agree on its own fragments and on the sweeps, whatever fragments arrive that
   differ from it in source, destination, ID or protocol.
   */
  lemma DatagramIndependence(
    t: Tiling, c: Collector,
    states: seq<State>, events: seq<Event>, kes: seq<KeyEvent>,
    states': seq<State>, events': seq<Event>, kes': seq<KeyEvent>)
    requires t.Valid() && IsCutUp(t) && Run(states, events) && Run(states', events')
    requires Agrees(t, c, states[0]) && Agrees(t, c, states'[0])
    requires |events| == |kes| && forall j :: 0 <= j < |events| ==> LooksByFields(t, events[j], kes[j])
    requires |events'| == |kes'| && forall j :: 0 <= j < |events'| ==> LooksByFields(t, events'[j], kes'[j])
    requires Own(kes) == Own(kes')
    ensures DeliveredFor(states[|events|].delivered, KeyOf(t.h))
         == DeliveredFor(states'[|events'|].delivered, KeyOf(t.h))
  {
    hide Step, IsCut, IsCutUp, KeyOf, Collect, Holds, Agrees, IsForeign, OtherDatagram, PieceBytes;
    forall j | 0 <= j < |events| ensures Looks(t.Frags(), KeyOf(t.h), events[j], kes[j]) {
      assert LooksByFields(t, events[j], kes[j]);
      ForeignIffOther(t.h, events[j]);
    }
    forall j | 0 <= j < |events'| ensures Looks(t.Frags(), KeyOf(t.h), events'[j], kes'[j]) {
      assert LooksByFields(t, events'[j], kes'[j]);
      ForeignIffOther(t.h, events'[j]);
    }
    KeyIndependence(t, c, states, events, kes, states', events', kes');
  }

  /** Groups are told apart by all four fields: fragments that differ in one go to different groups. */
  lemma GroupsApart(s: State, raw: bytes, now: int, s': State, res: AddResult, h: Header)
    requires h.OnWire() && OtherDatagram(h, Arrive(raw, now)) && AddStep(s, raw, now, s', res)
    ensures KeyOf(h) in s'.groups <==> KeyOf(h) in s.groups
    ensures KeyOf(h) in s.groups ==> s'.groups[KeyOf(h)] == s.groups[KeyOf(h)]
    ensures DeliveredFor(s'.delivered, KeyOf(h)) == DeliveredFor(s.delivered, KeyOf(h))
  {
    hide ParseHeader, KeyOf, Complete, Rebuilds, Stored, Finished, DeliveredFor, IsFragment;
    ForeignIffOther(h, Arrive(raw, now));
    if ParseHeader(raw).Ok? {
      var f := ParseHeader(raw).value;
      if !IsFragment(f) {
        DeliveredSnoc(s.delivered, Direct(raw), KeyOf(h));
      } else if !Complete(StoredGroup(s, f, raw, now)) {
        OtherKeys(s, f, raw, now, Failed, KeyOf(h));
      } else {
        PositiveLength(StoredGroup(s, f, raw, now));
        var r :| Rebuilds(StoredGroup(s, f, raw, now), r)
                 && s' == Finished(Stored(s, f, raw, now), KeyOf(f), r)
                 && res == if r.Panicked? then Crashed else Added;
        OtherKeys(s, f, raw, now, r, KeyOf(h));
      }
    }
  }

  // ---------------------------------------------------------------------------
  // When the packet comes out
  // ---------------------------------------------------------------------------

  ghost function Seen(kes: seq<KeyEvent>): set<nat> {
    set j | 0 <= j < |kes| && kes[j].Piece? :: kes[j].i
  }

  /** No sweep comes more than 30 s after a piece. */
  ghost predicate Timely(kes: seq<KeyEvent>) {
    forall a, b :: 0 <= a < b < |kes| && kes[a].Piece? && kes[b].Sweep? ==> kes[b].now - kes[a].now <= STALE_AFTER
  }

  /** Until every piece has been seen, the collector holds exactly the pieces seen. */
  lemma {:induction false} Gathering(t: Tiling, c: Collector, kes: seq<KeyEvent>)
    requires t.Valid() && c.slot.None? && Timely(kes)
    requires !(t.Whole() && HasAll(t, Seen(kes)))
    ensures var d := CollectAll(t, c, kes);
      && d.out == c.out
      && (d.slot.None? <==> Seen(kes) == {})
      && (d.slot.Some? ==>
            d.slot.value.have == Seen(kes)
            && (exists a :: 0 <= a < |kes| && kes[a].Piece? && kes[a].now == d.slot.value.since))
  {
    hide IsCut;
    if kes != [] {
      var init, last := kes[..|kes| - 1], kes[|kes| - 1];
      assert kes == init + [last];
      assert Seen(kes) == Seen(init) + if last.Piece? then {last.i} else {};
      Gathering(t, c, init);
    }
  }

  /** The piece that completes the set brings out the packet. */
  lemma LastPiece(t: Tiling, c: Collector, kes: seq<KeyEvent>)
    requires t.Valid() && c.slot.None? && Timely(kes) && t.Whole() && kes != []
    requires HasAll(t, Seen(kes)) && !HasAll(t, Seen(kes[..|kes| - 1]))
    ensures CollectAll(t, c, kes) == Collector(None, c.out + [t.Datagram()])
  {
    hide IsCut;
    var init, last := kes[..|kes| - 1], kes[|kes| - 1];
    assert kes == init + [last];
    assert Seen(kes) == Seen(init) + if last.Piece? then {last.i} else {};
    Gathering(t, c, init);
  }
}

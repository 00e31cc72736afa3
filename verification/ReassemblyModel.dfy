/**
 What one call of the reassembly buffer may do (internal/ip/reassembly.go), as a relation
 on values. The order in which Go iterates a map is left open, so a rebuild may have
 several outcomes; for pieces of one tiling it has exactly one (module KeyTraffic).
 */
module ReassemblyModel {
  import opened Bytes
  import opened IPAddress
  import opened Checksum
  import opened IPHeader

  datatype FragmentKey = FragmentKey(src: bytes, dst: bytes, id: uint16, proto: byte)

  function KeyOf(h: Header): FragmentKey {
    FragmentKey(Quad(h.src), Quad(h.dst), h.id, h.protocol)
  }

  /** Two headers off the wire have the same key exactly when all four fields are equal. */
  lemma SameKeyIff(a: Header, b: Header)
    requires a.OnWire() && b.OnWire()
    ensures KeyOf(a) == KeyOf(b) <==> a.src == b.src && a.dst == b.dst && a.id == b.id && a.protocol == b.protocol
  {
  }

  /** The same on the bytes of the packets, whatever their header lengths. */
  lemma SameKeyBytes(a: bytes, b: bytes)
    requires ParseHeader(a).Ok? && ParseHeader(b).Ok?
    ensures KeyOf(ParseHeader(a).value) == KeyOf(ParseHeader(b).value)
       <==> a[4..6] == b[4..6] && a[9] == b[9] && a[12..20] == b[12..20]
  {
    ReadLayout(a);
    ReadLayout(b);
    hide ParseHeader;
    HiLoOfGet16(a, 4);
    HiLoOfGet16(b, 4);
    assert a[4..6] == [a[4], a[5]] && b[4..6] == [b[4], b[5]];
    assert a[12..20] == a[12..16] + a[16..20] && b[12..20] == b[12..16] + b[16..20];
    assert a[12..20][..4] == a[12..16] && b[12..20][..4] == b[12..16];
    assert a[12..20][4..] == a[16..20] && b[12..20][4..] == b[16..20];
  }

  predicate IsFragment(h: Header) {
    h.MF() || h.fragOffset > 0
  }

  /** Times are in nanoseconds. */
  const STALE_AFTER: int := 30_000_000_000

  datatype Group = Group(fragments: map<uint16, bytes>, totalLen: int, received: int, createdAt: int)

  function NewGroup(now: int): Group {
    Group(map[], -1, 0, now)
  }

  /** A fragment is kept unless its offset is taken; one without MF fixes the length either way. */
  function Store(g: Group, h: Header, raw: bytes): Group {
    var payloadLen := |h.PayloadOf(raw)|;
    var kept :=
      if h.fragOffset in g.fragments then g
      else g.(fragments := g.fragments[h.fragOffset := raw], received := g.received + payloadLen);
    if h.MF() then kept else kept.(totalLen := Wrap16(h.fragOffset as int * 8) + payloadLen)
  }

  predicate Complete(g: Group) {
    g.totalLen > 0 && g.received == g.totalLen
  }

  /**
   Of two fragments at one offset the first gives the bytes and the count, and each one without
   MF, kept or not, gives the length. The second one's MF flag decides whose length stays.
   */
  lemma FirstBytesLastLength(g: Group, h: Header, raw: bytes, h': Header, raw': bytes)
    requires h.fragOffset == h'.fragOffset && h.fragOffset !in g.fragments && h.fragOffset < 0x2000
    ensures var one := Store(g, h, raw);
      var two := Store(one, h', raw');
      && one.fragments == g.fragments[h.fragOffset := raw]
      && one.received == g.received + |h.PayloadOf(raw)|
      && one.totalLen == (if h.MF() then g.totalLen else h.fragOffset as int * 8 + |h.PayloadOf(raw)|)
      && two.fragments == one.fragments && two.received == one.received
      && two.totalLen == (if h'.MF() then one.totalLen else h.fragOffset as int * 8 + |h'.PayloadOf(raw')|)
      && two.createdAt == one.createdAt == g.createdAt
  {
  }

  // ---------------------------------------------------------------------------
  // Rebuilding
  // ---------------------------------------------------------------------------

  datatype Rebuild = Built(packet: bytes) | Failed | Panicked

  ghost predicate Enumerates(order: seq<uint16>, keys: set<uint16>) {
    && (forall i, j :: 0 <= i < j < |order| ==> order[i] != order[j])
    && (forall o :: o in order <==> o in keys)
  }

  ghost predicate Fits(buf: bytes, headerLen: nat, order: seq<uint16>) {
    forall i :: 0 <= i < |order| ==> headerLen + order[i] as int * 8 <= |buf|
  }

  /** The buffer after copying the fragments' payloads to their places in the given order. */
  ghost function WriteAll(buf: bytes, fragments: map<uint16, bytes>, headerLen: nat, order: seq<uint16>): (r: bytes)
    requires Fits(buf, headerLen, order) && forall o :: o in order ==> o in fragments
    ensures |r| == |buf|
  {
    if order == [] then buf
    else
      var o := order[|order| - 1];
      Overwrite(WriteAll(buf, fragments, headerLen, order[..|order| - 1]),
                headerLen + o as int * 8, PayloadIn(fragments[o]))
  }

  lemma EnumeratesSnoc(order: seq<uint16>, keys: set<uint16>, o: uint16)
    requires Enumerates(order, keys) && o !in keys
    ensures Enumerates(order + [o], keys + {o})
  {
  }

  lemma WriteAllSnoc(buf: bytes, fragments: map<uint16, bytes>, headerLen: nat, order: seq<uint16>, o: uint16)
    requires Fits(buf, headerLen, order) && (forall p :: p in order ==> p in fragments)
    requires o in fragments && headerLen + o as int * 8 <= |buf|
    ensures Fits(buf, headerLen, order + [o])
    ensures WriteAll(buf, fragments, headerLen, order + [o])
         == Overwrite(WriteAll(buf, fragments, headerLen, order), headerLen + o as int * 8, PayloadIn(fragments[o]))
  {
    hide Overwrite, PayloadIn;
    assert (order + [o])[..|order|] == order;
  }

  function WholeHeader(h: Header, totalLen: nat): Header
    requires h.ihl >= 5
  {
    Seal(h.ClearMF().(fragOffset := 0, totalLen := Wrap16(h.HeaderLen() + totalLen)))
  }

  /** The new header is the first fragment's, without MF and offset, with the length cut to 16 bits. */
  lemma WholeFields(h: Header, n: nat)
    requires h.ihl >= 5
    ensures var w := WholeHeader(h, n);
      && w == h.(flags := w.flags, fragOffset := 0, totalLen := (h.ihl as int * 4 + n) % 0x1_0000,
                 checksum := w.checksum)
      && w.flags == h.flags / 2 * 2 && Verifies(MarshalOf(w))
  {
    hide MarshalOf, Verifies, ChecksumOf;
    SealedVerifies(h.ClearMF().(fragOffset := 0, totalLen := Wrap16(h.HeaderLen() + n)));
  }

  function Blank(h: Header, totalLen: nat): (b: bytes)
    requires h.ihl >= 5
    ensures |b| == h.HeaderLen() + totalLen
  {
    MarshalOf(WholeHeader(h, totalLen)) + Zeros(totalLen)
  }

  /** `copy(fullPacket[byteOffset:], ...)` panics when the offset is past the end. */
  ghost predicate Overruns(g: Group) {
    !forall o: uint16 :: o in g.fragments ==> o as int * 8 <= g.totalLen
  }

  /** An empty fragment right at the end is still in bounds. */
  lemma OverrunsIff(g: Group)
    ensures Overruns(g) <==> exists o: uint16 :: o in g.fragments && o as int * 8 > g.totalLen
  {
  }

  ghost predicate Rebuilds(g: Group, r: Rebuild)
    requires g.totalLen > 0
  {
    if 0 !in g.fragments || ParseHeader(g.fragments[0]).Err? then r == Failed
    else
      var h := ParseHeader(g.fragments[0]).value;
      if h.ihl < 5 || Overruns(g) then r == Panicked
      else exists order :: RebuildsInOrder(g, h, order, r)
  }

  ghost predicate RebuildsInOrder(g: Group, h: Header, order: seq<uint16>, r: Rebuild)
    requires g.totalLen > 0 && h.ihl >= 5
  {
    && Enumerates(order, g.fragments.Keys)
    && Fits(Blank(h, g.totalLen), h.HeaderLen(), order)
    && r == Built(WriteAll(Blank(h, g.totalLen), g.fragments, h.HeaderLen(), order))
  }

  // ---------------------------------------------------------------------------
  // The buffer
  // ---------------------------------------------------------------------------

  datatype Stats = Stats(groupsActive: int, fragmentsAdded: int, reassembled: int, evicted: int)

  /** A call of `onComplete`: with a packet that was no fragment, or with a rebuilt one. */
  datatype Delivery = Direct(packet: bytes) | Rebuilt(key: FragmentKey, packet: bytes)

  /** `created` and `failed` count groups made and rebuilds given up; the code does not keep them. */
  datatype State = State(
    groups: map<FragmentKey, Group>, stats: Stats, delivered: seq<Delivery>, created: nat, failed: nat)

  datatype AddResult = Added | Rejected(why: ParseError) | Crashed

  /** A group for `k` is made if there is none. */
  function Opened(s: State, k: FragmentKey, now: int): (o: State)
    ensures k in o.groups
  {
    if k in s.groups then s
    else s.(groups := s.groups[k := NewGroup(now)],
            stats := s.stats.(groupsActive := s.stats.groupsActive + 1), created := s.created + 1)
  }

  /** The group for the fragment's key takes the fragment. */
  function Kept(s: State, h: Header, raw: bytes): (t: State)
    requires KeyOf(h) in s.groups
    ensures KeyOf(h) in t.groups
  {
    var k := KeyOf(h);
    var more := if h.fragOffset in s.groups[k].fragments then 0 else 1;
    s.(groups := s.groups[k := Store(s.groups[k], h, raw)],
       stats := s.stats.(fragmentsAdded := s.stats.fragmentsAdded + more))
  }

  function Stored(s: State, h: Header, raw: bytes, now: int): (t: State)
    ensures KeyOf(h) in t.groups
  {
    Kept(Opened(s, KeyOf(h), now), h, raw)
  }

  function StoredGroup(s: State, h: Header, raw: bytes, now: int): Group {
    Stored(s, h, raw, now).groups[KeyOf(h)]
  }

  /** The group is dropped whether or not the rebuild worked; only a rebuilt packet is counted. */
  function Finished(s: State, k: FragmentKey, r: Rebuild): State {
    var active := s.stats.groupsActive - 1;
    match r
    case Panicked => s
    case Failed => s.(groups := s.groups - {k}, stats := s.stats.(groupsActive := active), failed := s.failed + 1)
    case Built(p) =>
      s.(groups := s.groups - {k}, delivered := s.delivered + [Rebuilt(k, p)],
         stats := s.stats.(groupsActive := active, reassembled := s.stats.reassembled + 1))
  }

  ghost predicate AddStep(s: State, raw: bytes, now: int, s': State, res: AddResult) {
    match ParseHeader(raw)
    case Err(e) => s' == s && res == Rejected(e)
    case Ok(h) =>
      if !IsFragment(h) then
        s' == s.(delivered := s.delivered + [Direct(raw)]) && res == Added
      else if !Complete(StoredGroup(s, h, raw, now)) then
        s' == Stored(s, h, raw, now) && res == Added
      else
        exists r :: Rebuilds(StoredGroup(s, h, raw, now), r)
                    && s' == Finished(Stored(s, h, raw, now), KeyOf(h), r)
                    && res == if r.Panicked? then Crashed else Added
  }

  function StaleKeys(s: State, now: int): set<FragmentKey> {
    set k | k in s.groups && now - s.groups[k].createdAt > STALE_AFTER
  }

  function Evicted(s: State, gone: set<FragmentKey>): State {
    s.(groups := s.groups - gone,
       stats := s.stats.(groupsActive := s.stats.groupsActive - |gone|, evicted := s.stats.evicted + |gone|))
  }

  function Cleaned(s: State, now: int): State {
    Evicted(s, StaleKeys(s, now))
  }
}

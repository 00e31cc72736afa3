/**
 The buffer under the fragments of many packets at once. A group's fragments come from one
 tiling; when the group is gone its key may be used again for another packet. No group is
 ever given up, so the groups made are the active, the reassembled and the evicted.
 */
module TilingTraffic {
  import opened Bytes
  import opened IPHeader
  import opened Fragmentation
  import opened Tiling
  import opened ReassemblyModel
  import opened KeyTraffic
  import opened Accounting
  import opened Progress

  ghost predicate TilesFor(k: FragmentKey, t: Tiling) {
    t.Valid() && IsCutUp(t) && KeyOf(t.h) == k
  }

  ghost predicate IsPiece(t: Tiling, raw: bytes) {
    t.Valid() && exists i: nat :: i < t.Count() && raw == t.Frag(i)
  }

  /** The key of the tiling has no group, or one that holds some of the tiling's pieces. */
  ghost predicate InStep(t: Tiling, s: State) {
    t.Valid() && exists c :: Agrees(t, c, s)
  }

  ghost predicate HasTiling(k: FragmentKey, s: State) {
    exists t :: TilesFor(k, t) && InStep(t, s)
  }

  /** Every live group holds pieces of some tiling. */
  ghost predicate AllTiled(s: State) {
    forall k :: k in s.groups ==> HasTiling(k, s)
  }

  /** The packet is a piece of a tiling of which its group, if there is one, holds pieces. */
  ghost predicate Joins(k: FragmentKey, s: State, raw: bytes) {
    exists t :: TilesFor(k, t) && InStep(t, s) && IsPiece(t, raw)
  }

  /** A fragment that arrives joins its group; packets that are no fragments are arbitrary. */
  ghost predicate Fitting(s: State, e: Event) {
    e.Arrive? && ParseHeader(e.raw).Ok? && IsFragment(ParseHeader(e.raw).value) ==>
      Joins(KeyOf(ParseHeader(e.raw).value), s, e.raw)
  }

  ghost predicate AllFitting(states: seq<State>, events: seq<Event>)
    requires |states| == |events| + 1
  {
    forall j :: 0 <= j < |events| ==> Fitting(states[j], events[j])
  }

  /** An arrival at one key, seen from another or from its own. */
  lemma ArrivalAt(k: FragmentKey, t: Tiling, s: State, raw: bytes, now: int, s': State, res: AddResult)
    requires TilesFor(k, t) && InStep(t, s)
    requires IsForeign(k, Arrive(raw, now)) || IsPiece(t, raw)
    requires AddStep(s, raw, now, s', res)
    ensures InStep(t, s')
    ensures !IsForeign(k, Arrive(raw, now)) ==> res == Added && s'.failed == s.failed
  {
    hide AddStep, Agrees, ParseHeader, KeyOf, IsFragment, PieceBytes, PieceHeader;
    var c :| Agrees(t, c, s);
    if IsForeign(k, Arrive(raw, now)) {
      ForeignAgrees(t, c, s, raw, now, s', res);
    } else {
      var i: nat :| i < t.Count() && raw == t.Frag(i);
      PieceAgrees(t, c, s, i, now, s', res);
    }
  }

  /** An arrival makes a group at most for its own key. */
  lemma GroupsAfter(s: State, raw: bytes, now: int, s': State, res: AddResult)
    requires AddStep(s, raw, now, s', res)
    ensures forall k :: k in s'.groups ==> k in s.groups || !IsForeign(k, Arrive(raw, now))
    ensures (ParseHeader(raw).Ok? ==> !IsFragment(ParseHeader(raw).value)) ==> !res.Crashed? && s'.failed == s.failed
  {
    hide ParseHeader, IsFragment, KeyOf, Complete, Rebuilds, Store;
  }

  /** No arrival makes the buffer panic or give up a group. */
  lemma ArriveKeeps(s: State, raw: bytes, now: int, s': State, res: AddResult)
    requires AllTiled(s) && Fitting(s, Arrive(raw, now)) && AddStep(s, raw, now, s', res)
    ensures AllTiled(s') && !res.Crashed? && s'.failed == s.failed
  {
    hide TilesFor, InStep, IsPiece, AddStep, KeyOf, ParseHeader, IsFragment;
    GroupsAfter(s, raw, now, s', res);
    if ParseHeader(raw).Ok? && IsFragment(ParseHeader(raw).value) {
      var k := KeyOf(ParseHeader(raw).value);
      var t :| TilesFor(k, t) && InStep(t, s) && IsPiece(t, raw);
      ArrivalAt(k, t, s, raw, now, s', res);
    }
    forall k | k in s'.groups && IsForeign(k, Arrive(raw, now)) ensures HasTiling(k, s') {
      var t :| TilesFor(k, t) && InStep(t, s);
      ArrivalAt(k, t, s, raw, now, s', res);
    }
  }

  lemma TickKeepsAt(t: Tiling, s: State, now: int)
    requires InStep(t, s)
    ensures InStep(t, Cleaned(s, now))
  {
    hide Agrees, Cleaned;
    var c :| Agrees(t, c, s);
    SweepAgrees(t, c, s, now);
  }

  lemma TickKeeps(s: State, now: int)
    requires AllTiled(s)
    ensures AllTiled(Cleaned(s, now)) && Cleaned(s, now).failed == s.failed
  {
    hide TilesFor, InStep;
    forall k | k in Cleaned(s, now).groups ensures HasTiling(k, Cleaned(s, now)) {
      var t :| TilesFor(k, t) && InStep(t, s);
      TickKeepsAt(t, s, now);
    }
  }

  lemma {:induction false} RunTiled(states: seq<State>, events: seq<Event>, n: nat)
    requires Run(states, events) && AllFitting(states, events) && n <= |events|
    requires AllTiled(states[0])
    ensures AllTiled(states[n]) && states[n].failed == states[0].failed
  {
    hide AllTiled, AddStep, Cleaned, Fitting;
    if n > 0 {
      RunTiled(states, events, n - 1);
      var s, s' := states[n - 1], states[n];
      assert Step(s, events[n - 1], s') && Fitting(s, events[n - 1]);
      match events[n - 1]
      case Arrive(raw, now) =>
        var res :| AddStep(s, raw, now, s', res) && !res.Crashed?;
        ArriveKeeps(s, raw, now, s', res);
      case Tick(now) =>
        TickKeeps(s, now);
    }
  }

  predicate Fresh(s: State) {
    s.groups == map[] && s.stats == Stats(0, 0, 0, 0) && s.created == 0 && s.failed == 0
  }

  /**
   Throughout every run that starts from a new buffer: groups made are active, reassembled or
   evicted, and received is the sum of the stored payload lengths.
   */
  lemma GroupsAccountedFor(states: seq<State>, events: seq<Event>, n: nat)
    requires Run(states, events) && AllFitting(states, events) && n <= |events|
    requires Fresh(states[0])
    ensures var s := states[n];
      && s.created == s.stats.groupsActive + s.stats.reassembled + s.stats.evicted
      && s.stats.groupsActive == |s.groups|
      && forall k :: k in s.groups ==> s.groups[k].received == StoredBytes(s.groups[k].fragments)
  {
    hide AllFitting, HasTiling, Step, StoredBytes;
    RunTiled(states, events, n);
    RunAccounts(states, events, n);
  }

  /** And such a run can always go on: the next event never makes the buffer panic. */
  lemma AlwaysNextStep(states: seq<State>, events: seq<Event>, e: Event) returns (s': State)
    requires Run(states, events) && AllFitting(states, events) && Fresh(states[0])
    requires Fitting(states[|events|], e)
    ensures Run(states + [s'], events + [e])
  {
    hide HasTiling, Fitting, AddStep, Cleaned;
    RunTiled(states, events, |events|);
    var s := states[|events|];
    match e {
      case Arrive(raw, now) =>
        var next, res := AddExists(s, raw, now);
        ArriveKeeps(s, raw, now, next, res);
        s' := next;
      case Tick(now) =>
        s' := Cleaned(s, now);
    }
    assert Step(s, e, s');
    var states', events' := states + [s'], events + [e];
    forall j | 0 <= j < |events'| ensures Step(states'[j], events'[j], states'[j + 1]) {
      if j < |events| {
        assert Step(states[j], events[j], states[j + 1]);
      }
    }
  }

  // ---------------------------------------------------------------------------
  // One tiling for each key
  // ---------------------------------------------------------------------------

  ghost predicate Tilings(ts: map<FragmentKey, Tiling>) {
    forall k :: k in ts ==> TilesFor(k, ts[k])
  }

  /** Every fragment is a piece of its key's tiling; a condition on the events alone. */
  ghost predicate PieceOf(ts: map<FragmentKey, Tiling>, e: Event) {
    e.Arrive? && ParseHeader(e.raw).Ok? && IsFragment(ParseHeader(e.raw).value) ==>
      var k := KeyOf(ParseHeader(e.raw).value);
      k in ts && IsPiece(ts[k], e.raw)
  }

  lemma EmptyInStep(t: Tiling, k: FragmentKey, s: State)
    requires TilesFor(k, t) && s.groups == map[]
    ensures InStep(t, s)
  {
    assert Agrees(t, Collector(None, DeliveredFor(s.delivered, k)), s);
  }

  lemma {:induction false} KeyInStep(
    ts: map<FragmentKey, Tiling>, k: FragmentKey, states: seq<State>, events: seq<Event>, n: nat)
    requires Tilings(ts) && k in ts && Run(states, events) && states[0].groups == map[] && n <= |events|
    requires forall j :: 0 <= j < |events| ==> PieceOf(ts, events[j])
    ensures InStep(ts[k], states[n])
  {
    hide TilesFor, InStep, AddStep, Cleaned, ParseHeader, KeyOf, IsFragment, IsPiece;
    if n == 0 {
      EmptyInStep(ts[k], k, states[0]);
    } else {
      KeyInStep(ts, k, states, events, n - 1);
      var s, s' := states[n - 1], states[n];
      assert Step(s, events[n - 1], s') && PieceOf(ts, events[n - 1]);
      match events[n - 1]
      case Arrive(raw, now) =>
        var res :| AddStep(s, raw, now, s', res) && !res.Crashed?;
        ArrivalAt(k, ts[k], s, raw, now, s', res);
      case Tick(now) =>
        TickKeepsAt(ts[k], s, now);
    }
  }

  /** If each key has one tiling for good, every fragment joins its group. */
  lemma FixedTilingsFit(ts: map<FragmentKey, Tiling>, states: seq<State>, events: seq<Event>)
    requires Tilings(ts) && Run(states, events) && states[0].groups == map[]
    requires forall j :: 0 <= j < |events| ==> PieceOf(ts, events[j])
    ensures AllFitting(states, events)
  {
    hide TilesFor, InStep, IsPiece, ParseHeader, KeyOf, IsFragment, Step;
    forall j: nat | j < |events| ensures Fitting(states[j], events[j]) {
      assert PieceOf(ts, events[j]);
      if events[j].Arrive? && ParseHeader(events[j].raw).Ok? && IsFragment(ParseHeader(events[j].raw).value) {
        KeyInStep(ts, KeyOf(ParseHeader(events[j].raw).value), states, events, j);
      }
    }
  }
}

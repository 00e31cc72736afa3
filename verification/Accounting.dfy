/** What the buffer's counters count, over runs on arbitrary traffic. */
module Accounting {
  import opened Bytes
  import opened IPHeader
  import opened ReassemblyModel
  import opened KeyTraffic

  // ---------------------------------------------------------------------------
  // Sums over the fragment map
  // ---------------------------------------------------------------------------

  ghost function StoredBytes(m: map<uint16, bytes>): nat
    decreases |m|
  {
    if m == map[] then 0
    else
      var o :| o in m;
      |PayloadIn(m[o])| + StoredBytes(m - {o})
  }

  /** The sum does not depend on which element is taken first. */
  lemma {:induction false} StoredBytesMinus(m: map<uint16, bytes>, o: uint16)
    requires o in m
    ensures StoredBytes(m) == |PayloadIn(m[o])| + StoredBytes(m - {o})
    decreases |m|
  {
    hide PayloadIn;
    var p :| p in m && StoredBytes(m) == |PayloadIn(m[p])| + StoredBytes(m - {p});
    if p != o {
      StoredBytesMinus(m - {p}, o);
      StoredBytesMinus(m - {o}, p);
      assert m - {p} - {o} == m - {o} - {p};
    }
  }

  lemma StoredBytesAdd(m: map<uint16, bytes>, o: uint16, raw: bytes)
    requires o !in m
    ensures StoredBytes(m[o := raw]) == StoredBytes(m) + |PayloadIn(raw)|
  {
    StoredBytesMinus(m[o := raw], o);
    assert m[o := raw] - {o} == m;
  }

  // ---------------------------------------------------------------------------
  // The invariant
  // ---------------------------------------------------------------------------

  /** A stored fragment parses, belongs to the key, and sits under its own offset. */
  predicate BelongsAt(k: FragmentKey, o: uint16, raw: bytes) {
    && ParseHeader(raw).Ok?
    && var h := ParseHeader(raw).value;
       IsFragment(h) && KeyOf(h) == k && h.fragOffset == o
  }

  ghost predicate GroupAccounts(k: FragmentKey, g: Group) {
    && g.received == StoredBytes(g.fragments)
    && (forall o :: o in g.fragments ==> BelongsAt(k, o, g.fragments[o]))
  }

  ghost predicate Accounts(s: State) {
    && s.stats.groupsActive == |s.groups|
    && s.created == s.stats.groupsActive + s.stats.reassembled + s.stats.evicted + s.failed
    && (forall k :: k in s.groups ==> GroupAccounts(k, s.groups[k]))
  }

  lemma StoreAccounts(k: FragmentKey, g: Group, h: Header, raw: bytes)
    requires GroupAccounts(k, g) && ParseHeader(raw) == Ok(h) && IsFragment(h) && KeyOf(h) == k
    ensures GroupAccounts(k, Store(g, h, raw))
  {
    hide KeyOf, ParseHeader, IsFragment;
    if h.fragOffset !in g.fragments {
      StoredBytesAdd(g.fragments, h.fragOffset, raw);
    }
  }

  lemma OpenAccounts(s: State, k: FragmentKey, now: int)
    requires Accounts(s)
    ensures Accounts(Opened(s, k, now))
  {
  }

  lemma KeepAccounts(s: State, h: Header, raw: bytes)
    requires Accounts(s) && ParseHeader(raw) == Ok(h) && IsFragment(h) && KeyOf(h) in s.groups
    ensures Accounts(Kept(s, h, raw))
  {
    hide KeyOf, ParseHeader, IsFragment, Store, GroupAccounts;
    StoreAccounts(KeyOf(h), s.groups[KeyOf(h)], h, raw);
    assert Kept(s, h, raw).groups.Keys == s.groups.Keys;
  }

  /** A complete group is given up exactly when its first fragment is missing. */
  lemma GivenUpIff(k: FragmentKey, g: Group, r: Rebuild)
    requires GroupAccounts(k, g) && g.totalLen > 0 && Rebuilds(g, r)
    ensures r == Failed <==> 0 !in g.fragments
  {
    hide Overruns;
    assert 0 in g.fragments ==> BelongsAt(k, 0, g.fragments[0]);
  }

  lemma FinishAccounts(s: State, k: FragmentKey, r: Rebuild)
    requires Accounts(s) && k in s.groups
    ensures Accounts(Finished(s, k, r))
  {
    hide GroupAccounts;
    assert (s.groups - {k}).Keys == s.groups.Keys - {k};
  }

  /** Every call of `Add` keeps the accounts, malformed and overlapping fragments included. */
  lemma AddAccounts(s: State, raw: bytes, now: int, s': State, res: AddResult)
    requires Accounts(s) && AddStep(s, raw, now, s', res)
    ensures Accounts(s')
  {
    hide Rebuilds, Accounts, Opened, Kept, Finished, ParseHeader, IsFragment, Complete, KeyOf;
    if ParseHeader(raw).Ok? {
      var h := ParseHeader(raw).value;
      if IsFragment(h) {
        OpenAccounts(s, KeyOf(h), now);
        KeepAccounts(Opened(s, KeyOf(h), now), h, raw);
        var g := StoredGroup(s, h, raw, now);
        if Complete(g) {
          PositiveLength(g);
          var r :| Rebuilds(g, r) && s' == Finished(Stored(s, h, raw, now), KeyOf(h), r)
                   && res == if r.Panicked? then Crashed else Added;
          FinishAccounts(Stored(s, h, raw, now), KeyOf(h), r);
        }
      } else {
        DeliveryAccounts(s, s.delivered + [Direct(raw)]);
      }
    }
  }

  /** FragmentsAdded grows by what the group's map grows by, so a repeated offset is not counted. */
  lemma FragmentsCounted(s: State, h: Header, raw: bytes, now: int)
    ensures var held := if KeyOf(h) in s.groups then |s.groups[KeyOf(h)].fragments| else 0;
      Stored(s, h, raw, now).stats.fragmentsAdded - s.stats.fragmentsAdded
        == |StoredGroup(s, h, raw, now).fragments| - held
  {
    hide KeyOf;
    var k := KeyOf(h);
    var g := Opened(s, k, now).groups[k];
    if h.fragOffset !in g.fragments {
      assert g.fragments[h.fragOffset := raw] - {h.fragOffset} == g.fragments;
    }
  }

  /**
   What becomes of a fragment's group: it stays until it is complete, and then goes whether or
   not the rebuild worked, without an error; one packet is delivered and counted exactly if the
   fragment at offset 0 is there.
   */
  lemma GroupAfterAdd(s: State, raw: bytes, now: int, s': State, res: AddResult)
    requires Accounts(s) && AddStep(s, raw, now, s', res) && !res.Crashed?
    requires ParseHeader(raw).Ok? && IsFragment(ParseHeader(raw).value)
    ensures var h := ParseHeader(raw).value;
      var g := StoredGroup(s, h, raw, now);
      && res == Added
      && (KeyOf(h) in s'.groups <==> !Complete(g))
      && (!Complete(g) ==> s'.groups[KeyOf(h)] == g && s'.delivered == s.delivered)
      && (Complete(g) && 0 !in g.fragments ==>
            s'.delivered == s.delivered && s'.stats.reassembled == s.stats.reassembled)
      && (Complete(g) && 0 in g.fragments ==>
            && s'.stats.reassembled == s.stats.reassembled + 1
            && exists p :: s'.delivered == s.delivered + [Rebuilt(KeyOf(h), p)])
  {
    hide ParseHeader, IsFragment, Complete, Rebuilds, KeyOf, Accounts, Opened, Kept;
    var h := ParseHeader(raw).value;
    var k, g := KeyOf(h), StoredGroup(s, h, raw, now);
    OpenAccounts(s, k, now);
    KeepAccounts(Opened(s, k, now), h, raw);
    SameDeliveries(s, h, raw, now);
    if Complete(g) {
      PositiveLength(g);
      var r :| Rebuilds(g, r) && s' == Finished(Stored(s, h, raw, now), k, r)
               && res == if r.Panicked? then Crashed else Added;
      GroupOf(Stored(s, h, raw, now), k);
      GivenUpIff(k, g, r);
    }
  }

  lemma SameDeliveries(s: State, h: Header, raw: bytes, now: int)
    ensures var t := Stored(s, h, raw, now);
      t.delivered == s.delivered && t.stats.reassembled == s.stats.reassembled
  {
  }

  lemma GroupOf(s: State, k: FragmentKey)
    requires Accounts(s) && k in s.groups
    ensures GroupAccounts(k, s.groups[k])
  {
  }

  /** A packet that does not parse changes nothing, and the error is its own. */
  lemma RejectedIff(s: State, raw: bytes, now: int, s': State, res: AddResult)
    requires AddStep(s, raw, now, s', res)
    ensures forall e :: res == Rejected(e) <==> ParseHeader(raw) == Err(e)
    ensures res.Rejected? ==> s' == s
  {
    hide ParseHeader, IsFragment, Stored, Finished, Rebuilds, Complete, KeyOf;
  }

  lemma DeliveryAccounts(s: State, log: seq<Delivery>)
    requires Accounts(s)
    ensures Accounts(s.(delivered := log))
  {
  }

  /** A sweep removes exactly the groups older than 30 s, and counts them. */
  lemma CleanAccounts(s: State, now: int)
    requires Accounts(s)
    ensures Accounts(Cleaned(s, now))
    ensures forall k :: k in Cleaned(s, now).groups
                   <==> k in s.groups && now - s.groups[k].createdAt <= 30_000_000_000
    ensures Cleaned(s, now).stats.evicted - s.stats.evicted == |s.groups| - |Cleaned(s, now).groups|
  {
    hide GroupAccounts;
    var stale := StaleKeys(s, now);
    assert stale <= s.groups.Keys;
    assert (s.groups - stale).Keys == s.groups.Keys - stale;
    assert |s.groups.Keys - stale| == |s.groups.Keys| - |stale|;
  }

  /** Over every run: groups made are active, rebuilt, evicted or given up, and nothing else. */
  lemma {:induction false} RunAccounts(states: seq<State>, events: seq<Event>, n: nat)
    requires Run(states, events) && n <= |events| && Accounts(states[0])
    ensures Accounts(states[n])
  {
    hide AddStep, Accounts, Cleaned;
    if n > 0 {
      RunAccounts(states, events, n - 1);
      var s, s' := states[n - 1], states[n];
      match events[n - 1]
      case Arrive(raw, now) =>
        var res :| AddStep(s, raw, now, s', res) && !res.Crashed?;
        AddAccounts(s, raw, now, s', res);
      case Tick(now) =>
        CleanAccounts(s, now);
    }
  }
}

/** Runs of the ephemeral port search that show what its guarantees need. */
module EphemeralRuns {
  import opened Bytes
  import opened EphemeralSearch
  import opened EphemeralCallers

  // ---------------------------------------------------------------------------
  // Steps of a run
  // ---------------------------------------------------------------------------

  lemma {:induction false} ExecAppend(s: System, a: seq<Action>, b: seq<Action>)
    ensures Exec(s, a + b) == Exec(Exec(s, a), b)
    ensures AddCount(a + b) == AddCount(a) + AddCount(b)
    decreases |a|
  {
    if a == [] {
      assert a + b == b;
    } else {
      assert (a + b)[1..] == a[1..] + b;
      ExecAppend(Do(s, a[0]), a[1..], b);
    }
  }

  function Adds(a: Action): nat { if a.Add? then 1 else 0 }

  lemma ThenOne(s: System, init: seq<Action>, a: Action)
    ensures Exec(s, init + [a]) == Do(Exec(s, init), a)
    ensures AddCount(init + [a]) == AddCount(init) + Adds(a)
  {
    ExecAppend(s, init, [a]);
    assert [a][1..] == [];
    assert Exec(Exec(s, init), [a]) == Exec(Do(Exec(s, init), a), []);
  }

  lemma ThenTwo(s: System, init: seq<Action>, a: Action, b: Action)
    ensures Exec(s, init + [a, b]) == Do(Do(Exec(s, init), a), b)
    ensures AddCount(init + [a, b]) == AddCount(init) + Adds(a) + Adds(b)
  {
    ThenOne(s, init, a);
    ThenOne(s, init + [a], b);
    assert init + [a, b] == init + [a] + [b];
  }

  function Start(): System { System(FIRST_PORT, map[], {}, []) }

  function AllPorts(): set<uint16> { set p: uint16 | IsPort(p) }

  /** Caller 0 at the top of the loop and caller 1 elsewhere, with every port in use. */
  function Full(n: uint32, other: Place): System {
    System(n, map[0 := Top, 1 := other], AllPorts(), [])
  }

  /** Finding every port in use, caller 0 brings the counter past the last port. */
  lemma {:induction false} Exhaust(init: seq<Action>, from: uint32, n: uint32, other: Place) returns (acts: seq<Action>)
    requires FIRST_PORT <= from as int <= n as int <= LAST_PORT + 1
    requires Exec(Start(), init) == Full(from, other)
    ensures Exec(Start(), acts) == Full(n, other) && AddCount(acts) == AddCount(init) + n - from
    decreases n
  {
    if n == from {
      acts := init;
    } else {
      var before := Exhaust(init, from, n - 1, other);
      ThenTwo(Start(), before, Add(0), Check(0));
      acts := before + [Add(0), Check(0)];
      assert Exec(Start(), acts).callers == Full(n, other).callers;
    }
  }

  lemma Opening() returns (acts: seq<Action>)
    ensures Exec(Start(), acts) == Full(FIRST_PORT, Top) && AddCount(acts) == 0
  {
    var first := [] + [TableChanges(AllPorts())];
    ThenOne(Start(), [], TableChanges(AllPorts()));
    ThenTwo(Start(), first, Enter(0), Enter(1));
    acts := first + [Enter(0), Enter(1)];
    assert Exec(Start(), []) == Start();
    assert Exec(Start(), acts).callers == Full(FIRST_PORT, Top).callers;
  }

  // ---------------------------------------------------------------------------
  // A wrap of the counter
  // ---------------------------------------------------------------------------

  lemma {:induction false} FreshCaller(ts: set<nat>) returns (t: nat)
    ensures forall u :: u in ts ==> u < t
    decreases |ts|
  {
    if ts == {} {
      t := 0;
    } else {
      var u :| u in ts;
      var v := FreshCaller(ts - {u});
      t := if u < v then v else u + 1;
      assert forall w :: w in ts ==> w == u || w in ts - {u};
    }
  }

  /** With the counter below the first port, a new caller is given the counter's value. */
  lemma LowPortReturned(s: System) returns (acts: seq<Action>)
    requires s.counter as int < FIRST_PORT
    ensures NeverWraps(s, acts) && !PortsInRange(Exec(s, acts))
  {
    var t := FreshCaller(s.callers.Keys);
    var p: uint16 := s.counter;
    acts := [Enter(t), Add(t), TableChanges({}), Check(t)];
    var s1 := Do(s, Enter(t));
    var s2 := Do(s1, Add(t));
    var s3 := Do(s2, TableChanges({}));
    var s4 := Do(s3, Check(t));
    assert acts[1..] == [Add(t), TableChanges({}), Check(t)];
    assert acts[1..][1..] == [TableChanges({}), Check(t)];
    assert acts[1..][1..][1..] == [Check(t)] && acts[1..][1..][1..][1..] == [];
    assert Exec(s3, [Check(t)]) == s4 && NeverWraps(s3, [Check(t)]);
    assert Exec(s2, acts[1..][1..]) == s4 && NeverWraps(s2, acts[1..][1..]);
    assert Exec(s1, acts[1..]) == s4 && NeverWraps(s1, acts[1..]);
    assert s4.returned == s.returned + [(p, {})];
    assert s4.returned[|s.returned|].0 == p && !IsPort(p);
  }

  /** After a step, every port returned from then on is in range exactly when the step was no wrap. */
  lemma InRangeIffNoWrap(s: System, a: Action)
    requires Inv(s)
    ensures (forall acts :: NeverWraps(Do(s, a), acts) ==> PortsInRange(Exec(Do(s, a), acts)))
       <==> !WrapsCounter(s, a)
  {
    DoKeeps(s, a);
    if WrapsCounter(s, a) {
      var acts := LowPortReturned(Do(s, a));
    } else {
      forall acts | NeverWraps(Do(s, a), acts) ensures PortsInRange(Exec(Do(s, a), acts)) {
        EveryRun(Do(s, a), acts);
      }
    }
  }

  /** Two callers about to swap; only the last that added expects the counter's value. */
  function Duel(n: uint32, last: nat): System
    requires n > 0 && last < 2
  {
    System(n, map[last := Swapping(n), 1 - last := Swapping(n - 1)], AllPorts(), [])
  }

  /** The caller whose swap fails adds again, and so spoils the other's swap. */
  lemma Climb(n: uint32, last: nat)
    requires LAST_PORT + 1 < n as int < 0xFFFF_FFFF && last < 2
    ensures Do(Do(Duel(n, last), Swap(1 - last)), Add(1 - last)) == Duel(n + 1, 1 - last)
  {
    assert Do(Do(Duel(n, last), Swap(1 - last)), Add(1 - last)).callers == Duel(n + 1, 1 - last).callers;
  }

  lemma {:induction false} ClimbTo(n: uint32) returns (acts: seq<Action>, last: nat)
    requires n as int >= LAST_PORT + 3
    ensures last < 2 && Exec(Start(), acts) == Duel(n, last) && AddCount(acts) == n - FIRST_PORT
    decreases n
  {
    if n as int == LAST_PORT + 3 {
      var opening := Opening();
      var init := Exhaust(opening, FIRST_PORT, LAST_PORT + 1, Top);
      ThenTwo(Start(), init, Add(0), Add(1));
      acts, last := init + [Add(0), Add(1)], 1;
      assert Exec(Start(), acts).callers == Duel(n, last).callers;
    } else {
      var init, l := ClimbTo(n - 1);
      Climb(n - 1, l);
      ThenTwo(Start(), init, Swap(1 - l), Add(1 - l));
      acts, last := init + [Swap(1 - l), Add(1 - l)], 1 - l;
    }
  }

  /** With the counter at 2^32 - 1 the first caller's addition wraps, so the other takes 0 for a port. */
  lemma Wraps(last: nat)
    requires last < 2
    ensures var s1 := Do(Do(Duel(0xFFFF_FFFF, last), Swap(1 - last)), Add(1 - last));
      Do(Do(Do(s1, Swap(last)), Add(last)), Check(last)).returned == [(0, AllPorts())]
  {
    var s1 := Do(Do(Duel(0xFFFF_FFFF, last), Swap(1 - last)), Add(1 - last));
    assert s1.counter == 0 && s1.callers[last] == Swapping(0xFFFF_FFFF);
    assert (0 as uint16) !in AllPorts();
  }

  /**
   Two callers that keep spoiling each other's swaps take the counter past 2^32 - 1, and one
   gets port 0, with one addition more than FewAdditionsInRange allows.
   */
  lemma WrapReturnsPortZero() returns (s: System, acts: seq<Action>)
    ensures Initial(s) && Exec(s, acts).returned == [(0, AllPorts())]
    ensures AddCount(acts) == 0x1_0000_0000 - FIRST_PORT + 1
  {
    hide AllPorts, Do;
    s := Start();
    var init, last := ClimbTo(0xFFFF_FFFF);
    var first := 1 - last;
    Wraps(last);
    ThenTwo(s, init, Swap(first), Add(first));
    var acts1 := init + [Swap(first), Add(first)];
    ThenTwo(s, acts1, Swap(last), Add(last));
    var acts2 := acts1 + [Swap(last), Add(last)];
    ThenOne(s, acts2, Check(last));
    acts := acts2 + [Check(last)];
  }

  // ---------------------------------------------------------------------------
  // A swap that succeeds while a caller is still checking
  // ---------------------------------------------------------------------------

  /** Caller 1 takes port 49153 and waits; caller 0 finds all others in use and gets the counter back to 49153. */
  lemma WaitThroughSwap() returns (acts: seq<Action>)
    ensures Exec(Start(), acts) == Full(FIRST_PORT + 1, Checking(FIRST_PORT + 1))
    ensures AddCount(acts) == 16385
  {
    var opening := Opening();
    var init := Exhaust(opening, FIRST_PORT, FIRST_PORT + 1, Top);
    ThenOne(Start(), init, Add(1));
    var other := Checking(FIRST_PORT + 1);
    assert Exec(Start(), init + [Add(1)]).callers == Full(FIRST_PORT + 2, other).callers;
    var round := Exhaust(init + [Add(1)], FIRST_PORT + 2, LAST_PORT + 1, other);
    ThenTwo(Start(), round, Add(0), Swap(0));
    acts := round + [Add(0), Swap(0)];
    assert Exec(Start(), acts).callers == Full(FIRST_PORT + 1, other).callers;
  }

  /**
   The table empties, caller 0 takes the same port, and both find it free, with one addition
   more than FewAdditionsNoRepeat allows.
   */
  lemma SamePortTwice() returns (acts: seq<Action>)
    ensures NeverWraps(Start(), acts) && AddCount(acts) == 16386
    ensures Exec(Start(), acts).callers == map[0 := Finished(FIRST_PORT + 1), 1 := Finished(FIRST_PORT + 1)]
    ensures Exec(Start(), acts).returned == [(FIRST_PORT + 1, {}), (FIRST_PORT + 1, {})]
  {
    var init := WaitThroughSwap();
    ThenTwo(Start(), init, TableChanges({}), Add(0));
    var acts1 := init + [TableChanges({}), Add(0)];
    ThenTwo(Start(), acts1, Check(0), Check(1));
    acts := acts1 + [Check(0), Check(1)];
    FewAdditionsNeverWrap(Start(), acts);
  }

  // ---------------------------------------------------------------------------
  // When a swap allows a port to be returned again
  // ---------------------------------------------------------------------------

  /** Neither a wrap nor a successful swap. */
  predicate IsQuiet(s: System, acts: seq<Action>) {
    NeverWraps(s, acts) && NoSwapSucceeds(s, acts)
  }

  lemma First(s: System, a: Action, acts: seq<Action>)
    ensures Exec(s, [a] + acts) == Exec(Do(s, a), acts)
    ensures IsQuiet(s, [a] + acts) <==> !WrapsCounter(s, a) && !SwapSucceeds(s, a) && IsQuiet(Do(s, a), acts)
  {
    hide Do;
    assert ([a] + acts)[1..] == acts;
  }

  /** With every port in use, a caller brings the counter up to any port ahead, and is back at the top. */
  lemma {:induction false} ClimbToPort(s: System, t: nat, p: uint16) returns (acts: seq<Action>)
    requires t in s.callers && s.callers[t].Top? && s.used == AllPorts()
    requires FIRST_PORT <= s.counter as int <= p as int
    ensures IsQuiet(s, acts) && Exec(s, acts) == s.(counter := p)
    decreases p - s.counter
  {
    if s.counter == p {
      acts := [];
    } else {
      var s1 := Do(s, Add(t));
      var s2 := Do(s1, Check(t));
      assert s2.callers == s.callers;
      var rest := ClimbToPort(s2, t, p);
      First(s1, Check(t), rest);
      First(s, Add(t), [Check(t)] + rest);
      acts := [Add(t)] + ([Check(t)] + rest);
    }
  }

  /** A port that is being checked, or was returned since the first `base`. */
  ghost predicate IsOut(s: System, base: nat, p: uint16) {
    SomeoneChecks(s, p) || exists i :: base <= i < |s.returned| && s.returned[i].0 == p
  }

  /** The caller at the top is given port `p`, and the others stay where they are. */
  lemma TakePort(s: System, t: nat, p: uint16) returns (acts: seq<Action>)
    requires t in s.callers && s.callers[t].Top? && FIRST_PORT <= s.counter as int <= p as int
    ensures IsQuiet(s, acts)
    ensures var s' := Exec(s, acts);
      s'.returned == s.returned + [(p, {})] && s'.callers == s.callers[t := Finished(p)] && s'.used == {}
  {
    var s1 := Do(s, TableChanges(AllPorts()));
    var climb := ClimbToPort(s1, t, p);
    var s2 := s1.(counter := p);
    var s3 := Do(s2, TableChanges({}));
    var s4 := Do(s3, Add(t));
    var s5 := Do(s4, Check(t));
    First(s4, Check(t), []);
    First(s3, Add(t), [Check(t)] + []);
    First(s2, TableChanges({}), [Add(t)] + ([Check(t)] + []));
    var last := [TableChanges({})] + ([Add(t)] + ([Check(t)] + []));
    Quietly(s1, climb, last);
    First(s, TableChanges(AllPorts()), climb + last);
    acts := [TableChanges(AllPorts())] + (climb + last);
    assert s5.callers == s.callers[t := Finished(p)];
  }

  lemma {:induction false} Quietly(s: System, a: seq<Action>, b: seq<Action>)
    requires IsQuiet(s, a) && IsQuiet(Exec(s, a), b)
    ensures IsQuiet(s, a + b) && Exec(s, a + b) == Exec(Exec(s, a), b)
    decreases |a|
  {
    hide Do;
    if a == [] {
      assert a + b == b;
    } else {
      Quietly(Do(s, a[0]), a[1..], b);
      First(s, a[0], a[1..] + b);
      assert a + b == [a[0]] + (a[1..] + b);
    }
  }

  /** A port that is out and not below the counter is returned to a new caller as well. */
  lemma OutIsReturnedAgain(s: System, base: nat, p: uint16) returns (acts: seq<Action>)
    requires base <= |s.returned| && IsOut(s, base, p) && FIRST_PORT <= s.counter as int <= p as int
    ensures IsQuiet(s, acts) && !ReturnedOnce(Exec(s, acts), base)
  {
    var t := FreshCaller(s.callers.Keys);
    var s1 := Do(s, Enter(t));
    var take := TakePort(s1, t, p);
    var s2, n := Exec(s1, take), |s.returned|;
    First(s, Enter(t), take);
    acts := [Enter(t)] + take;
    assert s2.returned[n].0 == p;
    if i :| base <= i < n && s.returned[i].0 == p {
      assert s2.returned[i].0 == p;
    } else {
      var u :| u in s.callers && s.callers[u] == Checking(p);
      var s3 := Do(s2, Check(u));
      First(s2, Check(u), []);
      Quietly(s, acts, [Check(u)] + []);
      acts := acts + ([Check(u)] + []);
      assert s3.returned[n].0 == p && s3.returned[n + 1].0 == p;
    }
  }

  /**
   After a step, no run without a wrap or a successful swap returns a port twice, exactly when
   the step was no successful swap made while a port above 49152 was out.
   */
  lemma OnceIffNothingOut(s: System, a: Action, base: nat)
    requires CheckedDiffer(s) && ReturnedDiffer(s, base) && !WrapsCounter(s, a)
    ensures (forall acts :: IsQuiet(Do(s, a), acts) ==> ReturnedOnce(Exec(Do(s, a), acts), base))
       <==> !(SwapSucceeds(s, a) && exists p: uint16 :: p as int > FIRST_PORT && IsOut(s, base, p))
  {
    var s' := Do(s, a);
    if SwapSucceeds(s, a) && exists p: uint16 :: p as int > FIRST_PORT && IsOut(s, base, p) {
      var p: uint16 :| p as int > FIRST_PORT && IsOut(s, base, p);
      StillOut(s, a, base, p);
      var acts := OutIsReturnedAgain(s', base, p);
    } else {
      if SwapSucceeds(s, a) {
        NothingOutDiffers(s, a, base);
      } else {
        DoKeepsChecked(s, a);
        DoKeepsReturned(s, a, base);
      }
      forall acts | IsQuiet(s', acts) ensures ReturnedOnce(Exec(s', acts), base) {
        RunKeepsDifferent(s', acts, base);
      }
    }
  }

  lemma StillOut(s: System, a: Action, base: nat, p: uint16)
    requires SwapSucceeds(s, a) && IsOut(s, base, p)
    ensures IsOut(Do(s, a), base, p) && Do(s, a).counter == FIRST_PORT + 1 && Do(s, a).returned == s.returned
  {
    var s' := Do(s, a);
    if SomeoneChecks(s, p) {
      var t :| t in s.callers && s.callers[t] == Checking(p);
      assert t in s'.callers && s'.callers[t] == Checking(p);
    }
  }

  lemma NothingOutDiffers(s: System, a: Action, base: nat)
    requires CheckedDiffer(s) && ReturnedDiffer(s, base) && SwapSucceeds(s, a)
    requires forall p: uint16 :: p as int > FIRST_PORT ==> !IsOut(s, base, p)
    ensures CheckedDiffer(Do(s, a)) && ReturnedDiffer(Do(s, a), base)
  {
    var s' := Do(s, a);
    forall t | t in s'.callers && s'.callers[t].Checking? ensures s'.callers[t].port < s'.counter {
      assert t in s.callers && s.callers[t] == Checking(s'.callers[t].port);
      assert IsOut(s, base, s'.callers[t].port);
    }
    forall i | base <= i < |s.returned|
      ensures s.returned[i].0 < s'.counter && !SomeoneChecks(s', s.returned[i].0)
    {
      assert IsOut(s, base, s.returned[i].0);
      assert !SomeoneChecks(s, s.returned[i].0);
    }
  }
}

/**
 Any number of callers inside EphemeralPort at once (internal/tcp/conn_table.go): the atomic
 Add, the atomic CompareAndSwap and the locked check of different callers interleave freely,
 and the table changes in between.
 */
module EphemeralCallers {
  import opened Bytes
  import opened EphemeralSearch

  /** Where a caller is: at the top of the loop, about to swap, about to check, or finished. */
  datatype Place = Top | Swapping(expected: uint32) | Checking(port: uint16) | Finished(port: uint16)

  /** `returned` records each port with the set of used ports at its check. */
  datatype System = System(
    counter: uint32, callers: map<nat, Place>, used: set<uint16>, returned: seq<(uint16, set<uint16>)>)

  datatype Action = Enter(t: nat) | Add(t: nat) | Swap(t: nat) | Check(t: nat) | TableChanges(used: set<uint16>)

  function Do(s: System, a: Action): System {
    match a
    case Enter(t) =>
      if t in s.callers && !s.callers[t].Finished? then s else s.(callers := s.callers[t := Top])
    case Add(t) =>
      if t !in s.callers || !s.callers[t].Top? then s
      else
        var port := s.counter;
        var next := Wrap32(s.counter + 1);
        s.(counter := next,
           callers := s.callers[t := if port > LAST_PORT then Swapping(next) else Checking(port)])
    case Swap(t) =>
      if t !in s.callers || !s.callers[t].Swapping? then s
      else
        s.(counter := if s.counter == s.callers[t].expected then FIRST_PORT + 1 else s.counter,
           callers := s.callers[t := Top])
    case Check(t) =>
      if t !in s.callers || !s.callers[t].Checking? then s
      else
        var p := s.callers[t].port;
        if p in s.used then s.(callers := s.callers[t := Top])
        else s.(callers := s.callers[t := Finished(p)], returned := s.returned + [(p, s.used)])
    case TableChanges(used) => s.(used := used)
  }

  function Exec(s: System, acts: seq<Action>): System
    decreases |acts|
  {
    if acts == [] then s else Exec(Do(s, acts[0]), acts[1..])
  }

  /** An addition that takes the counter past 2^32 - 1. */
  predicate WrapsCounter(s: System, a: Action) {
    a.Add? && a.t in s.callers && s.callers[a.t].Top? && s.counter == 0xFFFF_FFFF
  }

  predicate NeverWraps(s: System, acts: seq<Action>)
    decreases |acts|
  {
    acts == [] || (!WrapsCounter(s, acts[0]) && NeverWraps(Do(s, acts[0]), acts[1..]))
  }

  /** The additions of a run, those of callers that are elsewhere included. */
  function AddCount(acts: seq<Action>): nat {
    if acts == [] then 0 else (if acts[0].Add? then 1 else 0) + AddCount(acts[1..])
  }

  predicate Initial(s: System) {
    s.counter == FIRST_PORT && s.callers == map[] && s.returned == []
  }

  /** Some caller is about to swap, and will find the value it expects. */
  ghost predicate SwapPending(s: System) {
    exists t :: t in s.callers && s.callers[t] == Swapping(s.counter)
  }

  predicate IsPort(p: uint16) { FIRST_PORT <= p as int <= LAST_PORT }

  ghost predicate Inv(s: System) {
    && s.counter >= FIRST_PORT
    && (s.counter > LAST_PORT + 1 ==> SwapPending(s))
    && (forall t :: t in s.callers ==>
          match s.callers[t]
          case Checking(p) => IsPort(p)
          case Finished(p) => IsPort(p)
          case _ => true)
    && (forall i :: 0 <= i < |s.returned| ==> IsPort(s.returned[i].0) && s.returned[i].0 !in s.returned[i].1)
  }

  /** Every step but a wrap keeps the invariant, and a wrap never does. */
  lemma DoKeeps(s: System, a: Action)
    requires Inv(s)
    ensures Inv(Do(s, a)) <==> !WrapsCounter(s, a)
  {
    var s' := Do(s, a);
    if a.Add? && a.t in s.callers && s.callers[a.t].Top? {
      if s'.counter > LAST_PORT + 1 {
        assert a.t in s'.callers && s'.callers[a.t] == Swapping(s'.counter);
      }
    } else if s'.counter > LAST_PORT + 1 && !WrapsCounter(s, a) {
      var t :| t in s.callers && s.callers[t] == Swapping(s.counter);
      assert t in s'.callers && s'.callers[t] == Swapping(s'.counter);
    }
  }

  lemma {:induction false} EveryRun(s: System, acts: seq<Action>)
    requires Inv(s) && NeverWraps(s, acts)
    ensures Inv(Exec(s, acts))
    decreases |acts|
  {
    if acts != [] {
      DoKeeps(s, acts[0]);
      EveryRun(Do(s, acts[0]), acts[1..]);
    }
  }

  /**
   Every port returned is in range and was free at its check, and once the counter is past
   65536 some caller is about to swap with the value it expects: the return is never lost.
   */
  lemma ReturnedPorts(s: System, acts: seq<Action>)
    requires Initial(s) && NeverWraps(s, acts)
    ensures var s' := Exec(s, acts);
      && (forall i :: 0 <= i < |s'.returned| ==>
            IsPort(s'.returned[i].0) && s'.returned[i].0 !in s'.returned[i].1)
      && s'.counter as int >= FIRST_PORT
      && (s'.counter as int > LAST_PORT + 1 ==>
            exists t :: t in s'.callers && s'.callers[t] == Swapping(s'.counter))
  {
    assert Inv(s);
    EveryRun(s, acts);
  }

  /** Callers swap only past the last port, so a swap that succeeds moves the counter back. */
  ghost predicate SwapsAreHigh(s: System) {
    forall t :: t in s.callers && s.callers[t].Swapping? ==> s.callers[t].expected as int > LAST_PORT + 1
  }

  /** With fewer than 2^32 - counter additions to come, none of them wraps. */
  lemma {:induction false} FewAdditionsNeverWrap(s: System, acts: seq<Action>)
    requires SwapsAreHigh(s) && s.counter + AddCount(acts) < 0x1_0000_0000
    ensures NeverWraps(s, acts)
    decreases |acts|
  {
    if acts != [] {
      FewAdditionsNeverWrap(Do(s, acts[0]), acts[1..]);
    }
  }

  predicate PortsInRange(s: System) {
    forall i :: 0 <= i < |s.returned| ==> IsPort(s.returned[i].0)
  }

  ghost predicate CheckedInRange(s: System) {
    forall t :: t in s.callers && s.callers[t].Checking? ==> IsPort(s.callers[t].port)
  }

  /** With exactly 2^32 - counter additions to come only the last can wrap, and nobody takes what it leaves. */
  lemma {:induction false} FewAdditionsKeepRange(s: System, acts: seq<Action>)
    requires PortsInRange(s) && CheckedInRange(s)
    requires AddCount(acts) == 0 || (SwapsAreHigh(s) && FIRST_PORT <= s.counter as int)
    requires AddCount(acts) > 0 ==> s.counter + AddCount(acts) <= 0x1_0000_0000
    ensures PortsInRange(Exec(s, acts))
    decreases |acts|
  {
    if acts != [] {
      FewAdditionsKeepRange(Do(s, acts[0]), acts[1..]);
    }
  }

  /** What a caller can check beforehand: with at most 2^32 - 49152 additions every port is in range. */
  lemma FewAdditionsInRange(s: System, acts: seq<Action>)
    requires Initial(s) && AddCount(acts) <= 0x1_0000_0000 - FIRST_PORT
    ensures PortsInRange(Exec(s, acts))
    ensures AddCount(acts) < 0x1_0000_0000 - FIRST_PORT ==> NeverWraps(s, acts)
  {
    FewAdditionsKeepRange(s, acts);
    if AddCount(acts) < 0x1_0000_0000 - FIRST_PORT {
      FewAdditionsNeverWrap(s, acts);
    }
  }

  // ---------------------------------------------------------------------------
  // Between two swaps that succeed no port is given twice
  // ---------------------------------------------------------------------------

  predicate SwapSucceeds(s: System, a: Action) {
    a.Swap? && a.t in s.callers && s.callers[a.t] == Swapping(s.counter)
  }

  predicate NoSwapSucceeds(s: System, acts: seq<Action>)
    decreases |acts|
  {
    acts == [] || (!SwapSucceeds(s, acts[0]) && NoSwapSucceeds(Do(s, acts[0]), acts[1..]))
  }

  /** The addition by which a caller takes port `p`. */
  predicate Takes(s: System, a: Action, p: uint16) {
    a.Add? && a.t in s.callers && s.callers[a.t].Top? && s.counter == p
  }

  lemma {:induction false} CounterGrows(s: System, acts: seq<Action>)
    requires NeverWraps(s, acts) && NoSwapSucceeds(s, acts)
    ensures Exec(s, acts).counter >= s.counter
    decreases |acts|
  {
    if acts != [] {
      CounterGrows(Do(s, acts[0]), acts[1..]);
    }
  }

  /** Two additions take the same port only if a swap succeeded between them. */
  lemma SamePortNeedsSwap(s: System, a: Action, between: seq<Action>, b: Action, p: uint16)
    requires Takes(s, a, p) && NeverWraps(Do(s, a), between) && Takes(Exec(Do(s, a), between), b, p)
    ensures !NoSwapSucceeds(Do(s, a), between)
  {
    if NoSwapSucceeds(Do(s, a), between) {
      CounterGrows(Do(s, a), between);
    }
  }

  /** The ports being checked are below the counter and differ. */
  ghost predicate CheckedDiffer(s: System) {
    && (forall t :: t in s.callers && s.callers[t].Checking? ==> s.callers[t].port < s.counter)
    && (forall t, u :: (t in s.callers && u in s.callers && t != u
          && s.callers[t].Checking? && s.callers[u].Checking?) ==> s.callers[t].port != s.callers[u].port)
  }

  /** So are those returned since the first `base`, and they differ from those being checked. */
  ghost predicate ReturnedDiffer(s: System, base: nat) {
    && base <= |s.returned|
    && (forall i :: base <= i < |s.returned| ==>
          s.returned[i].0 < s.counter && !SomeoneChecks(s, s.returned[i].0))
    && (forall i, j :: base <= i < j < |s.returned| ==> s.returned[i].0 != s.returned[j].0)
  }

  ghost predicate SomeoneChecks(s: System, p: uint16) {
    exists t :: t in s.callers && s.callers[t] == Checking(p)
  }

  lemma DoKeepsChecked(s: System, a: Action)
    requires CheckedDiffer(s) && !WrapsCounter(s, a) && !SwapSucceeds(s, a)
    ensures CheckedDiffer(Do(s, a))
  {
  }

  lemma DoKeepsReturned(s: System, a: Action, base: nat)
    requires CheckedDiffer(s) && ReturnedDiffer(s, base) && !WrapsCounter(s, a) && !SwapSucceeds(s, a)
    ensures ReturnedDiffer(Do(s, a), base)
  {
    var s' := Do(s, a);
    forall p: uint16 | SomeoneChecks(s', p) ensures SomeoneChecks(s, p) || p as int == s.counter {
      var t :| t in s'.callers && s'.callers[t] == Checking(p);
      assert (t in s.callers && s.callers[t] == Checking(p)) || (a == Add(t) && p as int == s.counter);
    }
    if a.Check? && a.t in s.callers && s.callers[a.t].Checking? {
      assert SomeoneChecks(s, s.callers[a.t].port);
      assert !SomeoneChecks(s', s.callers[a.t].port);
    }
  }

  lemma {:induction false} RunKeepsDifferent(s: System, acts: seq<Action>, base: nat)
    requires CheckedDiffer(s) && ReturnedDiffer(s, base) && NeverWraps(s, acts) && NoSwapSucceeds(s, acts)
    ensures ReturnedDiffer(Exec(s, acts), base)
    decreases |acts|
  {
    hide CheckedDiffer, ReturnedDiffer;
    if acts != [] {
      DoKeepsChecked(s, acts[0]);
      DoKeepsReturned(s, acts[0], base);
      RunKeepsDifferent(Do(s, acts[0]), acts[1..], base);
    }
  }

  /** Ports that are both taken and returned in a run without a successful swap are pairwise distinct. */
  lemma NoSwapNoRepeat(s: System, acts: seq<Action>)
    requires NeverWraps(s, acts) && NoSwapSucceeds(s, acts)
    requires forall t :: t in s.callers ==> !s.callers[t].Checking?
    ensures var r := Exec(s, acts).returned;
      |s.returned| <= |r| && forall i, j :: |s.returned| <= i < j < |r| ==> r[i].0 != r[j].0
  {
    RunKeepsDifferent(s, acts, |s.returned|);
  }

  /** No port was returned twice since the first `base`. */
  ghost predicate ReturnedOnce(s: System, base: nat) {
    forall i, j :: base <= i < j < |s.returned| ==> s.returned[i].0 != s.returned[j].0
  }

  /** Ports being checked or returned since the first `base` differ, wherever the counter is. */
  ghost predicate Apart(s: System, base: nat) {
    && base <= |s.returned|
    && (forall t, u :: (t in s.callers && u in s.callers && t != u
          && s.callers[t].Checking? && s.callers[u].Checking?) ==> s.callers[t].port != s.callers[u].port)
    && (forall i :: base <= i < |s.returned| ==> !SomeoneChecks(s, s.returned[i].0))
    && ReturnedOnce(s, base)
  }

  /** Without additions they stay apart, whatever swaps succeed. */
  lemma DoKeepsApart(s: System, a: Action, base: nat)
    requires Apart(s, base) && !a.Add?
    ensures Apart(Do(s, a), base)
  {
    var s' := Do(s, a);
    forall p: uint16 | SomeoneChecks(s', p) ensures SomeoneChecks(s, p) {
      var t :| t in s'.callers && s'.callers[t] == Checking(p);
      assert t in s.callers && s.callers[t] == Checking(p);
    }
    if a.Check? && a.t in s.callers && s.callers[a.t].Checking? {
      assert SomeoneChecks(s, s.callers[a.t].port);
      assert !SomeoneChecks(s', s.callers[a.t].port);
    }
  }

  lemma {:induction false} NoAdditionsKeepApart(s: System, acts: seq<Action>, base: nat)
    requires Apart(s, base) && AddCount(acts) == 0
    ensures ReturnedOnce(Exec(s, acts), base)
    decreases |acts|
  {
    hide Do;
    if acts != [] {
      DoKeepsApart(s, acts[0], base);
      NoAdditionsKeepApart(Do(s, acts[0]), acts[1..], base);
    }
  }

  lemma DoKeepsHigh(s: System, a: Action)
    requires SwapsAreHigh(s) && !WrapsCounter(s, a)
    ensures SwapsAreHigh(Do(s, a))
    ensures !SwapSucceeds(s, a) ==> Do(s, a).counter == s.counter || (a.Add? && Do(s, a).counter == s.counter + 1)
  {
  }

  /** With 65537 - counter additions to come a swap can only succeed after the last of them. */
  lemma {:induction false} FewAdditionsKeepOnce(s: System, acts: seq<Action>, base: nat)
    requires SwapsAreHigh(s) && CheckedDiffer(s) && ReturnedDiffer(s, base)
    requires s.counter + AddCount(acts) <= LAST_PORT + 2
    ensures ReturnedOnce(Exec(s, acts), base)
    decreases |acts|
  {
    hide Do, Apart;
    if acts != [] {
      if SwapSucceeds(s, acts[0]) {
        DifferAreApart(s, base);
        NoAdditionsKeepApart(s, acts, base);
      } else {
        DoKeepsHigh(s, acts[0]);
        DoKeepsChecked(s, acts[0]);
        DoKeepsReturned(s, acts[0], base);
        FewAdditionsKeepOnce(Do(s, acts[0]), acts[1..], base);
      }
    }
  }

  lemma DifferAreApart(s: System, base: nat)
    requires CheckedDiffer(s) && ReturnedDiffer(s, base)
    ensures Apart(s, base)
  {
  }

  /** What a caller can check beforehand: with at most 16385 additions no port is returned twice. */
  lemma FewAdditionsNoRepeat(s: System, acts: seq<Action>)
    requires Initial(s) && AddCount(acts) <= LAST_PORT + 2 - FIRST_PORT
    ensures ReturnedOnce(Exec(s, acts), 0)
  {
    FewAdditionsKeepOnce(s, acts, 0);
  }

  /** And with at most 16384 no swap succeeds. */
  lemma FewAdditionsNoSwap(s: System, acts: seq<Action>)
    requires Initial(s) && AddCount(acts) <= LAST_PORT + 1 - FIRST_PORT
    ensures NoSwapSucceeds(s, acts)
  {
    LowCounterNoSwap(s, acts);
  }

  lemma {:induction false} LowCounterNoSwap(s: System, acts: seq<Action>)
    requires SwapsAreHigh(s) && s.counter + AddCount(acts) <= LAST_PORT + 1
    ensures NoSwapSucceeds(s, acts)
    decreases |acts|
  {
    hide Do;
    if acts != [] {
      DoKeepsHigh(s, acts[0]);
      LowCounterNoSwap(Do(s, acts[0]), acts[1..]);
    }
  }

  // ---------------------------------------------------------------------------

  /** A caller alone goes through the turns of EphemeralSearch, one addition and one more step each. */
  lemma TurnIsTwoSteps(s: System, t: nat)
    requires t in s.callers && s.callers[t].Top? && InRange(s.counter)
    ensures var (next, port) := Turn(s.counter, s.used);
      var s' := Do(Do(s, Add(t)), if s.counter as int > LAST_PORT then Swap(t) else Check(t));
      && s'.counter == next
      && s'.callers == s.callers[t := if port.Some? then Finished(port.value) else Top]
      && s'.returned == if port.Some? then s.returned + [(port.value, s.used)] else s.returned
  {
    var s1 := Do(s, Add(t));
    assert s1.callers.Keys == s.callers.Keys;
  }
}

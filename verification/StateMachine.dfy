/** The TCP state machine (internal/tcp/state.go). */
module StateMachine {
  datatype TCPState =
    | Closed | Listen | SynSent | SynReceived | Established
    | FinWait1 | FinWait2 | CloseWait | Closing | LastAck | TimeWait

  /** The table of valid transitions. */
  function Allowed(from: TCPState): seq<TCPState> {
    match from
    case Closed => [Listen, SynSent]
    case Listen => [SynReceived, SynSent, Closed]
    case SynSent => [SynReceived, Established, Closed]
    case SynReceived => [Established, FinWait1, Closed]
    case Established => [FinWait1, CloseWait, Closed]
    case FinWait1 => [FinWait2, Closing, TimeWait, Closed]
    case FinWait2 => [TimeWait, Closed]
    case CloseWait => [LastAck, Closed]
    case Closing => [TimeWait, Closed]
    case LastAck => [Closed]
    case TimeWait => [Closed]
  }

  /**
   The same table by cause: the handshake (section 3.5 of RFC 9293), the close (section 3.6),
   and an abort, which leads to CLOSED from every other state.
   */
  lemma TableByCause(from: TCPState, to: TCPState)
    ensures to in Allowed(from)
       <==> (from, to) in {(Closed, Listen), (Closed, SynSent), (Listen, SynReceived), (Listen, SynSent),
                           (SynSent, SynReceived), (SynSent, Established), (SynReceived, Established)}
            || (from, to) in {(SynReceived, FinWait1), (Established, FinWait1), (Established, CloseWait),
                              (FinWait1, FinWait2), (FinWait1, Closing), (FinWait1, TimeWait),
                              (FinWait2, TimeWait), (CloseWait, LastAck), (Closing, TimeWait)}
            || (to == Closed && from != Closed)
  {
  }

  /** The calls of the transition callback form a path of valid transitions. */
  ghost predicate IsPath(path: seq<TCPState>) {
    path != [] && forall i :: 0 <= i < |path| - 1 ==> path[i + 1] in Allowed(path[i])
  }

  class Machine {
    var current: TCPState
    /** Every state so far, first to last. */
    ghost var path: seq<TCPState>

    ghost predicate Valid()
      reads this
    {
      IsPath(path) && path[|path| - 1] == current
    }

    constructor (initial: TCPState)
      ensures Valid() && current == initial && path == [initial]
    {
      current := initial;
      path := [initial];
    }

    method Transition(to: TCPState) returns (ok: bool)
      requires Valid()
      modifies this
      ensures Valid()
      ensures ok <==> to in Allowed(old(current))
      ensures current == if ok then to else old(current)
      ensures path == if ok then old(path) + [to] else old(path)
    {
      hide Allowed;
      var allowed := Allowed(current);
      var valid := false;
      for i := 0 to |allowed|
        invariant valid <==> to in allowed[..i]
      {
        if allowed[i] == to {
          valid := true;
          break;
        }
      }
      assert allowed[..|allowed|] == allowed;
      if !valid {
        return false;
      }
      current := to;
      path := path + [to];
      ok := true;
    }
  }
}

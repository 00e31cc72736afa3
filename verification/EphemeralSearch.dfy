/** The search order of ephemeral ports, and when the search ends (internal/tcp/conn_table.go). */
module EphemeralSearch {
  import opened Bytes

  const FIRST_PORT := 49152
  const LAST_PORT := 65535

  /** The search visits `p` from counter value `c`: after a wrap it resumes at 49153, not 49152. */
  predicate Visits(c: int, p: int) {
    FIRST_PORT <= p <= LAST_PORT && (p >= c || p > FIRST_PORT)
  }

  /** How many turns of the loop come before the one that looks at `p`; the wrap takes a turn. */
  function Distance(c: int, p: int): int {
    if p >= c then p - c else (LAST_PORT + 2 - c) + (p - (FIRST_PORT + 1))
  }

  predicate InRange(c: int) {
    FIRST_PORT <= c <= LAST_PORT + 1
  }

  /** One turn of the loop for a single caller: the counter after it, and the port if one is returned. */
  function Turn(c: uint32, used: set<uint16>): (uint32, Option<uint16>) {
    if c > LAST_PORT then (FIRST_PORT + 1, None)
    else (c + 1, if c !in used then Some(c) else None)
  }

  /** The port returned within `n` turns. */
  function Search(c: uint32, used: set<uint16>, n: nat): Option<uint16>
    decreases n
  {
    if n == 0 then None
    else
      var (next, port) := Turn(c, used);
      if port.Some? then port else Search(next, used, n - 1)
  }

  /** The nearest free port in the search order. */
  ghost predicate IsNearest(c: int, used: set<uint16>, p: uint16) {
    && Visits(c, p) && p !in used
    && forall q: uint16 :: Visits(c, q) && q !in used ==> Distance(c, p) <= Distance(c, q)
  }

  /** A turn that returns nothing brings every free port one turn nearer. */
  lemma TurnApproaches(c: uint32, used: set<uint16>, q: uint16)
    requires InRange(c) && Visits(c, q) && q !in used && Turn(c, used).1.None?
    ensures var next := Turn(c, used).0;
      InRange(next) && Visits(next, q) && Distance(c, q) == 1 + Distance(next, q)
  {
  }

  lemma {:induction false} SearchFinds(c: uint32, used: set<uint16>, p: uint16, n: nat)
    requires InRange(c) && Visits(c, p) && p !in used && n > Distance(c, p)
    ensures Search(c, used, n).Some? && IsNearest(c, used, Search(c, used, n).value)
    decreases n
  {
    var (next, port) := Turn(c, used);
    if port.None? {
      TurnApproaches(c, used, p);
      SearchFinds(next, used, p, n - 1);
      var r := Search(next, used, n - 1).value;
      VisitsBack(c, used, r);
      forall q: uint16 | Visits(c, q) && q !in used ensures Distance(c, r) <= Distance(c, q) {
        TurnApproaches(c, used, q);
      }
      TurnApproaches(c, used, r);
    }
  }

  lemma VisitsBack(c: uint32, used: set<uint16>, q: uint16)
    requires InRange(c) && Turn(c, used).1.None? && Visits(Turn(c, used).0, q)
    ensures Visits(c, q)
  {
  }

  lemma {:induction false} SearchFindsOnlyVisited(c: uint32, used: set<uint16>, n: nat)
    requires InRange(c) && Search(c, used, n).Some?
    ensures Visits(c, Search(c, used, n).value) && Search(c, used, n).value !in used
    decreases n
  {
    var (next, port) := Turn(c, used);
    if port.None? {
      SearchFindsOnlyVisited(next, used, n - 1);
      VisitsBack(c, used, Search(next, used, n - 1).value);
    }
  }

  /** The loop ends exactly when a free port lies in its way; port 49152 alone does not do after a wrap. */
  lemma SearchEndsIff(c: uint32, used: set<uint16>)
    requires InRange(c)
    ensures (exists n: nat :: Search(c, used, n).Some?) <==> exists p: uint16 :: Visits(c, p) && p !in used
  {
    if n: nat :| Search(c, used, n).Some? {
      SearchFindsOnlyVisited(c, used, n);
    }
    if p: uint16 :| Visits(c, p) && p !in used {
      SearchFinds(c, used, p, Distance(c, p) + 1);
    }
  }

  predicate IsAboveFirst(p: uint16) { p as int > FIRST_PORT }

  /** A table in which port 49152 is free and every port above it in use. */
  function AllAboveFirst(): (used: set<uint16>)
    ensures (FIRST_PORT as uint16) !in used
  {
    set p: uint16 | IsAboveFirst(p)
  }

  /** After a wrap, with that table, the search never ends. */
  lemma OnlyFirstPortFree(n: nat)
    ensures Search(FIRST_PORT + 1, AllAboveFirst(), n) == None
  {
    if Search(FIRST_PORT + 1, AllAboveFirst(), n).Some? {
      SearchFindsOnlyVisited(FIRST_PORT + 1, AllAboveFirst(), n);
    }
  }
}

/** The connection table (internal/tcp/conn_table.go). */
module ConnTable {
  import opened Bytes
  import opened Connection
  import opened EphemeralSearch

  class Listener {
    const port: uint16

    constructor (port: uint16)
      ensures this.port == port
    {
      this.port := port;
    }
  }

  class ConnectionTable {
    var conns: map<ConnKey, TCPConn>
    var listeners: map<uint16, Listener>
    var ephemeralPort: uint32

    /** The counter's range between calls of a single caller at a time. */
    predicate Valid()
      reads this
    {
      InRange(ephemeralPort)
    }

    constructor ()
      ensures Valid() && Used() == {} && ephemeralPort == 49152
    {
      conns, listeners := map[], map[];
      ephemeralPort := 49152;
    }

    /** The ports of listeners and the local ports of connections. */
    ghost function Used(): set<uint16>
      reads this
    {
      listeners.Keys + set k | k in conns :: k.srcPort
    }

    method Register(conn: TCPConn) returns (ok: bool)
      modifies this`conns
      ensures ok <==> conn.key !in old(conns)
      ensures conns == if ok then old(conns)[conn.key := conn] else old(conns)
      ensures ok ==> Used() == old(Used()) + {conn.key.srcPort}
    {
      if conn.key in conns {
        return false;
      }
      conns := conns[conn.key := conn];
      ok := true;
    }

    method RegisterListener(port: uint16, l: Listener) returns (ok: bool)
      modifies this`listeners
      ensures ok <==> port !in old(listeners)
      ensures listeners == if ok then old(listeners)[port := l] else old(listeners)
      ensures ok ==> Used() == old(Used()) + {port}
    {
      if port in listeners {
        return false;
      }
      listeners := listeners[port := l];
      ok := true;
    }

    /** The locked part of the loop: is the port in use? */
    method InUse(p: uint16) returns (inUse: bool)
      ensures inUse <==> p in Used()
    {
      var listenerExists := p in listeners;
      var connExists := false;
      var remaining := conns.Keys;
      while remaining != {}
        invariant remaining <= conns.Keys
        invariant !connExists && forall k :: k in conns && k !in remaining ==> k.srcPort != p
        decreases |remaining|
      {
        var k :| k in remaining;
        if k.srcPort == p {
          connExists := true;
          break;
        }
        remaining := remaining - {k};
      }
      inUse := listenerExists || connExists;
    }

    /** One turn of the loop, whatever the counter and the table: the port to return, if there is one. */
    method TakeTurn() returns (port: Option<uint16>)
      modifies this`ephemeralPort
      ensures (ephemeralPort, port) == Turn(old(ephemeralPort), Used())
    {
      ephemeralPort := Wrap32(ephemeralPort as int + 1);
      var p := Wrap32(ephemeralPort as int + 0xFFFF_FFFF);
      if p > 65535 {
        // CompareAndSwap(p + 1, 49152 + 1)
        if ephemeralPort == Wrap32(p as int + 1) {
          ephemeralPort := 49152 + 1;
        }
        return None;
      }
      var inUse := InUse(p);
      port := if inUse then None else Some(p);
    }

    /** Terminates whenever the search order contains a free port, and returns the nearest one. */
    method EphemeralPort() returns (port: uint16)
      requires Valid()
      requires exists p: uint16 :: Visits(ephemeralPort, p) && p !in Used()
      modifies this`ephemeralPort
      ensures Valid() && ephemeralPort == port as int + 1
      ensures IsNearest(old(ephemeralPort), Used(), port)
    {
      hide Distance, Visits;
      ghost var start, used := ephemeralPort, Used();
      ghost var goal: uint16 :| Visits(start, goal) && goal !in used;
      ghost var turns := 0;
      while true
        invariant Valid() && Used() == used
        invariant forall q: uint16 :: Visits(start, q) && q !in used ==>
                    Visits(ephemeralPort, q) && Distance(start, q) == turns + Distance(ephemeralPort, q)
        invariant forall q: uint16 :: q !in used && Visits(ephemeralPort, q) ==> Visits(start, q)
        decreases Distance(ephemeralPort, goal)
      {
        ghost var c := ephemeralPort;
        var found := TakeTurn();
        if found.Some? {
          AtHand(c);
          return found.value;
        }
        Approach(c, used);
        turns := turns + 1;
      }
    }
  }

  lemma Approach(c: uint32, used: set<uint16>)
    requires InRange(c) && Turn(c, used).1.None?
    ensures var next := Turn(c, used).0;
      && InRange(next)
      && (forall q: uint16 :: q !in used && Visits(c, q) ==>
            Visits(next, q) && Distance(c, q) == 1 + Distance(next, q) && Distance(next, q) >= 0)
      && (forall q: uint16 :: q !in used && Visits(next, q) ==> Visits(c, q))
  {
  }

  lemma AtHand(c: uint32)
    requires InRange(c) && c <= 65535
    ensures Visits(c, c) && Distance(c, c) == 0
    ensures forall q: uint16 :: Visits(c, q) ==> Distance(c, q) >= 0
  {
  }
}

/**
 * The connection table: uip_connect, demultiplexing and passive opens
 * (uip/uip.c:407-468, 703-710, 1185-1357).
 */
module ConnTable {
  import opened Bytes
  import opened Tcp
  import opened Words
  import TcpRuns

  const FIRST_PORT: nat := 4096
  const PORT_LIMIT: nat := 32000

  /** A table entry: the connection and its addressing fields, ports in network byte order. */
  datatype Slot = Slot(conn: Conn, lport: u16, rport: u16, ripaddr: Ip)

  predicate Open(s: Slot) { s.conn.state != Closed }

  predicate Matches(s: Slot, lport: u16, rport: u16, ripaddr: Ip)
  {
    Open(s) && s.lport == lport && s.rport == rport && s.ripaddr == ripaddr
  }

  /** No two connections in use share local port, remote port and remote address. */
  predicate Unique(t: seq<Slot>)
  {
    forall i, j :: 0 <= i < j < |t| && Open(t[i]) ==> !Matches(t[j], t[i].lport, t[i].rport, t[i].ripaddr)
  }

  // ---- The port search ----

  function NextPort(p: u16): u16
    requires p < PORT_LIMIT
  {
    if p + 1 >= PORT_LIMIT then FIRST_PORT else p + 1
  }

  /** The k-th candidate after `start`, for searches shorter than one round. */
  function Candidate(start: u16, k: nat): nat
    requires start < PORT_LIMIT && k <= PORT_LIMIT - FIRST_PORT
  {
    if start + k < PORT_LIMIT then start + k else start + k - (PORT_LIMIT - FIRST_PORT)
  }

  predicate PortInUse(t: seq<Slot>, port: u16)
  {
    exists i :: 0 <= i < |t| && Open(t[i]) && t[i].lport == Htons(port)
  }

  ghost function UsedPorts(t: seq<Slot>): (s: set<u16>)
    ensures |s| <= |t|
    ensures forall i :: 0 <= i < |t| && Open(t[i]) ==> t[i].lport in s
  {
    if t == [] then {} else
      var s := UsedPorts(t[1..]);
      assert forall i :: 1 <= i < |t| ==> t[i] == t[1..][i - 1];
      if Open(t[0]) then s + {t[0].lport} else s
  }

  lemma HtonsInjective(x: u16, y: u16)
    requires Htons(x) == Htons(y)
    ensures x == y
  {
    assert x % 256 == Htons(x) / 256 && x / 256 == Htons(x) % 256;
    assert y % 256 == Htons(y) / 256 && y / 256 == Htons(y) % 256;
  }

  /** The first `n` candidates, as they are compared with the table. */
  ghost function Tried(start: u16, n: nat): (s: set<u16>)
    requires start < PORT_LIMIT && n <= PORT_LIMIT - FIRST_PORT
  {
    if n == 0 then {} else Tried(start, n - 1) + {Htons(Candidate(start, n))}
  }

  /** Candidates of one round are distinct. */
  lemma {:induction false} TriedDistinct(start: u16, n: nat, m: nat)
    requires start < PORT_LIMIT && n < m <= PORT_LIMIT - FIRST_PORT
    ensures Htons(Candidate(start, m)) !in Tried(start, n) && |Tried(start, n)| == n
  {
    if n > 0 {
      TriedDistinct(start, n - 1, m);
      TriedDistinct(start, n - 1, n);
      if Htons(Candidate(start, m)) == Htons(Candidate(start, n)) {
        HtonsInjective(Candidate(start, m), Candidate(start, n));
      }
    }
  }

  lemma {:induction false} TriedAreUsed(t: seq<Slot>, start: u16, n: nat)
    requires start < PORT_LIMIT && n <= PORT_LIMIT - FIRST_PORT
    requires forall k :: 1 <= k <= n ==> PortInUse(t, Candidate(start, k))
    ensures Tried(start, n) <= UsedPorts(t)
  {
    if n > 0 {
      TriedAreUsed(t, start, n - 1);
      var i :| 0 <= i < |t| && Open(t[i]) && t[i].lport == Htons(Candidate(start, n));
    }
  }

  /** The pigeonhole step: no more candidates in a row are in use than there are connections. */
  lemma SearchBound(t: seq<Slot>, start: u16, n: nat)
    requires start < PORT_LIMIT && n < PORT_LIMIT - FIRST_PORT
    requires forall k :: 1 <= k <= n ==> PortInUse(t, Candidate(start, k))
    ensures n <= |t|
  {
    TriedAreUsed(t, start, n);
    TriedDistinct(start, n, n + 1);
    SubsetSize(Tried(start, n), UsedPorts(t));
  }

  // ---- The choice of a table entry ----

  /** The entry taken for a new connection: the first CLOSED one, else the oldest in TIME_WAIT. */
  predicate Chosen(t: seq<Slot>, i: nat)
  {
    && i < |t|
    && (|| (!Open(t[i]) && forall j :: 0 <= j < i ==> Open(t[j]))
        || (&& t[i].conn.state == TimeWait
            && (forall j :: 0 <= j < |t| ==> Open(t[j]))
            && (forall j :: 0 <= j < |t| && t[j].conn.state == TimeWait ==> t[j].conn.timer <= t[i].conn.timer)
            && (forall j :: 0 <= j < i && t[j].conn.state == TimeWait ==> t[j].conn.timer < t[i].conn.timer)))
  }

  predicate Full(t: seq<Slot>)
  {
    forall j :: 0 <= j < |t| ==> Open(t[j]) && t[j].conn.state != TimeWait
  }

  datatype Outcome = Found(i: nat) | Accepted(i: nat) | Refused | NoRoom

  class Table {
    const conns: array<Slot>
    const listenports: array<u16>
    const iss: array<byte>
    var lastport: u16

    ghost predicate Valid()
      reads this, conns
    {
      0 < conns.Length < 256 && lastport < PORT_LIMIT && iss.Length == 4 && Unique(conns[..])
    }

    /** uip_init, on `n` zeroed connections and `m` listening ports. */
    constructor (n: nat, m: nat)
      requires 0 < n < 256
      ensures Valid() && fresh(conns) && fresh(listenports) && fresh(iss)
      ensures conns.Length == n && listenports.Length == m && lastport == 1024
      ensures forall j :: 0 <= j < n ==> conns[j].conn.state == Closed && TcpRuns.Inv(conns[j].conn)
    {
      conns := new Slot[n](_ => Slot(Conn(Closed, 0, 0, 0, 0, 0, 0, 0, 0, 0, 0), 0, 0, Ip(0, 0)));
      listenports := new u16[m](_ => 0);
      iss := new byte[4](_ => 0);
      lastport := 1024;
    }

    /** The advance of the initial sequence number on every UIP_TIMER event. */
    method AdvanceIss()
      requires Valid()
      modifies iss
      ensures Be32(iss[..]) == Plus32(old(Be32(iss[..])), 1)
    {
      Increment(iss, 0);
    }

    /** The loop from `again:`; at most one candidate more than there are connections is tried. */
    method FindPort() returns (tries: nat)
      requires Valid()
      modifies `lastport
      ensures tries <= conns.Length
      ensures lastport == Candidate(old(lastport), tries + 1) && lastport < PORT_LIMIT
      ensures !PortInUse(conns[..], lastport)
      ensures forall k :: 1 <= k <= tries ==> PortInUse(conns[..], Candidate(old(lastport), k))
    {
      ghost var start := lastport;
      tries := 0;
      lastport := NextPort(lastport);
      var used := InUse(lastport);
      while used
        invariant tries <= conns.Length && lastport == Candidate(start, tries + 1) && lastport < PORT_LIMIT
        invariant used <==> PortInUse(conns[..], lastport)
        invariant forall k :: 1 <= k <= tries ==> PortInUse(conns[..], Candidate(start, k))
        decreases conns.Length - tries
      {
        tries := tries + 1;
        SearchBound(conns[..], start, tries);
        lastport := NextPort(lastport);
        used := InUse(lastport);
      }
    }

    /** Whether some connection in use has the port. */
    method InUse(port: u16) returns (used: bool)
      ensures used <==> PortInUse(conns[..], port)
    {
      var c := 0;
      while c < conns.Length
        invariant 0 <= c <= conns.Length
        invariant forall j :: 0 <= j < c ==> !(Open(conns[j]) && conns[j].lport == Htons(port))
      {
        if conns[c].conn.state != Closed && conns[c].lport == Htons(port) {
          assert Open(conns[..][c]);
          return true;
        }
        c := c + 1;
      }
      return false;
    }

    /** The loop that looks for an unused entry. */
    method FindSlot() returns (i: nat)
      requires Valid()
      ensures i <= conns.Length
      ensures i < conns.Length ==> Chosen(conns[..], i)
      ensures i == conns.Length ==> Full(conns[..])
    {
      i := conns.Length;
      var c := 0;
      while c < conns.Length
        invariant 0 <= c <= conns.Length && (i < c || i == conns.Length)
        invariant forall j :: 0 <= j < c ==> Open(conns[j])
        invariant i == conns.Length ==> forall j :: 0 <= j < c ==> conns[j].conn.state != TimeWait
        invariant i < c ==> conns[i].conn.state == TimeWait
        invariant i < c ==> forall j :: 0 <= j < c && conns[j].conn.state == TimeWait ==> conns[j].conn.timer <= conns[i].conn.timer
        invariant i < c ==> forall j :: 0 <= j < i && conns[j].conn.state == TimeWait ==> conns[j].conn.timer < conns[i].conn.timer
      {
        if conns[c].conn.state == Closed {
          return c;
        }
        if conns[c].conn.state == TimeWait {
          if i == conns.Length || conns[c].conn.timer > conns[i].conn.timer {
            i := c;
          }
        }
        c := c + 1;
      }
    }

    /** uip_connect: the index of the new connection, or None. */
    method Connect(ripaddr: Ip, rport: u16) returns (r: Option<nat>)
      requires Valid()
      modifies `lastport, conns
      ensures Valid()
      ensures !PortInUse(old(conns[..]), lastport)
      ensures ConnectResult(old(conns[..]), Be32(iss[..]), Htons(lastport), rport, ripaddr, r, conns[..])
    {
      ghost var t := conns[..];
      var tries := FindPort();
      var i := FindSlot();
      if i == conns.Length {
        return None;
      }
      conns[i] := Slot(ActiveOpen(conns[i].conn, Be32(iss[..])), Htons(lastport), rport, ripaddr);
      assert conns[..] == t[i := conns[i]];
      NewIsUnique(t, i, conns[i]);
      r := Some(i);
    }

    /** The demultiplexing of a segment, and the passive open of a connection for a SYN. */
    method Receive(lport: u16, rport: u16, ripaddr: Ip, s: Segment) returns (o: Outcome)
      requires Valid()
      modifies conns
      ensures Valid()
      ensures ReceiveResult(old(conns[..]), listenports[..], Be32(iss[..]), lport, rport, ripaddr, s, o, conns[..])
    {
      ghost var t := conns[..];
      var i := 0;
      while i < conns.Length
        invariant 0 <= i <= conns.Length && conns[..] == t
        invariant forall j :: 0 <= j < i ==> !Matches(t[j], lport, rport, ripaddr)
      {
        if conns[i].conn.state != Closed && lport == conns[i].lport && rport == conns[i].rport
          && ripaddr == conns[i].ripaddr
        {
          return Found(i);
        }
        i := i + 1;
      }
      if s.ctl != SYN {
        return Refused;
      }
      var c := 0;
      while c < listenports.Length
        invariant 0 <= c <= listenports.Length && lport !in listenports[..c]
      {
        if lport == listenports[c] {
          i := FindSlot();
          if i == conns.Length {
            return NoRoom;
          }
          conns[i] := Slot(PassiveOpen(conns[i].conn, s, Be32(iss[..])).conn, lport, rport, ripaddr);
          assert conns[..] == t[i := conns[i]];
          NewIsUnique(t, i, conns[i]);
          return Accepted(i);
        }
        c := c + 1;
      }
      return Refused;
    }
  }

  ghost predicate ConnectResult(t: seq<Slot>, iss: u32, lport: u16, rport: u16, ripaddr: Ip, r: Option<nat>, u: seq<Slot>)
  {
    match r
    case None => Full(t) && u == t
    case Some(i) => Chosen(t, i) && u == t[i := Slot(ActiveOpen(t[i].conn, iss), lport, rport, ripaddr)]
  }

  ghost predicate ReceiveResult(t: seq<Slot>, listening: seq<u16>, iss: u32, lport: u16, rport: u16, ripaddr: Ip,
                           s: Segment, o: Outcome, u: seq<Slot>)
  {
    var known := exists j :: 0 <= j < |t| && Matches(t[j], lport, rport, ripaddr);
    match o
    case Found(i) => i < |t| && Matches(t[i], lport, rport, ripaddr) && u == t
    case Refused => !known && (s.ctl != SYN || lport !in listening) && u == t
    case NoRoom => !known && s.ctl == SYN && lport in listening && Full(t) && u == t
    case Accepted(i) =>
      && !known && s.ctl == SYN && lport in listening && Chosen(t, i)
      && u == t[i := Slot(PassiveOpen(t[i].conn, s, iss).conn, lport, rport, ripaddr)]
  }

  lemma NewIsUnique(t: seq<Slot>, i: nat, s: Slot)
    requires Unique(t) && i < |t|
    requires forall j :: 0 <= j < |t| ==> !Matches(t[j], s.lport, s.rport, s.ripaddr)
    ensures Unique(t[i := s])
  {
  }

  predicate Indices(order: seq<nat>, n: nat) { forall x :: 0 <= x < |order| ==> order[x] < n }

  /** The connection a search through the table in the given order ends at. */
  function FirstMatch(t: seq<Slot>, order: seq<nat>, lport: u16, rport: u16, ripaddr: Ip): Option<nat>
    requires Indices(order, |t|)
  {
    if order == [] then None
    else if Matches(t[order[0]], lport, rport, ripaddr) then Some(order[0])
    else FirstMatch(t, order[1..], lport, rport, ripaddr)
  }

  lemma {:induction false} FirstMatchIsMatch(t: seq<Slot>, order: seq<nat>, i: nat, lport: u16, rport: u16, ripaddr: Ip)
    requires Unique(t) && Indices(order, |t|)
    requires i < |t| && Matches(t[i], lport, rport, ripaddr)
    ensures FirstMatch(t, order, lport, rport, ripaddr) == if i in order then Some(i) else None
  {
    if order != [] {
      var j := order[0];
      assert Matches(t[j], lport, rport, ripaddr) ==> j == i;
      assert i in order <==> i == j || i in order[1..];
      FirstMatchIsMatch(t, order[1..], i, lport, rport, ripaddr);
    }
  }

  lemma {:induction false} NoMatchNone(t: seq<Slot>, order: seq<nat>, lport: u16, rport: u16, ripaddr: Ip)
    requires Indices(order, |t|)
    requires forall i :: 0 <= i < |t| ==> !Matches(t[i], lport, rport, ripaddr)
    ensures FirstMatch(t, order, lport, rport, ripaddr) == None
  {
    if order != [] {
      NoMatchNone(t, order[1..], lport, rport, ripaddr);
    }
  }

  /** Whatever order the table is searched in, a segment goes to the same connection. */
  lemma DemuxAnyOrder(t: seq<Slot>, p: seq<nat>, q: seq<nat>, lport: u16, rport: u16, ripaddr: Ip)
    requires Unique(t)
    requires Indices(p, |t|) && Indices(q, |t|)
    requires forall i: nat :: i < |t| ==> i in p && i in q
    ensures FirstMatch(t, p, lport, rport, ripaddr) == FirstMatch(t, q, lport, rport, ripaddr)
  {
    if i: nat :| i < |t| && Matches(t[i], lport, rport, ripaddr) {
      FirstMatchIsMatch(t, p, i, lport, rport, ripaddr);
      FirstMatchIsMatch(t, q, i, lport, rport, ripaddr);
    } else {
      NoMatchNone(t, p, lport, rport, ripaddr);
      NoMatchNone(t, q, lport, rport, ripaddr);
    }
  }

  /** A new connection takes an entry that is CLOSED, or else the one in TIME_WAIT that would be CLOSED first. */
  lemma ChosenIsNearestItsEnd(t: seq<Slot>, i: nat)
    requires Chosen(t, i)
    requires forall j :: 0 <= j < |t| ==> TcpRuns.Inv(t[j].conn) && (t[j].conn.state == TimeWait ==> t[j].conn.timer < 120)
    ensures t[i].conn.state == Closed || t[i].conn.state == TimeWait
    ensures t[i].conn.state == TimeWait ==> forall j :: 0 <= j < |t| ==>
              && t[j].conn.state != Closed
              && (t[j].conn.state == TimeWait ==> TcpRuns.TicksLeft(t[i].conn) <= TcpRuns.TicksLeft(t[j].conn))
  {
  }

  // ---- Runs of the table ----

  datatype TableEvent =
    | ConnectEvent(iss: u32, port: u16, rport: u16, ripaddr: Ip, i: nat)
    | SynEvent(iss: u32, lport: u16, rport: u16, ripaddr: Ip, s: Segment, i: nat)
    | ConnEvent(i: nat, e: TcpRuns.Event)

  /** The events that can happen to a table: opens as the methods make them, and steps of one connection. */
  predicate Possible(t: seq<Slot>, e: TableEvent)
  {
    match e
    case ConnectEvent(_, port, _, _, i) => Chosen(t, i) && !PortInUse(t, port)
    case SynEvent(_, lport, rport, ripaddr, s, i) =>
      Chosen(t, i) && s.ctl == SYN && forall j :: 0 <= j < |t| ==> !Matches(t[j], lport, rport, ripaddr)
    case ConnEvent(i, e) => i < |t| && !TcpRuns.Opens(e)
  }

  function After(t: seq<Slot>, e: TableEvent): seq<Slot>
    requires Possible(t, e)
  {
    match e
    case ConnectEvent(iss, port, rport, ripaddr, i) =>
      t[i := Slot(ActiveOpen(t[i].conn, iss), Htons(port), rport, ripaddr)]
    case SynEvent(iss, lport, rport, ripaddr, s, i) =>
      t[i := Slot(PassiveOpen(t[i].conn, s, iss).conn, lport, rport, ripaddr)]
    case ConnEvent(i, e) => t[i := t[i].(conn := TcpRuns.Step(t[i].conn, e).conn)]
  }

  lemma ClosedStays(c: Conn, e: TcpRuns.Event)
    requires c.state == Closed && !TcpRuns.Opens(e)
    ensures TcpRuns.Step(c, e).conn.state == Closed
  {
  }

  lemma AfterIsUnique(t: seq<Slot>, e: TableEvent)
    requires Unique(t) && Possible(t, e)
    ensures Unique(After(t, e))
  {
    match e {
      case ConnectEvent(iss, port, rport, ripaddr, i) =>
        NewIsUnique(t, i, Slot(ActiveOpen(t[i].conn, iss), Htons(port), rport, ripaddr));
      case SynEvent(iss, lport, rport, ripaddr, s, i) =>
        NewIsUnique(t, i, Slot(PassiveOpen(t[i].conn, s, iss).conn, lport, rport, ripaddr));
      case ConnEvent(i, e) =>
        if t[i].conn.state == Closed { ClosedStays(t[i].conn, e); }
    }
  }

  /** A run of possible events. */
  predicate AllPossible(t: seq<Slot>, es: seq<TableEvent>)
    decreases |es|
  {
    es == [] || (Possible(t, es[0]) && AllPossible(After(t, es[0]), es[1..]))
  }

  function Run(t: seq<Slot>, es: seq<TableEvent>): seq<Slot>
    requires AllPossible(t, es)
    decreases |es|
  {
    if es == [] then t else Run(After(t, es[0]), es[1..])
  }

  /** From an all-closed table no run ever has two connections with the same addresses. */
  lemma {:induction false} AlwaysUnique(t: seq<Slot>, es: seq<TableEvent>)
    requires Unique(t) && AllPossible(t, es)
    ensures Unique(Run(t, es))
    decreases |es|
  {
    if es != [] {
      AfterIsUnique(t, es[0]);
      AlwaysUnique(After(t, es[0]), es[1..]);
    }
  }
}

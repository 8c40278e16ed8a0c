/**
 * TCP input as a whole (uip/uip.c:1173-1867): a packet in the buffer is matched with a connection
 * in the table, opens one, or is refused, and what is to be sent in answer is left in the buffer.
 */
module TcpStack {
  import opened Bytes
  import opened ConnTable
  import opened Packet
  import opened Tcp
  import opened TcpPackets
  import opened Words
  import Connection
  import TcpExchange
  import TcpRuns

  /** Nothing in the table shares memory with the buffer or the connection worked on. */
  ghost predicate Apart(b: PacketBuffer, t: Table, c: Connection.Connection, acc32: array<byte>)
  {
    && TcpExchange.Separate(b, c, acc32)
    && t.iss != b.buf && t.iss != c.sndNxt && t.iss != c.rcvNxt && t.iss != acc32
    && t.listenports as object !in {b.buf, c.sndNxt, c.rcvNxt, acc32}
    && t.conns as object !in {b.buf, c.sndNxt, c.rcvNxt, acc32, t.iss}
    && t.conns as object != t.listenports as object
  }

  ghost predicate AllGood(t: seq<Slot>) { forall i :: 0 <= i < |t| ==> TcpRuns.Inv(t[i].conn) }

  /** A TCP packet that has passed IP input. */
  ghost predicate IsTcp(p: seq<byte>, n: u16) { Readable(p, n) && p[23] == UIP_PROTO_TCP && UrgClear(p) }

  /** The peer's side of the packet, as a connection would hold it. */
  function SenderOf(p: seq<byte>): Address
    requires |p| >= 54
  {
    Address(Le16(p, 36), Le16(p, 34), IpAt(p, 26))
  }

  /** A segment refused is answered with a reset, unless it is one. */
  ghost predicate Rejects(b: PacketBuffer, p: seq<byte>, s: Segment)
    requires |p| >= 98
    reads b, b.buf
  {
    if s.ctl.rst then b.len == 0
    else Sends(b.buf[..], b.len, ResetOf(p), b.host, IpAt(p, 26), Le16(p, 36), Le16(p, 34))
  }

  /** The matched connection takes its step. */
  method Matched(b: PacketBuffer, t: Table, i: nat, c: Connection.Connection, acc32: array<byte>, r: Reply)
      returns (jump: Jump, call: Option<Call>)
    requires Apart(b, t, c, acc32) && t.Valid() && AllGood(t.conns[..]) && IsTcp(b.buf[..], b.len)
    requires i < t.conns.Length && TcpExchange.Matches(b.buf[..], b.len, AddressOf(t.conns[i])) && Open(t.conns[i])
    modifies b, b.buf, t.conns, c, c.sndNxt, c.rcvNxt, acc32
    ensures t.Valid() && AllGood(t.conns[..])
    ensures var s := old(SegmentAt(b.buf[..], b.len));
            var o := Tcp.Input(old(t.conns[i].conn), s, r);
            && (jump, call) == (o.jump, o.call)
            && t.conns[..] == old(t.conns[..])[i := old(t.conns[i]).(conn := o.conn)]
            && TcpExchange.Answers(b, old(AddressOf(t.conns[i])), o, r, s)
  {
    ghost var t0, s := t.conns[..], SegmentAt(b.buf[..], b.len);
    ghost var e := ConnEvent(i, TcpRuns.SegmentEvent(s, r));
    c.Load(t.conns[i].conn);
    jump, call := TcpExchange.Found(b, c, AddressOf(t.conns[i]), r, acc32);
    var v := c.Save();
    t.conns[i] := t.conns[i].(conn := v);
    AfterIsUnique(t0, e);
    assert t.conns[..] == After(t0, e);
  }

  function AddressOf(s: Slot): Address { Address(s.lport, s.rport, s.ripaddr) }

  /** The other end of a connection of `host`, as its peer's table holds it. */
  function Mirror(a: Address, host: Ip): Address { Address(a.rport, a.lport, host) }

  /** A packet that a connection sends is matched with exactly the other end of that connection. */
  lemma FindsItsPeer(p: seq<byte>, n: u16, s: Segment, a: Address, host: Ip, q: seq<byte>, reported: u16, slot: Slot)
    requires Sends(p, n, s, host, a.ripaddr, a.lport, a.rport) && Delivered(p, n, q, reported)
    ensures TcpAcceptable(q, reported, a.ripaddr) && Readable(q, n) && SegmentAt(q, n) == s
    ensures var o := SenderOf(q);
            Matches(slot, o.lport, o.rport, o.ripaddr) <==> Open(slot) && AddressOf(slot) == Mirror(a, host)
  {
    Arrives(p, n, s, host, a.ripaddr, a.lport, a.rport, q, reported);
  }

  /**
   * The reset with which a packet is refused finds the connection that sent the packet, closes it
   * and is told there.  It also passes the tests of RFC 793 section 3.4, which this stack does not
   * make: it has the number that is expected, and acknowledges a SYN.
   */
  lemma RefusalCloses(p: seq<byte>, n: u16, s: Segment, a: Address, host: Ip, q: seq<byte>, reported: u16,
                      z: seq<byte>, k: u16, f: seq<byte>, m: u16, slot: Slot, r: Reply)
    requires Sends(p, n, s, host, a.ripaddr, a.lport, a.rport) && Delivered(p, n, q, reported)
    requires Sends(z, k, ResetOf(q), a.ripaddr, IpAt(q, 26), Le16(q, 36), Le16(q, 34)) && Delivered(z, k, f, m)
    requires Open(slot) && AddressOf(slot) == a
    ensures TcpAcceptable(f, m, host) && Readable(f, k)
    ensures var o := SenderOf(f); Matches(slot, o.lport, o.rport, o.ripaddr)
    ensures Tcp.Input(slot.conn, SegmentAt(f, k), r) == Output(slot.conn.(state := Closed), Drop, Some(Call({Abort}, [])))
    ensures SegmentAt(f, k).seqno == s.ackno
    ensures slot.conn.state == SynSent && slot.conn.len == 1 && s.seqno == slot.conn.sndNxt ==> Acks(slot.conn, SegmentAt(f, k))
  {
    Arrives(p, n, s, host, a.ripaddr, a.lport, a.rport, q, reported);
    FindsItsPeer(z, k, ResetOf(q), Mirror(a, host), a.ripaddr, f, m, slot);
  }

  /** The connection that Receive has opened for the SYN in the buffer answers it. */
  method Accept(b: PacketBuffer, t: Table, i: nat, c: Connection.Connection, ghost r: Reply, ghost input: Segment)
    requires Roomy(b) && c.Valid() && b.buf != c.sndNxt && b.buf != c.rcvNxt && i < t.conns.Length
    requires t.conns as object !in {b.buf, c.sndNxt, c.rcvNxt}
    modifies b, b.buf, c, c.sndNxt, c.rcvNxt
    ensures TcpExchange.Answers(b, AddressOf(t.conns[i]), Output(t.conns[i].conn, SendSyn(SYN_ACK), None), r, input)
  {
    c.Load(t.conns[i].conn);
    TcpExchange.Emit(b, c, AddressOf(t.conns[i]), SendSyn(SYN_ACK), None, r, input);
  }

  /** What has become of the packet `p` with segment `s`. */
  ghost predicate Handled(t0: seq<Slot>, listening: seq<u16>, iss: u32, p: seq<byte>, s: Segment, r: Reply,
                          o: Outcome, t1: seq<Slot>, b: PacketBuffer)
    requires |p| >= 98 && b.buf.Length >= 58
    reads b, b.buf
  {
    var a := SenderOf(p);
    match o
    case Found(i) =>
      && i < |t0| && Matches(t0[i], a.lport, a.rport, a.ripaddr)
      && var out := Tcp.Input(t0[i].conn, s, r);
         t1 == t0[i := t0[i].(conn := out.conn)] && TcpExchange.Answers(b, a, out, r, s)
    case Accepted(i) =>
      && i < |t0| && ReceiveResult(t0, listening, iss, a.lport, a.rport, a.ripaddr, s, o, t1)
      && TcpExchange.Answers(b, a, PassiveOpen(t0[i].conn, s, iss), r, s)
    case Refused => ReceiveResult(t0, listening, iss, a.lport, a.rport, a.ripaddr, s, o, t1) && Rejects(b, p, s)
    case NoRoom => ReceiveResult(t0, listening, iss, a.lport, a.rport, a.ripaddr, s, o, t1) && b.len == 0
  }

  /** From label tcp_input, the checksum having been checked. */
  method TcpInput(b: PacketBuffer, t: Table, c: Connection.Connection, acc32: array<byte>, r: Reply) returns (o: Outcome)
    requires Apart(b, t, c, acc32) && t.Valid() && AllGood(t.conns[..]) && IsTcp(b.buf[..], b.len)
    modifies b, b.buf, t.conns, c, c.sndNxt, c.rcvNxt, acc32
    ensures t.Valid() && AllGood(t.conns[..])
    ensures Handled(old(t.conns[..]), t.listenports[..], Be32(t.iss[..]), old(b.buf[..]), old(SegmentAt(b.buf[..], b.len)), r,
                    o, t.conns[..], b)
  {
    ghost var t0, p := t.conns[..], b.buf[..];
    var h := ReadHeader(b);
    var s := Connection.SegmentOf(h);
    o := t.Receive(Le16(b.buf[..], 36), Le16(b.buf[..], 34), IpAt(b.buf[..], 26), s);
    match o {
      case Found(i) =>
        var jump, call := Matched(b, t, i, c, acc32, r);
      case Accepted(i) =>
        OpenedGood(t0, i, s, Be32(t.iss[..]), SenderOf(p), t.conns[..]);
        Accept(b, t, i, c, r, s);
      case Refused =>
        Reset(b);
      case NoRoom =>
        b.len := 0;
    }
  }

  lemma OpenedGood(t: seq<Slot>, i: nat, s: Segment, iss: u32, a: Address, u: seq<Slot>)
    requires AllGood(t) && i < |t| && Chosen(t, i)
    requires u == t[i := Slot(PassiveOpen(t[i].conn, s, iss).conn, a.lport, a.rport, a.ripaddr)]
    ensures AllGood(u)
  {
    TcpRuns.StepGood(t[i].conn, TcpRuns.PassiveOpenEvent(s, iss));
  }
}

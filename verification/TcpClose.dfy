/** Closing between two hosts (uip/uip.c:1560-1576, 1657-1664, 1721-1785): over a channel that loses nothing it completes. */
module TcpClose {
  import opened Words
  import opened Tcp
  import opened TcpRuns
  import opened TcpSafety

  /** Both hosts are in ESTABLISHED and have received all that the other has sent. */
  predicate Quiet(s: System)
  {
    && Safe(s) && s.a.open && s.b.open && s.a.conn.state.Established? && s.b.conn.state.Established?
    && s.a.conn.len == 0 && s.b.conn.len == 0
  }

  function Closes(): Reply { Reply(CloseConn, 0, seq(UIP_TCP_MSS, i => 0)) }

  function Nothing(): Reply { Reply(Carry, 0, seq(UIP_TCP_MSS, i => 0)) }

  /** `x` has sent a FIN and `y` stands in ESTABLISHED before it. */
  predicate FinSent(x: Peer, y: Peer, xy: set<Wire>, f: Wire)
  {
    && x.open && x.conn.state.FinWait1? && x.conn.len == 1 && x.conn.sndNxt == y.conn.rcvNxt && x.conn.rcvNxt == y.conn.sndNxt
    && x.pos == y.rpos && x.rpos == y.pos
    && f in xy && f.gseq == x.pos && f.gack == x.rpos
    && f.seg == Segment(x.conn.sndNxt, x.conn.rcvNxt, FIN_ACK, UIP_RECEIVE_WINDOW, None, [])
  }

  /** In a quiet pair each expects what the other sends next. */
  lemma QuietAligned(s: System)
    requires Quiet(s)
    ensures s.b.rpos == s.a.pos && s.a.rpos == s.b.pos
    ensures s.b.conn.rcvNxt == s.a.conn.sndNxt && s.a.conn.rcvNxt == s.b.conn.sndNxt
  {
  }

  lemma ClientCloses(s: System) returns (f: Wire)
    requires Quiet(s)
    ensures var m := Move(true, Polls(Closes()));
            && MoveAllowed(s, m) && Safe(Next(s, m)) && FinSent(Next(s, m).a, s.b, Next(s, m).ab, f)
            && Next(s, m).b == s.b && Next(s, m).ba == s.ba
  {
    var m := Move(true, Polls(Closes()));
    QuietAligned(s);
    NextSafe(s, m);
    f := Wire(Segment(s.a.conn.sndNxt, s.a.conn.rcvNxt, FIN_ACK, UIP_RECEIVE_WINDOW, None, []), s.a.pos, s.a.rpos);
  }

  /** The server takes the FIN and answers with its own. */
  predicate FinAnswered(s: System, g: Wire)
  {
    && s.a.open && s.a.conn.state.FinWait1? && s.a.conn.len == 1
    && s.b.open && s.b.conn.state.LastAck? && s.b.conn.len == 1
    && s.a.rpos == s.b.pos && s.b.rpos == s.a.pos + 1
    && s.a.conn.rcvNxt == s.b.conn.sndNxt && s.b.conn.rcvNxt == Plus32(s.a.conn.sndNxt, 1)
    && g in s.ba && g.gseq == s.b.pos && g.gack == s.b.rpos
    && g.seg == Segment(s.b.conn.sndNxt, s.b.conn.rcvNxt, FIN_ACK, UIP_RECEIVE_WINDOW, None, [])
  }

  lemma ServerAnswers(s: System, f: Wire) returns (g: Wire)
    requires Safe(s) && FinSent(s.a, s.b, s.ab, f) && s.b.open && s.b.conn.state.Established? && s.b.conn.len == 0
    ensures var m := Move(false, Hears(f, Nothing())); MoveAllowed(s, m) && FinAnswered(Next(s, m), g)
  {
    var o := Input(s.b.conn, f.seg, Nothing());
    g := Wire(Segment(s.b.conn.sndNxt, Plus32(s.b.conn.rcvNxt, 1), FIN_ACK, UIP_RECEIVE_WINDOW, None, []), s.b.pos, s.b.rpos + 1);
    assert o.conn == Received(s.b.conn, 1).(len := 1, state := LastAck, nrtx := 0);
  }

  /** The client acknowledges it from TIME_WAIT. */
  predicate LastAckSent(s: System, h: Wire)
  {
    && s.a.conn.state.TimeWait? && s.a.conn.timer == 0 && s.a.conn.len == 0
    && s.b.open && s.b.conn.state.LastAck? && s.b.conn.len == 1
    && h in s.ab && h.gack == s.b.pos + 1 && h.seg.ctl == ACK && h.seg.data == [] && h.seg.ackno == Plus32(s.b.conn.sndNxt, 1)
  }

  lemma ClientFinishes(s: System, g: Wire) returns (h: Wire)
    requires FinAnswered(s, g)
    ensures var m := Move(true, Hears(g, Nothing())); MoveAllowed(s, m) && LastAckSent(Next(s, m), h)
  {
    var c1 := TakeAck(s.a.conn, g.seg);
    var o := Input(s.a.conn, g.seg, Nothing());
    assert o == InFinWait1(c1, true, g.seg);
    h := Wire(Segment(o.conn.sndNxt, o.conn.rcvNxt, ACK, UIP_RECEIVE_WINDOW, None, []), s.a.pos + 1, s.a.rpos + 1);
    Plus32Zero(s.a.conn.rcvNxt);
  }

  lemma ServerFinishes(s: System, h: Wire)
    requires LastAckSent(s, h)
    ensures var m := Move(false, Hears(h, Nothing()));
            MoveAllowed(s, m) && Next(s, m).b.conn.state == Closed && Next(s, m).a == s.a
  {
  }

  /** The client closes: four moves later the server is CLOSED, and the client is for 120 ticks more in TIME_WAIT. */
  lemma CloseCompletes(s: System) returns (ms: seq<Move>)
    requires Quiet(s)
    ensures RunAllowed(s, ms)
    ensures var t := Play(s, ms);
            && t.b.conn.state == Closed && t.a.conn.state == TimeWait && Inv(t.a.conn) && TicksLeft(t.a.conn) == 120
            && t.a.stream == s.a.stream && t.b.stream == s.b.stream
  {
    var m1 := Move(true, Polls(Closes()));
    var f := ClientCloses(s);
    var s1 := Next(s, m1);
    var m2 := Move(false, Hears(f, Nothing()));
    var g := ServerAnswers(s1, f);
    var s2 := Next(s1, m2);
    var m3 := Move(true, Hears(g, Nothing()));
    var h := ClientFinishes(s2, g);
    var s3 := Next(s2, m3);
    var m4 := Move(false, Hears(h, Nothing()));
    ServerFinishes(s3, h);
    var s4 := Next(s3, m4);
    var n3 := [m4] + [];
    var n2 := [m3] + n3;
    var n1 := [m2] + n2;
    ms := [m1] + n1;
    PlayCons(s3, m4, []);
    PlayCons(s2, m3, n3);
    PlayCons(s1, m2, n2);
    PlayCons(s, m1, n1);
    PlaySafe(s, ms);
    Streams(s, m1, s1);
    Streams(s1, m2, s2);
    Streams(s2, m3, s3);
    Streams(s3, m4, s4);
  }

  /** Without data being sent the streams stay as they are. */
  lemma Streams(s: System, m: Move, t: System)
    requires t == Next(s, m) && !(t.a.conn.state.Established? && m.byClient) && !(t.b.conn.state.Established? && !m.byClient)
    ensures t.a.stream == s.a.stream && t.b.stream == s.b.stream
  {
  }
}

/**
 * Why the end-to-end result asks for the same bytes in every answer while data is outstanding
 * (uip/uip.c:1644-1711): an application that repeats them only when it is asked to retransmit can
 * make its peer receive bytes it never offered.
 */
module TcpAnswers {
  import opened Words
  import opened Tcp
  import opened TcpSafety
  import TcpRuns

  predicate KeepsOpen(x: Peer, rest: u16, r: Reply)
  {
    x.conn.state == Established && rest > 0 ==> r.action != CloseConn
  }

  /** As `Allowed`, but the application's bytes are bound only when a retransmission is asked for. */
  predicate AllowedWhenAsked(x: Peer, incoming: set<Wire>, e: PeerEvent)
  {
    match e
    case Ticks(r) => Honest(x, x.conn.len, r)
    case Polls(r) => KeepsOpen(x, x.conn.len, r)
    case Hears(w, r) =>
      && w in incoming && Fresh(x, w)
      && KeepsOpen(x, Rest(x.conn, TcpRuns.TakesAck(x.conn, TcpRuns.SegmentEvent(w.seg, r))), r)
  }

  predicate MoveAllowedWhenAsked(s: System, m: Move)
  {
    if m.byClient then AllowedWhenAsked(s.a, s.ba, m.e) else AllowedWhenAsked(s.b, s.ab, m.e)
  }

  predicate RunAllowedWhenAsked(s: System, ms: seq<Move>)
    decreases |ms|
  {
    ms == [] || (MoveAllowedWhenAsked(s, ms[0]) && RunAllowedWhenAsked(Next(s, ms[0]), ms[1..]))
  }

  /** An answer of one byte. */
  function OneByte(d: byte): Reply { Reply(Carry, 1, seq(UIP_TCP_MSS, i => d)) }

  function Nothing(): Reply { Reply(Carry, 0, seq(UIP_TCP_MSS, i => 0)) }

  /** The client is connected and has acknowledged the SYNACK. */
  predicate Connected(s: System, ack: Wire)
  {
    && s.a.open && s.a.conn.state.Established? && s.a.conn.len == 0 && s.a.stream == []
    && s.a.conn.sndNxt == Plus32(s.a.iss, 1) && s.a.conn.rcvNxt == Plus32(s.b.iss, 1)
    && s.a.conn.mss == UIP_TCP_MSS && s.a.pos == s.a.rpos == 1
    && s.b.open && s.b.conn.state.SynRcvd? && s.b.conn.len == 1 && s.b.conn.sndNxt == s.b.iss
    && s.b.conn.rcvNxt == Plus32(s.a.iss, 1) && s.b.pos == 0 && s.b.rpos == 1 && s.b.got == [] && s.b.stream == []
    && s.b.conn.mss == UIP_TCP_MSS
    && ack in s.ab && ack.gseq == 1 && ack.gack == 1
    && ack.seg == Segment(Plus32(s.a.iss, 1), Plus32(s.b.iss, 1), ACK, UIP_RECEIVE_WINDOW, None, [])
  }

  /** The server is connected, has sent one byte and received none. */
  predicate Greeted(s: System, hello: Wire, e: byte)
  {
    && s.a.open && s.a.conn.state.Established?
    && s.a.conn.sndNxt == Plus32(s.a.iss, 1) && s.a.conn.rcvNxt == Plus32(s.b.iss, 1)
    && s.a.conn.mss == UIP_TCP_MSS && s.a.pos == s.a.rpos == 1
    && s.b.open && s.b.conn.state.Established? && s.b.conn.len == 1 && s.b.conn.sndNxt == Plus32(s.b.iss, 1)
    && s.b.conn.rcvNxt == Plus32(s.a.iss, 1) && s.b.pos == 1 && s.b.rpos == 1 && s.b.got == []
    && hello in s.ba && hello.gseq == 1 && hello.gack == 1
    && hello.seg == Segment(Plus32(s.b.iss, 1), Plus32(s.a.iss, 1), PSH_ACK, UIP_RECEIVE_WINDOW, None, [e])
  }

  /** On the channel is a segment with the number of the outstanding byte and other contents. */
  predicate Contradicted(s: System, other: Wire, d: byte, f: byte)
  {
    && s.a.stream == [d]
    && s.b.open && s.b.conn.state.Established? && s.b.conn.len == 1 && s.b.conn.sndNxt == Plus32(s.b.iss, 1)
    && s.b.conn.rcvNxt == Plus32(s.a.iss, 1) && s.b.pos == 1 && s.b.rpos == 1 && s.b.got == []
    && other in s.ab && other.gseq == 1 && other.gack == 2
    && other.seg == Segment(Plus32(s.a.iss, 1), Plus32(s.b.iss, 2), PSH_ACK, UIP_RECEIVE_WINDOW, None, [f])
  }

  lemma Connects(s: System, synAck: Wire) returns (ack: Wire)
    requires Answering(s, synAck)
    ensures var m := Move(true, Hears(synAck, Nothing()));
            MoveAllowedWhenAsked(s, m) && Connected(Next(s, m), ack)
  {
    ack := Wire(Segment(Plus32(s.a.iss, 1), Plus32(s.b.iss, 1), ACK, UIP_RECEIVE_WINDOW, None, []), 1, 1);
    var c1 := TakeAck(s.a.conn, synAck.seg);
    assert Input(s.a.conn, synAck.seg, Nothing()) == InSynSent(c1, true, synAck.seg, Nothing());
  }

  lemma Greets(s: System, ack: Wire, e: byte) returns (hello: Wire)
    requires Connected(s, ack)
    ensures var m := Move(false, Hears(ack, OneByte(e)));
            MoveAllowedWhenAsked(s, m) && Greeted(Next(s, m), hello, e)
    ensures Next(s, Move(false, Hears(ack, OneByte(e)))).a == s.a
  {
    hello := Wire(Segment(Plus32(s.b.iss, 1), Plus32(s.a.iss, 1), PSH_ACK, UIP_RECEIVE_WINDOW, None, [e]), 1, 1);
    var c1 := TakeAck(s.b.conn, ack.seg);
    assert Input(s.b.conn, ack.seg, OneByte(e)) == InSynRcvd(c1, true, ack.seg, OneByte(e));
    assert OneByte(e).window[..1] == [e];
  }

  lemma Offers(s: System, hello: Wire, e: byte, d: byte)
    requires Greeted(s, hello, e) && s.a.conn.len == 0 && s.a.stream == []
    ensures var m := Move(true, Polls(OneByte(d)));
            && MoveAllowedWhenAsked(s, m) && Greeted(Next(s, m), hello, e)
            && Next(s, m).a.conn.len == 1 && Next(s, m).a.stream == [d]
  {
    assert OneByte(d).window[..1] == [d];
  }

  /** Called for the server's byte, the application hands over another byte than is outstanding. */
  lemma Contradicts(s: System, hello: Wire, e: byte, d: byte, f: byte) returns (other: Wire)
    requires Greeted(s, hello, e) && s.a.conn.len == 1 && s.a.stream == [d]
    ensures var m := Move(true, Hears(hello, OneByte(f)));
            MoveAllowedWhenAsked(s, m) && Contradicted(Next(s, m), other, d, f)
  {
    other := Wire(Segment(Plus32(s.a.iss, 1), Plus32(s.b.iss, 2), PSH_ACK, UIP_RECEIVE_WINDOW, None, [f]), 1, 2);
    Plus32Twice(s.b.iss, 1, 1);
    NotAcknowledged(s.a.iss);
    assert OneByte(f).window[..1] == [f];
    assert Input(s.a.conn, hello.seg, OneByte(f)) == InEstablished(s.a.conn, {}, hello.seg, OneByte(f));
  }

  lemma NotAcknowledged(iss: u32)
    ensures Plus32(Plus32(iss, 1), 1) != Plus32(iss, 1)
  {
  }

  lemma Misdelivers(s: System, other: Wire, d: byte, f: byte)
    requires Contradicted(s, other, d, f)
    ensures var m := Move(false, Hears(other, Nothing()));
            MoveAllowedWhenAsked(s, m) && Next(s, m).b.got == [f] && Next(s, m).a.stream == [d]
  {
    Plus32Twice(s.b.iss, 1, 1);
    var c1 := TakeAck(s.b.conn, other.seg);
    assert Input(s.b.conn, other.seg, Nothing()) == InEstablished(c1, {AckData}, other.seg, Nothing());
  }

  lemma PlayConsWhenAsked(s: System, m: Move, ms: seq<Move>)
    ensures RunAllowedWhenAsked(s, [m] + ms) <==> MoveAllowedWhenAsked(s, m) && RunAllowedWhenAsked(Next(s, m), ms)
    ensures Play(s, [m] + ms) == Play(Next(s, m), ms)
  {
    assert ([m] + ms)[1..] == ms;
  }

  /**
   * The client offers `d`; the segment is lost.  Called for the server's byte it hands over `f`,
   * and that is what the server receives.
   */
  lemma AnswersMustRepeat(clientSlot: Conn, serverSlot: Conn, issA: u32, issB: u32, d: byte, e: byte, f: byte)
      returns (ms: seq<Move>)
    requires serverSlot.state == Closed
    ensures RunAllowedWhenAsked(Start(clientSlot, serverSlot, issA, issB), ms)
    ensures var t := Play(Start(clientSlot, serverSlot, issA, issB), ms); t.a.stream == [d] && t.b.got == [f]
  {
    var m1 := Move(true, Ticks(Nothing()));
    var s0 := Start(clientSlot, serverSlot, issA, issB);
    var syn := Calls(clientSlot, serverSlot, issA, issB, Nothing());
    var s1 := Next(s0, m1);
    var s2 := Next(s1, m1);
    var m3 := Move(false, Hears(syn, Nothing()));
    var synAck := Answers(s2, syn, Nothing());
    var s3 := Next(s2, m3);
    var m4 := Move(true, Hears(synAck, Nothing()));
    var ack := Connects(s3, synAck);
    var s4 := Next(s3, m4);
    var m5 := Move(false, Hears(ack, OneByte(e)));
    var hello := Greets(s4, ack, e);
    var s5 := Next(s4, m5);
    var m6 := Move(true, Polls(OneByte(d)));
    Offers(s5, hello, e, d);
    var s6 := Next(s5, m6);
    var m7 := Move(true, Hears(hello, OneByte(f)));
    var other := Contradicts(s6, hello, e, d, f);
    var s7 := Next(s6, m7);
    var m8 := Move(false, Hears(other, Nothing()));
    Misdelivers(s7, other, d, f);
    var n8 := [m8] + [];
    var n7 := [m7] + n8;
    var n6 := [m6] + n7;
    var n5 := [m5] + n6;
    var n4 := [m4] + n5;
    var n3 := [m3] + n4;
    var n2 := [m1] + n3;
    ms := [m1] + n2;
    PlayConsWhenAsked(s7, m8, []);
    PlayConsWhenAsked(s6, m7, n8);
    PlayConsWhenAsked(s5, m6, n7);
    PlayConsWhenAsked(s4, m5, n6);
    PlayConsWhenAsked(s3, m4, n5);
    PlayConsWhenAsked(s2, m3, n4);
    PlayConsWhenAsked(s1, m1, n3);
    PlayConsWhenAsked(s0, m1, n2);
  }

  // ---- What an answer while data is outstanding does ----

  /** The application is asked again, or shown new data, with `c.len` bytes outstanding. */
  predicate AskedWithDataOut(c: Conn, e: TcpRuns.Event)
  {
    && c.state == Established && 0 < c.len <= UIP_TCP_MSS
    && match e
       case TimerEvent(_) => c.timer == 0 && !GivesUp(c)
       case SegmentEvent(s, _) =>
         !s.ctl.rst && !s.ctl.fin && !OutOfSequence(c, s) && !Acks(c, s) && s.data != []
       case _ => false
  }

  function ReplyOf(e: TcpRuns.Event): Reply
    requires e.TimerEvent? || e.SegmentEvent?
  {
    e.r
  }

  /**
   * However many bytes it hands over, as many as are outstanding go out under their old number:
   * the right ones if and only if the window begins with them.
   */
  lemma RepeatedIff(c: Conn, e: TcpRuns.Event, outstanding: seq<byte>, input: Segment)
    requires AskedWithDataOut(c, e) && |outstanding| == c.len
    requires ReplyOf(e).action == Carry && ReplyOf(e).slen > 0
    ensures var o := TcpRuns.Step(c, e);
            && o.jump == SendNoopts(PSH_ACK, c.len) && o.conn.sndNxt == c.sndNxt
            && Emitted(o, ReplyOf(e).window, input).value.seqno == c.sndNxt
            && (Emitted(o, ReplyOf(e).window, input).value.data == outstanding <==>
                ReplyOf(e).window[..c.len] == outstanding)
  {
    match e {
      case TimerEvent(r) =>
      case SegmentEvent(s, r) =>
        assert TakeAck(c, s) == c && AckFlag(c, s) == {};
        assert TcpRuns.Step(c, e) == InEstablished(c, {}, s, r);
    }
  }

  /** An acknowledgement of nothing that announces a window of 100 bytes. */
  function WindowUpdate(c: Conn): Segment { Segment(c.rcvNxt, c.sndNxt, ACK, 100, None, []) }

  /**
   * A window update makes the segment size smaller without a call.  A protosocket that is then
   * asked to retransmit 150 bytes hands over 100, and 150 go out, the last 50 of which are
   * whatever stands in the buffer.
   */
  lemma ShortRetransmission(c: Conn, data: seq<byte>, window: Window, input: Segment)
    requires c.state == Established && c.len == |data| == 150 && c.initialmss >= 150 && c.timer == 0 && !GivesUp(c)
    requires window[..100] == data[..100]
    ensures var u := Input(c, WindowUpdate(c), Nothing());
            && u.jump == Drop && u.call == None && u.conn == c.(mss := 100)
            && var r := Reply(Carry, 100, window);
            var o := Tick(u.conn, r);
            && o.jump == SendNoopts(PSH_ACK, 150)
            && (Emitted(o, window, input).value.data == data <==> window[100..150] == data[100..])
  {
    var s, r := WindowUpdate(c), Reply(Carry, 100, window);
    NotAhead(c);
    Plus32Zero(c.rcvNxt);
    assert Input(c, s, Nothing()) == InEstablished(c, {}, s, Nothing());
    RepeatedIff(c.(mss := 100), TcpRuns.TimerEvent(r), data, input);
    SplitAt(window, data);
  }

  lemma NotAhead(c: Conn)
    requires 0 < c.len
    ensures c.sndNxt != Plus32(c.sndNxt, c.len)
  {
    if Plus32(c.sndNxt, 0) == Plus32(c.sndNxt, c.len) {
      Plus32Injective(c.sndNxt, 0, c.len);
    }
    Plus32Zero(c.sndNxt);
  }

  lemma SplitAt(window: Window, data: seq<byte>)
    requires |data| == 150 && window[..100] == data[..100]
    ensures window[..150] == data <==> window[100..150] == data[100..]
  {
    assert window[..150] == window[..100] + window[100..150];
    assert data == data[..100] + data[100..];
    if window[..150] == data {
      assert window[100..150] == window[..150][100..];
    }
  }
}

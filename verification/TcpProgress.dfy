/**
 * Answers and progress (uip/uip.c:771-797, 1404-1416, 1599-1718, 1560-1576, 1731-1785): what has been
 * received is acknowledged, again if it comes again, and a repetition that is not lost and whose
 * answer is not lost moves the sender on.
 */
module TcpProgress {
  import opened Words
  import opened Tcp
  import opened TcpRuns
  import opened TcpSafety
  import TcpRepeats

  /** The segment that y emits for `s` in answer to `r` of its application. */
  function Answer(y: Conn, s: Segment, r: Reply): Option<Segment>
    requires y.state != Closed
  {
    Emitted(Input(y, s, r), r.window, s)
  }

  /** The answer acknowledges all that x has outstanding. */
  predicate Acknowledged(x: Conn, a: Option<Segment>) { a.Some? && !a.value.ctl.rst && Acks(x, a.value) }

  // ---- What was received before ----

  /**
   * A segment of x that y has accepted before, in whatever state y is by now, is answered with an
   * acknowledgement of everything accepted, and changes nothing.
   */
  lemma ReceivedIsAcknowledgedAgain(x: Peer, y: Peer, w: Wire, r: Reply)
    requires Account(x) && x.open && Follows(x, y) && WireOk(x, y.iss, w) && !w.seg.ctl.rst
    requires y.conn.state != Closed && y.conn.state != SynSent
    requires Units(w.seg) > 0 && w.gseq < y.rpos < w.gseq + 0x1_0000_0000
    ensures Input(y.conn, w.seg, r) == Output(y.conn, SendAck, None)
    ensures Answer(y.conn, w.seg, r).Some?
    ensures var a := Answer(y.conn, w.seg, r).value;
            && a.ctl == ACK && a.data == [] && a.ackno == Plus32(x.iss, y.rpos)
            && (x.conn.len > 0 ==> (Acks(x.conn, a) <==> y.rpos == x.pos + x.conn.len))
  {
    if w.seg.seqno == y.conn.rcvNxt {
      Plus32Injective(x.iss, w.gseq, y.rpos);
    }
    Plus32Twice(x.iss, x.pos, x.conn.len);
    if x.conn.len > 0 && y.rpos == x.pos && Plus32(x.iss, x.pos) == Plus32(x.iss, x.pos + x.conn.len) {
      Plus32Injective(x.iss, x.pos, x.pos + x.conn.len);
    }
  }

  // ---- What comes in order ----

  /** The connection takes what is outstanding at the peer and says so at once. */
  predicate Takes(y: Conn, s: Segment)
  {
    match y.state
    case SynSent => s.ctl == SYN_ACK && Acks(y, s)
    case SynRcvd => Acks(y, s) && !s.ctl.fin
    case Established => s.ctl.fin ==> Rest(y, Acks(y, s)) == 0
    case FinWait1 => s.ctl.fin || !Acks(y, s)
    case FinWait2 => true
    case _ => false
  }

  /** The application aborts in answer to the segment. */
  predicate Aborts(y: Conn, s: Segment, r: Reply)
  {
    r.action == AbortConn && (Opening(y.state) || (y.state == Established && !s.ctl.fin))
  }

  /** `w` carries what x has outstanding and y has not accepted yet. */
  predicate Carries(x: Peer, y: Peer, w: Wire)
  {
    && !w.seg.ctl.rst && w.gseq == x.pos == y.rpos && Units(w.seg) == x.conn.len > 0
    && w.seg.seqno == x.conn.sndNxt
    && (w.seg.data != [] ==> !w.seg.ctl.syn && !w.seg.ctl.fin) && !(w.seg.ctl.syn && w.seg.ctl.fin)
  }

  /** In the states after y has taken x's FIN there is nothing left to take. */
  lemma NothingLeft(x: Peer, y: Peer, w: Wire)
    requires Account(x) && x.open && Follows(x, y) && Carries(x, y, w)
    ensures !y.conn.state.LastAck? && !y.conn.state.Closing? && !y.conn.state.TimeWait?
  {
  }

  lemma InOrder(x: Peer, y: Peer, w: Wire)
    requires Account(x) && x.open && Follows(x, y) && Carries(x, y, w) && y.conn.state != Closed
    requires y.conn.state.SynSent? ==> y.rpos == 0 && w.seg.ctl == SYN_ACK
    requires !y.conn.state.SynSent? ==> y.rpos >= 1
    ensures !OutOfSequence(y.conn, w.seg)
  {
  }

  /** The emitted segment carries the connection's two numbers, unless it answers with a reset. */
  lemma AnswerCarries(y: Conn, s: Segment, r: Reply)
    requires y.state != Closed && Input(y, s, r).jump != Drop && Input(y, s, r).jump != SendReset
    ensures Answer(y, s, r).Some?
    ensures var o := Input(y, s, r);
            Answer(y, s, r).value.ackno == o.conn.rcvNxt && Answer(y, s, r).value.seqno == o.conn.sndNxt
  {
  }

  /** A call in ESTABLISHED for new data ends in a segment: with data, bare, with a FIN, or with a RST. */
  lemma NewDataIsAnswered(c: Conn, shown: set<Flag>, data: seq<byte>, r: Reply)
    requires NewData in shown && Abort !in shown && Close !in shown
    ensures var o := CallAndSend(c, shown, data, r);
            && o.conn.rcvNxt == c.rcvNxt && o.conn.sndNxt == c.sndNxt
            && (match r.action
                case Carry => o.jump.SendNoopts? && (o.jump.ctl == ACK || o.jump.ctl == PSH_ACK)
                case CloseConn => o.jump == SendNodata(FIN_ACK)
                case AbortConn => o.jump == SendNodata(RST_ACK))
  {
  }

  /** What y does with a segment in order, state by state. */
  predicate AnswersAsTaken(y: Conn, s: Segment, r: Reply, o: Output)
  {
    if !Takes(y, s) then o.jump == Drop || o.jump == SendReset || o.conn.rcvNxt == s.seqno
    else if Aborts(y, s, r) then o.jump == SendNodata(RST_ACK)
    else
      && (o.jump.SendAck? || (o.jump.SendNodata? && o.jump.ctl == FIN_ACK) ||
          (o.jump.SendNoopts? && (o.jump.ctl == ACK || o.jump.ctl == PSH_ACK)))
      && o.conn.rcvNxt == Plus32(s.seqno, Units(s))
  }

  lemma OpeningAnswers(y: Conn, s: Segment, r: Reply)
    requires !s.ctl.rst && !OutOfSequence(y, s) && Opening(y.state) && Units(s) > 0 && !(s.ctl.syn && s.ctl.fin)
    requires y.state.SynSent? ==> s.ctl == SYN_ACK && s.data == []
    requires y.state.SynRcvd? ==> !s.ctl.syn && (s.data == [] <==> s.ctl.fin)
    ensures AnswersAsTaken(y, s, r, Input(y, s, r))
  {
    if y.state.SynRcvd? && Acks(y, s) {
      var c1 := Received(TakeAck(y, s).(state := Established, len := 0), |s.data|);
      Plus32Zero(y.rcvNxt);
      if !s.ctl.fin {
        NewDataIsAnswered(c1, {Connected} + NewDataFlag(s), s.data, r);
      }
    } else if y.state.SynSent? && Acks(y, s) {
      var c1 := AdoptMss(TakeAck(y, s), s.mss).(state := Established, rcvNxt := Plus32(s.seqno, 1), len := 0);
      NewDataIsAnswered(c1, {Connected, NewData}, [], r);
    }
  }

  lemma EstablishedAnswers(y: Conn, s: Segment, r: Reply)
    requires !s.ctl.rst && !OutOfSequence(y, s) && y.state == Established && !s.ctl.syn
    requires s.data == [] <==> s.ctl.fin
    ensures AnswersAsTaken(y, s, r, Input(y, s, r))
  {
    if !s.ctl.fin {
      var c := TakeAck(y, s);
      var wnd := if s.wnd > c.initialmss || s.wnd == 0 then c.initialmss else s.wnd;
      NewDataIsAnswered(Received(c, |s.data|).(mss := wnd), AckFlag(y, s) + NewDataFlag(s), s.data, r);
    }
  }

  lemma ClosingAnswers(y: Conn, s: Segment, r: Reply)
    requires !s.ctl.rst && !OutOfSequence(y, s) && (y.state.FinWait1? || y.state.FinWait2?) && !s.ctl.syn
    requires s.data == [] <==> s.ctl.fin
    ensures AnswersAsTaken(y, s, r, Input(y, s, r))
  {
    Plus32Twice(y.rcvNxt, |s.data|, 1);
    Plus32Zero(y.rcvNxt);
  }

  /**
   * What x has outstanding and y has not accepted yet is acknowledged at once if and only if y
   * can take it and its application does not abort.  It does not take a FIN in SYN_RCVD, or while
   * it has data of its own outstanding; data that acknowledges its FIN in FIN_WAIT_1 it takes
   * without a word.
   */
  lemma AnsweredIff(x: Peer, y: Peer, w: Wire, r: Reply)
    requires Account(x) && Account(y) && x.open && Follows(x, y) && Carries(x, y, w) && y.conn.state != Closed
    requires y.conn.state.SynSent? ==> w.seg.ctl == SYN_ACK
    requires y.conn.state.SynSent? || !w.seg.ctl.syn
    ensures Acknowledged(x.conn, Answer(y.conn, w.seg, r)) <==> Takes(y.conn, w.seg) && !Aborts(y.conn, w.seg, r)
  {
    NothingLeft(x, y, w);
    InOrder(x, y, w);
    Plus32Twice(x.iss, x.pos, x.conn.len);
    if Plus32(x.iss, x.pos) == Plus32(x.iss, x.pos + x.conn.len) {
      Plus32Injective(x.iss, x.pos, x.pos + x.conn.len);
    }
    if Opening(y.conn.state) {
      OpeningAnswers(y.conn, w.seg, r);
    } else if y.conn.state.Established? {
      EstablishedAnswers(y.conn, w.seg, r);
    } else {
      ClosingAnswers(y.conn, w.seg, r);
    }
  }

  // ---- One undisturbed repetition ----

  /** The timer of x expires next, and what is outstanding goes out again. */
  predicate Repeating(x: Peer, r: Reply)
  {
    && x.open && TcpRepeats.Outstanding(x.conn) && x.conn.timer == 0 && !GivesUp(x.conn)
    && TcpRepeats.Repeats(x.conn, r) && Honest(x, x.conn.len, r)
  }

  /** The segment that then goes out. */
  function RepeatedSegment(x: Peer, r: Reply): Segment
    requires Repeating(x, r)
  {
    TcpRepeats.TickRepeats(x.conn, r, NoSegment);
    Emitted(Tick(x.conn, r), r.window, NoSegment).value
  }

  function RepeatedWire(x: Peer, r: Reply): Wire
    requires Repeating(x, r)
  {
    Wire(RepeatedSegment(x, r), x.pos, x.rpos)
  }

  function AfterRepeat(x: Peer): Peer
  {
    x.(conn := x.conn.(timer := Backoff(x.conn.nrtx), nrtx := Plus8(x.conn.nrtx, 1)))
  }

  lemma RepeatStep(x: Peer, y: Peer, xy: set<Wire>, yx: set<Wire>, r: Reply)
    requires Repeating(x, r) && Direction(x, y, xy) && Direction(y, x, yx)
    ensures React(x, Ticks(r)) == (AfterRepeat(x), {RepeatedWire(x, r)})
    ensures var w := RepeatedWire(x, r);
            && WireOk(AfterRepeat(x), y.iss, w) && w.seg.seqno == x.conn.sndNxt && Units(w.seg) == x.conn.len
            && !w.seg.ctl.rst && w.seg.ackno == x.conn.rcvNxt && w.seg.ctl.ack == !x.conn.state.SynSent?
            && w.seg.ctl.syn == Opening(x.conn.state)
            && (w.seg.data != [] ==> !w.seg.ctl.syn && !w.seg.ctl.fin) && !(w.seg.ctl.syn && w.seg.ctl.fin)
    ensures Direction(AfterRepeat(x), y, xy + {RepeatedWire(x, r)}) && Direction(y, AfterRepeat(x), yx)
  {
    TcpRepeats.TickRepeats(x.conn, r, NoSegment);
    TicksStep(x, y, xy, yx, r);
    TimerTakes(x.conn, r);
    var o := Tick(x.conn, r);
    assert Delivered(o.call) == [] && x.got + [] == x.got;
    assert Update(x, o, false, 0, r.window) == AfterRepeat(x);
  }

  /** y is there to answer what x repeats, and its application does not abort. */
  predicate WillAnswer(x: Peer, y: Peer, r: Reply, ry: Reply)
    requires Repeating(x, r)
  {
    if !y.open then x.conn.state.SynSent?
    else if y.conn.state == Closed then false
    else if y.rpos != x.pos then !x.conn.state.SynSent?
    else Takes(y.conn, RepeatedSegment(x, r)) && !Aborts(y.conn, RepeatedSegment(x, r), ry)
  }

  /** The answer gets past x's sequence number test. */
  lemma AnswerIsInOrder(x: Peer, y: Peer, w: Wire, ry: Reply)
    requires Account(x) && Account(y) && x.open && y.open && Follows(x, y) && Follows(y, x) && Carries(x, y, w)
    requires y.conn.state != Closed && x.conn.state != SynSent && x.rpos >= 1 && !OutOfSequence(y.conn, w.seg)
    requires w.seg.ctl.ack && w.seg.ackno == x.conn.rcvNxt
    requires Input(y.conn, w.seg, ry).jump != Drop && Input(y.conn, w.seg, ry).jump != SendReset
    ensures Answer(y.conn, w.seg, ry).Some? && Answer(y.conn, w.seg, ry).value.seqno == x.conn.rcvNxt
  {
    AnswerCarries(y.conn, w.seg, ry);
    SndNxtMoves(y.conn, SegmentEvent(w.seg, ry));
    Plus32Twice(y.iss, y.pos, y.conn.len);
    if y.conn.len > 0 && x.rpos == y.pos && Plus32(y.iss, y.pos) == Plus32(y.iss, y.pos + y.conn.len) {
      Plus32Injective(y.iss, y.pos, y.pos + y.conn.len);
    }
  }

  /** A listening server's answer to the SYN. */
  lemma SynIsAnswered(x: Peer, y: Peer, w: Wire, ry: Reply)
    requires Account(x) && x.conn.state.SynSent? && x.open && !y.open && w.seg.ctl == SYN
    requires w.seg.seqno == x.conn.sndNxt
    ensures var (y1, sent) := React(y, Hears(w, ry));
            exists a :: sent == {a} && a.seg.ctl == SYN_ACK && Acks(x.conn, a.seg)
  {
    var o := PassiveOpen(y.conn, w.seg, y.iss);
    var y1 := y.(conn := o.conn, open := true, rpos := 1);
    var a := Wire(Emitted(o, ry.window, w.seg).value, y1.pos, y1.rpos);
    assert React(y, Hears(w, ry)).1 == {a};
  }

  /** The answer as it stands on the channel. */
  lemma AnswerOnChannel(y: Peer, w: Wire, ry: Reply)
    requires y.open && y.conn.state != Closed && Answer(y.conn, w.seg, ry).Some?
    ensures exists a :: React(y, Hears(w, ry)).1 == {a} && a.seg == Answer(y.conn, w.seg, ry).value
  {
    var o := Input(y.conn, w.seg, ry);
    var y1 := Update(y, o, TakesAck(y.conn, SegmentEvent(w.seg, ry)), Taken(y.conn, w.seg), ry.window);
    var a := Wire(Answer(y.conn, w.seg, ry).value, y1.pos, y1.rpos);
    assert React(y, Hears(w, ry)).1 == {a};
  }

  /** What an acknowledgement of everything outstanding does to x. */
  lemma MovesOn(x: Peer, a: Wire, r: Reply)
    requires x.open && x.conn.state != Closed && !a.seg.ctl.rst && Acks(x.conn, a.seg) && !OutOfSequence(x.conn, a.seg)
    ensures React(x, Hears(a, r)).0.pos == x.pos + x.conn.len
  {
  }

  /** The one answer that y gives, and that it acknowledges x. */
  lemma GivesAnswer(x: Peer, y: Peer, xy: set<Wire>, yx: set<Wire>, r: Reply, ry: Reply)
    requires Repeating(x, r) && Direction(x, y, xy) && Direction(y, x, yx) && !(x.active && y.active)
    requires WillAnswer(x, y, r, ry)
    ensures var w := RepeatedWire(x, r);
            exists a :: && React(y, Hears(w, ry)).1 == {a} && !a.seg.ctl.rst
                        && Acks(x.conn, a.seg) && !OutOfSequence(x.conn, a.seg)
  {
    var w := RepeatedWire(x, r);
    RepeatStep(x, y, xy, yx, r);
    if !y.open {
      SynIsAnswered(x, y, w, ry);
    } else if y.rpos != x.pos {
      assert AfterRepeat(x).conn.len == x.conn.len && Follows(AfterRepeat(x), y);
      ReceivedIsAcknowledgedAgain(AfterRepeat(x), y, w, ry);
      AnswerOnChannel(y, w, ry);
    } else {
      AnswersAtOnce(x, y, w, ry);
    }
  }

  lemma AnswersAtOnce(x: Peer, y: Peer, w: Wire, ry: Reply)
    requires Account(x) && Account(y) && x.open && y.open && Follows(x, y) && Follows(y, x) && !(x.active && y.active)
    requires WireOk(AfterRepeat(x), y.iss, w) && Carries(x, y, w) && y.conn.state != Closed && x.conn.state != Closed
    requires w.seg.ctl.ack == !x.conn.state.SynSent? && w.seg.ackno == x.conn.rcvNxt
    requires w.seg.ctl.syn == Opening(x.conn.state)
    requires Takes(y.conn, w.seg) && !Aborts(y.conn, w.seg, ry)
    ensures exists a :: && React(y, Hears(w, ry)).1 == {a} && !a.seg.ctl.rst
                        && Acks(x.conn, a.seg) && !OutOfSequence(x.conn, a.seg)
  {
    AnsweredIff(x, y, w, ry);
    InOrder(x, y, w);
    AnswerIsInOrder(x, y, w, ry);
    AnswerOnChannel(y, w, ry);
  }

  /**
   * A repetition that arrives and whose answer arrives moves x past everything it has
   * outstanding, in every state of both hosts in which y answers.
   */
  lemma RepetitionAdvances(x: Peer, y: Peer, xy: set<Wire>, yx: set<Wire>, r: Reply, ry: Reply, rx: Reply)
      returns (a: Wire)
    requires Repeating(x, r) && Direction(x, y, xy) && Direction(y, x, yx) && !(x.active && y.active)
    requires WillAnswer(x, y, r, ry)
    ensures React(x, Ticks(r)) == (AfterRepeat(x), {RepeatedWire(x, r)})
    ensures React(y, Hears(RepeatedWire(x, r), ry)).1 == {a}
    ensures React(AfterRepeat(x), Hears(a, rx)).0.pos == x.pos + x.conn.len
  {
    RepeatStep(x, y, xy, yx, r);
    GivesAnswer(x, y, xy, yx, r, ry);
    a :| React(y, Hears(RepeatedWire(x, r), ry)).1 == {a} && !a.seg.ctl.rst
         && Acks(x.conn, a.seg) && !OutOfSequence(x.conn, a.seg);
    MovesOn(AfterRepeat(x), a, rx);
  }

  // ---- A lost SYNACK ----

  /**
   * A client that repeats its SYN to a server that has taken it already gets a bare ACK.  It
   * gives up on that, resets, and takes the server's connection down too.
   */
  lemma RepeatedSynFails(x: Peer, y: Peer, xy: set<Wire>, yx: set<Wire>, r: Reply, ry: Reply, rx: Reply, rz: Reply)
      returns (a: Wire, z: Wire)
    requires Repeating(x, r) && Direction(x, y, xy) && Direction(y, x, yx)
    requires x.conn.state.SynSent? && y.open && y.conn.state.SynRcvd?
    ensures React(x, Ticks(r)) == (AfterRepeat(x), {RepeatedWire(x, r)})
    ensures var (y1, sent) := React(y, Hears(RepeatedWire(x, r), ry));
            && sent == {a} && a.seg.ctl == ACK
            && var (x2, reset) := React(AfterRepeat(x), Hears(a, rx));
            && x2.conn.state == Closed && reset == {z} && z.seg.ctl.rst
            && React(y1, Hears(z, rz)).0.conn.state == Closed
  {
    var w := RepeatedWire(x, r);
    RepeatStep(x, y, xy, yx, r);
    assert Follows(AfterRepeat(x), y) && Account(AfterRepeat(x));
    ReceivedIsAcknowledgedAgain(AfterRepeat(x), y, w, ry);
    var o := Input(y.conn, w.seg, ry);
    var y1 := Update(y, o, TakesAck(y.conn, SegmentEvent(w.seg, ry)), Taken(y.conn, w.seg), ry.window);
    a := Wire(Answer(y.conn, w.seg, ry).value, y1.pos, y1.rpos);
    assert React(y, Hears(w, ry)) == (y1, {a});
    var c := AfterRepeat(x).conn;
    var p := Input(c, a.seg, rx);
    assert p == InSynSent(TakeAck(c, a.seg), Acks(c, a.seg), a.seg, rx);
    var x2 := Update(AfterRepeat(x), p, TakesAck(c, SegmentEvent(a.seg, rx)), Taken(c, a.seg), rx.window);
    z := Wire(Emitted(p, rx.window, a.seg).value, x2.pos, x2.rpos);
    assert React(AfterRepeat(x), Hears(a, rx)) == (x2, {z});
  }

  /** A tick of the client whose timer is running. */
  lemma ClientWaits(s: System, r: Reply)
    requires s.a.conn.state.SynSent? && s.a.conn.timer > 0 && s.a.conn.len == 1
    ensures MoveAllowed(s, Move(true, Ticks(r)))
    ensures Next(s, Move(true, Ticks(r))) == s.(a := s.a.(conn := s.a.conn.(timer := s.a.conn.timer - 1)))
  {
    assert s.a.got + [] == s.a.got && s.ab + {} == s.ab;
  }

  /** The server has taken the SYN, and its answer is lost; the client's timer is about to expire. */
  predicate AnswerLost(s: System)
  {
    && Safe(s) && s.a.open && s.a.conn.state.SynSent? && TcpRepeats.Outstanding(s.a.conn)
    && s.a.conn.timer == 0 && s.a.conn.nrtx == 1
    && s.b.open && s.b.conn.state.SynRcvd?
  }

  /** The first six moves, and the systems between them. */
  lemma LosesAnswer(clientSlot: Conn, serverSlot: Conn, issA: u32, issB: u32, r: Reply)
      returns (ms: seq<Move>, ss: seq<System>)
    requires Inv(clientSlot) && Inv(serverSlot) && serverSlot.state == Closed && serverSlot.len == 0
    ensures |ms| == 6 && |ss| == 7 && ss[0] == Start(clientSlot, serverSlot, issA, issB) && AnswerLost(ss[6])
    ensures forall i :: 0 <= i < 6 ==> Leads(ss[i], ms[i], ss[i + 1])
  {
    var tick := Move(true, Ticks(r));
    var s0 := Start(clientSlot, serverSlot, issA, issB);
    var syn := Calls(clientSlot, serverSlot, issA, issB, r);
    var s1 := Next(s0, tick);
    var s2 := Next(s1, tick);
    assert s2.a.conn.timer == 3 && s2.a.conn.nrtx == 1;
    var hear := Move(false, Hears(syn, r));
    var synAck := Answers(s2, syn, r);
    var s3 := Next(s2, hear);
    ClientWaits(s3, r);
    var s4 := Next(s3, tick);
    ClientWaits(s4, r);
    var s5 := Next(s4, tick);
    ClientWaits(s5, r);
    var s6 := Next(s5, tick);
    ms, ss := [tick, tick, hear, tick, tick, tick], [s0, s1, s2, s3, s4, s5, s6];
    StartSafe(clientSlot, serverSlot, issA, issB);
    LeadsSafe(s0, tick, s1);
    LeadsSafe(s1, tick, s2);
    LeadsSafe(s2, hear, s3);
    LeadsSafe(s3, tick, s4);
    LeadsSafe(s4, tick, s5);
    LeadsSafe(s5, tick, s6);
  }

  predicate Leads(s: System, m: Move, t: System) { MoveAllowed(s, m) && t == Next(s, m) }

  lemma LeadsSafe(s: System, m: Move, t: System)
    requires Safe(s) && Leads(s, m, t)
    ensures Safe(t)
  {
    NextSafe(s, m);
  }

  lemma LeadsOn(s: System, m: Move, t: System, ms: seq<Move>)
    requires Leads(s, m, t) && RunAllowed(t, ms)
    ensures RunAllowed(s, [m] + ms) && Play(s, [m] + ms) == Play(t, ms)
  {
    PlayCons(s, m, ms);
  }

  /** From the opening, one lost SYNACK and no other loss: both ends are closed. */
  lemma LostSynAckFails(clientSlot: Conn, serverSlot: Conn, issA: u32, issB: u32, r: Reply) returns (ms: seq<Move>, t: System)
    requires Inv(clientSlot) && Inv(serverSlot) && serverSlot.state == Closed && serverSlot.len == 0
    ensures RunAllowed(Start(clientSlot, serverSlot, issA, issB), ms)
    ensures t == Play(Start(clientSlot, serverSlot, issA, issB), ms)
    ensures t.a.conn.state == Closed && t.b.conn.state == Closed
  {
    var first, ss := LosesAnswer(clientSlot, serverSlot, issA, issB, r);
    ms, t := Collapses(ss[6], r);
    var i := 6;
    while i > 0
      invariant 0 <= i <= 6 && RunAllowed(ss[i], ms) && Play(ss[i], ms) == t
    {
      i := i - 1;
      LeadsOn(ss[i], first[i], ss[i + 1], ms);
      ms := [first[i]] + ms;
    }
  }

  lemma Collapses(s: System, r: Reply) returns (ms: seq<Move>, t: System)
    requires AnswerLost(s)
    ensures RunAllowed(s, ms) && t == Play(s, ms) && t.a.conn.state == Closed && t.b.conn.state == Closed
  {
    var a, z := RepeatedSynFails(s.a, s.b, s.ab, s.ba, r, r, r, r);
    var m1 := Move(true, Ticks(r));
    var m2 := Move(false, Hears(RepeatedWire(s.a, r), r));
    var m3 := Move(true, Hears(a, r));
    var m4 := Move(false, Hears(z, r));
    var s1 := Next(s, m1);
    var s2 := Next(s1, m2);
    var s3 := Next(s2, m3);
    t := Next(s3, m4);
    NextSafe(s, m1);
    assert s1.a == AfterRepeat(s.a) && s1.b == s.b && RepeatedWire(s.a, r) in s1.ab;
    assert MoveAllowed(s1, m2) && s2.a == s1.a && a in s2.ba;
    assert MoveAllowed(s2, m3) && s3.b == s2.b && z in s3.ab;
    assert MoveAllowed(s3, m4);
    var n3 := [m4] + [];
    var n2 := [m3] + n3;
    var n1 := [m2] + n2;
    ms := [m1] + n1;
    PlayCons(s3, m4, []);
    PlayCons(s2, m3, n3);
    PlayCons(s1, m2, n2);
    PlayCons(s, m1, n1);
  }
}

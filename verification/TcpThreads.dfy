/**
 * Two hosts whose applications are protosocket threads (uip/psock.c:145-213, uip/uip.c:692-1867):
 * each sends its buffers one after the other with psock_send.  Such threads meet what the
 * end-to-end result asks of an application, so that the chains of buffers are delivered.
 */
module TcpThreads {
  import opened Words
  import opened Tcp
  import opened TcpRuns
  import opened TcpSafety
  import opened TcpSizes
  import P = Psock
  import opened S = PsockSends

  // ---- A thread as the application of an endpoint ----

  /** The reply hands over `d`, and with it nothing else. */
  predicate HandsOver(r: Reply, d: seq<byte>)
  {
    r.action == Carry && r.slen == |d| <= |r.window| && r.window[..|d|] == d
  }

  /** In event `ev` the thread answers with `r` and goes from `p` to `q`. */
  ghost predicate Answers(bufs: seq<seq<byte>>, p: Position, ev: P.Event, r: Reply, q: Position)
  {
    && ev.mss > 0 && p.i <= |bufs|
    && exists calls :: SendCalls(bufs, p.i, p.waiting, ev, calls, q.i, q.waiting) && HandsOver(r, Handed(calls))
  }

  /** The thread runs in calls from ESTABLISHED; the others tell that the connection is over. */
  predicate Runs(o: Output)
  {
    o.call.Some? && Close !in o.call.value.flags && Abort !in o.call.value.flags && TimedOut !in o.call.value.flags
  }

  /** What one step of the machine gives, with the thread's answer `r`. */
  ghost predicate ThreadStep(bufs: seq<seq<byte>>, o: Output, p: Position, r: Reply, q: Position)
  {
    if Runs(o) then Answers(bufs, p, EventOf(o.call.value, o.conn.mss), r, q)
    else HandsOver(r, []) && q == p
  }

  ghost predicate ThreadMove(bufs: seq<seq<byte>>, x: Peer, p: Position, incoming: set<Wire>, e: PeerEvent, q: Position)
  {
    match e
    case Ticks(r) => ThreadStep(bufs, Tick(x.conn, r), p, r, q)
    case Polls(r) => ThreadStep(bufs, Tcp.PollRequest(x.conn, r), p, r, q)
    case Hears(w, r) =>
      && w in incoming && Fresh(x, w)
      && if (!x.open && w.seg.ctl == SYN) || x.conn.state == Closed then HandsOver(r, []) && q == p
         else ThreadStep(bufs, Input(x.conn, w.seg, r), p, r, q)
  }

  // ---- What holds between a thread and its connection ----

  /** Buffers of one segment between hosts that run this stack. */
  predicate Fits(bufs: seq<seq<byte>>) { forall k :: 0 <= k < |bufs| ==> 1 <= |bufs[k]| <= UIP_TCP_MSS }

  function Begun(p: Position): nat { p.i + (if p.waiting then 1 else 0) }

  predicate Tied(x: Peer, bufs: seq<seq<byte>>, p: Position)
  {
    && (x.conn.state.Closed? || Opening(x.conn.state) || x.conn.state.Established?)
    && !x.fin && Begun(p) <= |bufs| && x.stream == Join(bufs, Begun(p))
    && (x.conn.state.Established? ==>
          p.waiting == (p.i < |bufs|) && x.conn.len == (if p.waiting then |bufs[p.i]| else 0))
    && (!x.open ==> x.conn.state.Closed?)
    && (!x.open || Opening(x.conn.state) ==> p == Position(0, false))
    && (!x.conn.state.Closed? ==> x.conn.mss == x.conn.initialmss == UIP_TCP_MSS)
  }

  /** Every segment on the channel comes from this stack, and none has a FIN. */
  predicate Ordinary(w: Wire)
  {
    !w.seg.ctl.rst ==>
      w.seg.wnd == UIP_RECEIVE_WINDOW && !w.seg.ctl.fin && (w.seg.ctl.syn ==> w.seg.mss == Some(UIP_TCP_MSS))
  }

  /** What SendEvent says of an answer. */
  lemma AnswerIs(bufs: seq<seq<byte>>, p: Position, ev: P.Event, r: Reply, q: Position)
    requires Fits(bufs) && Begun(p) <= |bufs| && ev.mss == UIP_TCP_MSS && Answers(bufs, p, ev, r, q)
    ensures q == Position(p.i + (if p.waiting && ev.acked then 1 else 0), q.i < |bufs|) && q.i <= |bufs|
    ensures HandsOver(r, if q.waiting && (!p.waiting || ev.acked || ev.rexmit) then bufs[q.i] else [])
  {
    var calls :| SendCalls(bufs, p.i, p.waiting, ev, calls, q.i, q.waiting) && HandsOver(r, Handed(calls));
    SendEvent(bufs, p.i, p.waiting, ev, calls, q.i, q.waiting);
  }

  /** The outstanding buffer is the end of the stream. */
  lemma EndOfStream(bufs: seq<seq<byte>>, i: nat)
    requires i < |bufs|
    ensures var s := Join(bufs, i + 1);
            |bufs[i]| <= |s| && s[|s| - |bufs[i]|..] == bufs[i] && s == Join(bufs, i) + bufs[i]
  {
  }

  /**
   * The application's part of a step: the connection `c` after the acknowledgement, shown `shown`,
   * and the thread that answers.
   */
  lemma Answered(bufs: seq<seq<byte>>, c: Conn, shown: set<Flag>, data: seq<byte>, p: Position, r: Reply, q: Position)
    requires Fits(bufs) && Begun(p) <= |bufs| && c.state == Established && c.mss == c.initialmss == UIP_TCP_MSS
    requires Close !in shown && Abort !in shown && TimedOut !in shown && Rexmit !in shown
    requires p.waiting && AckData !in shown ==> c.len == |bufs[p.i]|
    requires !p.waiting || AckData in shown ==> c.len == 0
    requires ThreadStep(bufs, CallAndSend(c, shown, data, r), p, r, q)
    ensures var o := CallAndSend(c, shown, data, r);
            && q.i <= |bufs| && q == Position(p.i + (if p.waiting && AckData in shown then 1 else 0), q.i < |bufs|)
            && o.conn.state == Established && o.conn.mss == o.conn.initialmss == UIP_TCP_MSS
            && o.conn.len == (if q.waiting then |bufs[q.i]| else 0)
            && (c.len == 0 && q.waiting ==> Payload(r.window, o.conn.len) == bufs[q.i])
            && r.action == Carry && (c.len > 0 ==> r.slen == 0)
            && (o.jump == Drop || (o.jump.SendNoopts? && !o.jump.ctl.rst && !o.jump.ctl.fin && !o.jump.ctl.syn))
  {
    AnswerIs(bufs, p, EventOf(Call(shown, data), c.mss), r, q);
  }

  // ---- One step of an endpoint ----

  /** The books after a step in which the thread has answered, or was not asked, and still is in ESTABLISHED. */
  lemma UpdateTied(x: Peer, bufs: seq<seq<byte>>, p: Position, o: Output, acked: bool, taken: nat, window: Window, q: Position)
    requires Tied(x, bufs, p) && x.open && (x.conn.state.Established? || (Opening(x.conn.state) && acked))
    requires q == Position(p.i + (if p.waiting && acked then 1 else 0), q.i < |bufs|) && q.i <= |bufs|
    requires o.conn.state == Established && o.conn.mss == o.conn.initialmss == UIP_TCP_MSS
    requires o.conn.len == (if q.waiting then |bufs[q.i]| else 0)
    requires q.waiting && (!p.waiting || acked) ==> o.conn.len > 0 && Payload(window, o.conn.len) == bufs[q.i]
    requires x.conn.state.Established? && acked ==> p.waiting
    ensures Tied(Update(x, o, acked, taken, window), bufs, q)
  {
    if q.waiting && (!p.waiting || acked) {
      EndOfStream(bufs, q.i);
    }
  }

  lemma TickTied(x: Peer, bufs: seq<seq<byte>>, p: Position, incoming: set<Wire>, r: Reply, q: Position)
    requires Fits(bufs) && Tied(x, bufs, p) && Inv(x.conn) && ThreadMove(bufs, x, p, incoming, Ticks(r), q)
    ensures Allowed(x, incoming, Ticks(r))
    ensures var (y, sent) := React(x, Ticks(r)); Tied(y, bufs, q) && forall w :: w in sent ==> Ordinary(w)
  {
    var c := x.conn;
    if c.state.Established? && c.len == 0 {
      TickPolls(x, bufs, p, r, q);
    } else if c.state.Established? && c.timer == 0 && !GivesUp(c) {
      TickAsksAgain(x, bufs, p, r, q);
    } else {
      TickQuiet(x, bufs, p, r, q);
    }
  }

  lemma TickPolls(x: Peer, bufs: seq<seq<byte>>, p: Position, r: Reply, q: Position)
    requires Fits(bufs) && Tied(x, bufs, p) && x.conn.state.Established? && x.conn.len == 0
    requires ThreadStep(bufs, Tick(x.conn, r), p, r, q)
    ensures Honest(x, x.conn.len, r)
    ensures var (y, sent) := React(x, Ticks(r)); Tied(y, bufs, q) && forall w :: w in sent ==> Ordinary(w)
  {
    Answered(bufs, x.conn, {Poll}, [], p, r, q);
    UpdateTied(x, bufs, p, Tick(x.conn, r), false, 0, r.window, q);
  }

  lemma TickAsksAgain(x: Peer, bufs: seq<seq<byte>>, p: Position, r: Reply, q: Position)
    requires Fits(bufs) && Tied(x, bufs, p) && x.conn.state.Established? && x.conn.len > 0
    requires x.conn.timer == 0 && !GivesUp(x.conn)
    requires ThreadStep(bufs, Tick(x.conn, r), p, r, q)
    ensures Honest(x, x.conn.len, r)
    ensures var (y, sent) := React(x, Ticks(r)); Tied(y, bufs, q) && forall w :: w in sent ==> Ordinary(w)
  {
    RexmitTick(x.conn, r);
    AnswerIs(bufs, p, EventOf(Call({Rexmit}, []), x.conn.mss), r, q);
    Repeats(x, bufs, p, r);
    UpdateTied(x, bufs, p, Tick(x.conn, r), false, 0, r.window, p);
  }

  lemma RexmitTick(c: Conn, r: Reply)
    requires c.state == Established && c.len > 0 && c.timer == 0 && !GivesUp(c)
    ensures var o := Tick(c, r);
            && o.call == Some(Call({Rexmit}, [])) && o.conn == c.(timer := o.conn.timer, nrtx := o.conn.nrtx)
            && (r.action == Carry && r.slen > 0 ==> o.jump == SendNoopts(PSH_ACK, c.len))
  {
  }

  /** Handing over the outstanding buffer is honest. */
  lemma Repeats(x: Peer, bufs: seq<seq<byte>>, p: Position, r: Reply)
    requires Tied(x, bufs, p) && x.conn.state.Established? && p.waiting && HandsOver(r, bufs[p.i])
    ensures Honest(x, x.conn.len, r)
  {
    EndOfStream(bufs, p.i);
  }

  /** No call, or one that tells of the end. */
  lemma TickQuiet(x: Peer, bufs: seq<seq<byte>>, p: Position, r: Reply, q: Position)
    requires Fits(bufs) && Tied(x, bufs, p) && Inv(x.conn)
    requires x.conn.state.Established? ==> x.conn.len > 0 && !(x.conn.timer == 0 && !GivesUp(x.conn))
    requires ThreadStep(bufs, Tick(x.conn, r), p, r, q)
    ensures Honest(x, x.conn.len, r)
    ensures var (y, sent) := React(x, Ticks(r)); Tied(y, bufs, q) && forall w :: w in sent ==> Ordinary(w)
  {
  }

  lemma PollTied(x: Peer, bufs: seq<seq<byte>>, p: Position, incoming: set<Wire>, r: Reply, q: Position)
    requires Fits(bufs) && Tied(x, bufs, p) && Inv(x.conn) && ThreadMove(bufs, x, p, incoming, Polls(r), q)
    ensures Allowed(x, incoming, Polls(r))
    ensures var (y, sent) := React(x, Polls(r)); Tied(y, bufs, q) && forall w :: w in sent ==> Ordinary(w)
  {
    var c := x.conn;
    if c.state.Established? && c.len == 0 {
      Answered(bufs, c, {Poll}, [], p, r, q);
    }
  }

  /** A segment in ESTABLISHED that is neither a reset nor out of sequence. */
  lemma EstablishedTied(x: Peer, bufs: seq<seq<byte>>, p: Position, w: Wire, r: Reply, q: Position)
    requires Fits(bufs) && Tied(x, bufs, p) && x.conn.state.Established? && Ordinary(w)
    requires !w.seg.ctl.rst && !OutOfSequence(x.conn, w.seg)
    requires ThreadStep(bufs, Input(x.conn, w.seg, r), p, r, q)
    ensures var acked := Acks(x.conn, w.seg);
            var o := Input(x.conn, w.seg, r);
            && Honest(x, Rest(x.conn, acked), r)
            && Tied(Update(x, o, acked, Taken(x.conn, w.seg), r.window), bufs, q)
            && (o.jump == Drop || (o.jump.SendNoopts? && !o.jump.ctl.rst && !o.jump.ctl.fin && !o.jump.ctl.syn))
  {
    var c, s := x.conn, w.seg;
    var c1 := Received(TakeAck(c, s), |s.data|).(mss := UIP_TCP_MSS);
    var shown := AckFlag(c, s) + NewDataFlag(s);
    assert Input(c, s, r) == if shown == {} then Output(c1, Drop, None) else CallAndSend(c1, shown, s.data, r);
    if shown != {} {
      Answered(bufs, c1, shown, s.data, p, r, q);
    }
    UpdateTied(x, bufs, p, Input(c, s, r), Acks(c, s), Taken(c, s), r.window, q);
  }

  /** The acknowledgement of our SYN, in either opening state: the thread begins. */
  lemma OpeningTied(x: Peer, bufs: seq<seq<byte>>, p: Position, w: Wire, r: Reply, q: Position)
    requires Fits(bufs) && Tied(x, bufs, p) && Opening(x.conn.state) && Ordinary(w)
    requires !w.seg.ctl.rst && !OutOfSequence(x.conn, w.seg)
    requires ThreadStep(bufs, Input(x.conn, w.seg, r), p, r, q)
    ensures var acked := Acks(x.conn, w.seg);
            var o := Input(x.conn, w.seg, r);
            && Tied(Update(x, o, acked, Taken(x.conn, w.seg), r.window), bufs, q)
            && (o.jump == Drop || o.jump == SendReset || (o.jump.SendNoopts? && !o.jump.ctl.rst && !o.jump.ctl.fin && !o.jump.ctl.syn))
  {
    var c, s := x.conn, w.seg;
    if Acks(c, s) && (c.state.SynRcvd? || s.ctl == SYN_ACK) {
      var data := if c.state.SynRcvd? then s.data else [];
      var shown := if c.state.SynRcvd? then {Connected} + NewDataFlag(s) else {Connected, NewData};
      Answered(bufs, Opened(c, s), shown, data, p, r, q);
      UpdateTied(x, bufs, p, Input(c, s, r), true, Taken(c, s), r.window, q);
    }
  }

  /** The connection when the application is told that it is open. */
  function Opened(c: Conn, s: Segment): Conn
  {
    if c.state.SynRcvd? then Received(TakeAck(c, s).(state := Established, len := 0), |s.data|)
    else AdoptMss(TakeAck(c, s), s.mss).(state := Established, rcvNxt := Plus32(s.seqno, 1), len := 0)
  }

  lemma HearTied(x: Peer, bufs: seq<seq<byte>>, p: Position, incoming: set<Wire>, w: Wire, r: Reply, q: Position)
    requires Fits(bufs) && Tied(x, bufs, p) && Inv(x.conn) && ThreadMove(bufs, x, p, incoming, Hears(w, r), q)
    requires Ordinary(w)
    ensures Allowed(x, incoming, Hears(w, r))
    ensures var (y, sent) := React(x, Hears(w, r)); Tied(y, bufs, q) && forall v :: v in sent ==> Ordinary(v)
  {
    var c, s := x.conn, w.seg;
    if (!x.open && s.ctl == SYN) || c.state == Closed || s.ctl.rst || OutOfSequence(c, s) {
      HearQuiet(x, bufs, p, incoming, w, r, q);
    } else if c.state.Established? {
      EstablishedTied(x, bufs, p, w, r, q);
    } else {
      OpeningTied(x, bufs, p, w, r, q);
    }
  }

  /** The thread is not asked: a SYN, a reset, or a segment that is not taken. */
  lemma HearQuiet(x: Peer, bufs: seq<seq<byte>>, p: Position, incoming: set<Wire>, w: Wire, r: Reply, q: Position)
    requires Tied(x, bufs, p) && Ordinary(w) && ThreadMove(bufs, x, p, incoming, Hears(w, r), q)
    requires (!x.open && w.seg.ctl == SYN) || x.conn.state == Closed || w.seg.ctl.rst || OutOfSequence(x.conn, w.seg)
    ensures Allowed(x, incoming, Hears(w, r))
    ensures var (y, sent) := React(x, Hears(w, r)); Tied(y, bufs, q) && forall v :: v in sent ==> Ordinary(v)
  {
  }

  lemma MoveTied(x: Peer, bufs: seq<seq<byte>>, p: Position, incoming: set<Wire>, e: PeerEvent, q: Position)
    requires Fits(bufs) && Tied(x, bufs, p) && Inv(x.conn) && ThreadMove(bufs, x, p, incoming, e, q)
    requires forall w :: w in incoming ==> Ordinary(w)
    ensures Allowed(x, incoming, e)
    ensures var (y, sent) := React(x, e); Tied(y, bufs, q) && forall w :: w in sent ==> Ordinary(w)
  {
    match e {
      case Ticks(r) => TickTied(x, bufs, p, incoming, r, q);
      case Polls(r) => PollTied(x, bufs, p, incoming, r, q);
      case Hears(w, r) => HearTied(x, bufs, p, incoming, w, r, q);
    }
  }

  // ---- Whole runs ----

  /** The buffers that each host's thread sends. */
  datatype Load = Load(a: seq<seq<byte>>, b: seq<seq<byte>>)

  datatype Hosts = Hosts(sys: System, pa: Position, pb: Position)

  /** A move, and where it takes the thread of the host that makes it. */
  datatype ThreadedMove = ThreadedMove(m: Move, q: Position)

  ghost predicate Possible(t: Hosts, l: Load, tm: ThreadedMove)
  {
    if tm.m.byClient then ThreadMove(l.a, t.sys.a, t.pa, t.sys.ba, tm.m.e, tm.q)
    else ThreadMove(l.b, t.sys.b, t.pb, t.sys.ab, tm.m.e, tm.q)
  }

  function Moved(t: Hosts, tm: ThreadedMove): Hosts
  {
    if tm.m.byClient then Hosts(Next(t.sys, tm.m), tm.q, t.pb) else Hosts(Next(t.sys, tm.m), t.pa, tm.q)
  }

  ghost predicate AllPossible(t: Hosts, l: Load, tms: seq<ThreadedMove>)
    decreases |tms|
  {
    tms == [] || (Possible(t, l, tms[0]) && AllPossible(Moved(t, tms[0]), l, tms[1..]))
  }

  function PlayThreads(t: Hosts, tms: seq<ThreadedMove>): Hosts
    decreases |tms|
  {
    if tms == [] then t else PlayThreads(Moved(t, tms[0]), tms[1..])
  }

  function Moves(tms: seq<ThreadedMove>): seq<Move>
  {
    if tms == [] then [] else [tms[0].m] + Moves(tms[1..])
  }

  predicate HostsTied(t: Hosts, l: Load)
  {
    && Fits(l.a) && Fits(l.b) && Safe(t.sys)
    && Tied(t.sys.a, l.a, t.pa) && Tied(t.sys.b, l.b, t.pb)
    && (forall w :: w in t.sys.ab ==> Ordinary(w)) && (forall w :: w in t.sys.ba ==> Ordinary(w))
  }

  lemma MovedTied(t: Hosts, l: Load, tm: ThreadedMove)
    requires HostsTied(t, l) && Possible(t, l, tm)
    ensures MoveAllowed(t.sys, tm.m) && HostsTied(Moved(t, tm), l)
  {
    if tm.m.byClient {
      MoveTied(t.sys.a, l.a, t.pa, t.sys.ba, tm.m.e, tm.q);
    } else {
      MoveTied(t.sys.b, l.b, t.pb, t.sys.ab, tm.m.e, tm.q);
    }
    NextSafe(t.sys, tm.m);
  }

  /** A run of threads is a run that the end-to-end result speaks of. */
  lemma {:induction false} ThreadsAreHonest(t: Hosts, l: Load, tms: seq<ThreadedMove>)
    requires HostsTied(t, l) && AllPossible(t, l, tms)
    ensures RunAllowed(t.sys, Moves(tms)) && PlayThreads(t, tms).sys == Play(t.sys, Moves(tms))
    ensures HostsTied(PlayThreads(t, tms), l)
    decreases |tms|
  {
    if tms != [] {
      MovedTied(t, l, tms[0]);
      ThreadsAreHonest(Moved(t, tms[0]), l, tms[1..]);
      PlayCons(t.sys, tms[0].m, Moves(tms[1..]));
    }
  }

  function StartThreads(clientSlot: Conn, serverSlot: Conn, issA: u32, issB: u32): Hosts
  {
    Hosts(Start(clientSlot, serverSlot, issA, issB), Position(0, false), Position(0, false))
  }

  /** What x's thread has been acknowledged has been delivered at y, and that and more is all that has. */
  predicate ChainDelivered(x: Peer, bufs: seq<seq<byte>>, p: Position, y: Peer)
  {
    && p.i <= |bufs| && y.got <= Join(bufs, |bufs|)
    && (x.conn.state.Established? && y.conn.state.Established? ==> Join(bufs, p.i) <= y.got)
  }

  /**
   * Two threads that send their buffers over a channel that drops, duplicates and reorders: each
   * side receives a prefix of the other's buffers in order, and by the time a buffer counts as
   * acknowledged it has been received.
   */
  lemma ThreadsDeliver(clientSlot: Conn, serverSlot: Conn, issA: u32, issB: u32, l: Load, tms: seq<ThreadedMove>)
    requires Inv(clientSlot) && Inv(serverSlot) && serverSlot.state == Closed && serverSlot.len == 0
    requires Fits(l.a) && Fits(l.b) && AllPossible(StartThreads(clientSlot, serverSlot, issA, issB), l, tms)
    ensures var t := PlayThreads(StartThreads(clientSlot, serverSlot, issA, issB), tms);
            ChainDelivered(t.sys.a, l.a, t.pa, t.sys.b) && ChainDelivered(t.sys.b, l.b, t.pb, t.sys.a)
  {
    var t0 := StartThreads(clientSlot, serverSlot, issA, issB);
    StartSafe(clientSlot, serverSlot, issA, issB);
    assert HostsTied(t0, l);
    ThreadsAreHonest(t0, l, tms);
    EndToEnd(clientSlot, serverSlot, issA, issB, Moves(tms));
    var t := PlayThreads(t0, tms);
    Chained(t.sys.a, l.a, t.pa, t.sys.b);
    Chained(t.sys.b, l.b, t.pb, t.sys.a);
  }

  lemma Chained(x: Peer, bufs: seq<seq<byte>>, p: Position, y: Peer)
    requires Tied(x, bufs, p) && Account(x) && TcpSafety.Delivers(x, y)
    ensures ChainDelivered(x, bufs, p, y)
  {
    JoinGrows(bufs, Begun(p), |bufs|);
    if x.conn.state.Established? && y.conn.state.Established? {
      JoinGrows(bufs, p.i, Begun(p));
      if p.waiting {
        EndOfStream(bufs, p.i);
      }
      assert |Join(bufs, p.i)| <= |y.got|;
    }
  }

  lemma {:induction false} JoinGrows(bufs: seq<seq<byte>>, i: nat, j: nat)
    requires i <= j <= |bufs|
    ensures Join(bufs, i) <= Join(bufs, j)
    decreases j
  {
    if i < j {
      JoinGrows(bufs, i, j - 1);
    }
  }
}

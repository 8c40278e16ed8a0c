/**
 * The TCP connection machine of uip_process (uip/uip.c:692-810, 1289-1866) as functions
 * from a connection, an event and the application's answer to the new connection, the send
 * label that is jumped to and the call the application receives.
 *
 * Sequence numbers are 32-bit values here; `Connection` refines them to byte arrays.
 */
module Tcp {
  import opened Words

  const UIP_BUFSIZE: nat := 420
  const UIP_LLH_LEN: nat := 14
  const UIP_TCPIP_HLEN: nat := 40
  const UIP_TCP_MSS: nat := UIP_BUFSIZE - UIP_LLH_LEN - UIP_TCPIP_HLEN
  const UIP_RECEIVE_WINDOW: nat := UIP_TCP_MSS
  const TCP_OPT_MSS_LEN: nat := 4
  const UIP_RTO: byte := 3
  const UIP_MAXRTX: byte := 8
  const UIP_MAXSYNRTX: byte := 5
  const UIP_TIME_WAIT_TIMEOUT: byte := 120

  /** The control bits, URG excepted. */
  datatype Ctl = Ctl(fin: bool, syn: bool, rst: bool, psh: bool, ack: bool)

  const FIN_ACK := Ctl(true, false, false, false, true)
  const SYN := Ctl(false, true, false, false, false)
  const SYN_ACK := Ctl(false, true, false, false, true)
  const RST_ACK := Ctl(false, false, true, false, true)
  const PSH_ACK := Ctl(false, false, false, true, true)
  const ACK := Ctl(false, false, false, false, true)

  /** `mss` is the value of the MSS option, if the segment has one. */
  datatype Segment = Segment(seqno: u32, ackno: u32, ctl: Ctl, wnd: u16, mss: Option<u16>, data: seq<byte>)

  datatype State = Closed | SynRcvd | SynSent | Established | FinWait1 | FinWait2 | Closing | TimeWait | LastAck

  /** struct uip_conn without the addressing fields, which no step of a connection changes. */
  datatype Conn = Conn(state: State, sndNxt: u32, rcvNxt: u32, len: u16, mss: u16, initialmss: u16,
                       sa: byte, sv: byte, rto: byte, timer: byte, nrtx: byte)

  /** uip_flags. */
  datatype Flag = AckData | NewData | Rexmit | Poll | Close | Abort | Connected | TimedOut

  /** What the application is shown when it is called: the flags and the uip_len bytes of data. */
  datatype Call = Call(flags: set<Flag>, data: seq<byte>)

  datatype Action = Carry | CloseConn | AbortConn

  type Window = w: seq<byte> | |w| == UIP_TCP_MSS witness seq(UIP_TCP_MSS, i => 0)

  /**
   * The application's answer: whether it called uip_close or uip_abort, the value of
   * uip_slen on return (0 when it did not call uip_send) and the bytes at uip_sappdata.
   */
  datatype Reply = Reply(action: Action, slen: u16, window: Window)

  /** The labels uip_process jumps to; `n` is the number of payload bytes. */
  datatype Jump =
    | Drop
    | SendAck
    | SendNodata(ctl: Ctl)
    | SendNoopts(ctl: Ctl, n: u16)
    | SendSyn(ctl: Ctl)
    | SendReset

  datatype Output = Output(conn: Conn, jump: Jump, call: Option<Call>)

  /** The first `n` bytes at uip_appdata; every reachable connection has n <= UIP_TCP_MSS. */
  function Payload(window: Window, n: nat): seq<byte> { if n <= |window| then window[..n] else window }

  /** The segment a label puts on the wire; `input` is the segment being answered. */
  function Emitted(o: Output, window: Window, input: Segment): Option<Segment>
  {
    var c := o.conn;
    match o.jump
    case Drop => None
    case SendAck => Some(Segment(c.sndNxt, c.rcvNxt, ACK, UIP_RECEIVE_WINDOW, None, []))
    case SendNodata(ctl) => Some(Segment(c.sndNxt, c.rcvNxt, ctl, UIP_RECEIVE_WINDOW, None, []))
    case SendNoopts(ctl, n) => Some(Segment(c.sndNxt, c.rcvNxt, ctl, UIP_RECEIVE_WINDOW, None, Payload(window, n)))
    case SendSyn(ctl) => Some(Segment(c.sndNxt, c.rcvNxt, ctl, UIP_RECEIVE_WINDOW, Some(UIP_TCP_MSS), []))
    case SendReset => Some(Segment(input.ackno, Plus32(input.seqno, 1), RST_ACK, input.wnd, None, []))
  }

  /** uip_close and uip_abort overwrite uip_flags. */
  function FlagsAfter(shown: set<Flag>, action: Action): set<Flag>
  {
    match action
    case Carry => shown
    case CloseConn => {Close}
    case AbortConn => {Abort}
  }

  /** Label apprexmit. */
  function AppRexmit(c: Conn, flags: set<Flag>, slen: u16): Jump
  {
    if slen > 0 && c.len > 0 then SendNoopts(PSH_ACK, c.len)
    else if NewData in flags then SendNoopts(ACK, 0)
    else Drop
  }

  /** The length that is outstanding after the application has offered `slen` > 0 bytes. */
  function Offered(c: Conn, flags: set<Flag>, slen: u16): u16
  {
    if AckData in flags || c.len == 0 then if slen > c.mss then c.mss else slen else c.len
  }

  /** Label appsend; `flags` and `slen` are what the application's call left behind. */
  function AppSend(c: Conn, flags: set<Flag>, slen: u16): (Conn, Jump)
  {
    if Abort in flags then
      (c.(state := Closed), SendNodata(RST_ACK))
    else if Close in flags then
      (c.(len := 1, state := FinWait1, nrtx := 0), SendNodata(FIN_ACK))
    else if slen > 0 then
      var n := Offered(c, flags, slen);
      var c1 := c.(len := n, nrtx := 0);
      (c1, AppRexmit(c1, flags, n))
    else
      (c.(nrtx := 0), AppRexmit(c.(nrtx := 0), flags, 0))
  }

  function CallAndSend(c: Conn, shown: set<Flag>, data: seq<byte>, r: Reply): Output
  {
    var (c1, jump) := AppSend(c, FlagsAfter(shown, r.action), r.slen);
    Output(c1, jump, Some(Call(shown, data)))
  }

  /** UIP_POLL_REQUEST. */
  function PollRequest(c: Conn, r: Reply): Output
  {
    if c.state == Established && c.len == 0 then CallAndSend(c, {Poll}, [], r)
    else Output(c, Drop, None)
  }

  function Backoff(nrtx: byte): byte
  {
    if nrtx == 0 then UIP_RTO
    else if nrtx == 1 then 2 * UIP_RTO
    else if nrtx == 2 then 4 * UIP_RTO
    else if nrtx == 3 then 8 * UIP_RTO
    else 16 * UIP_RTO
  }

  predicate GivesUp(c: Conn)
  {
    c.nrtx == UIP_MAXRTX || ((c.state == SynSent || c.state == SynRcvd) && c.nrtx == UIP_MAXSYNRTX)
  }

  /** UIP_TIMER. */
  function Tick(c: Conn, r: Reply): Output
  {
    if c.state == TimeWait || c.state == FinWait2 then
      var t := Plus8(c.timer, 1);
      Output(c.(timer := t, state := if t == UIP_TIME_WAIT_TIMEOUT then Closed else c.state), Drop, None)
    else if c.state == Closed then
      Output(c, Drop, None)
    else if c.len > 0 then
      if c.timer > 0 then Output(c.(timer := c.timer - 1), Drop, None)
      else if GivesUp(c) then
        Output(c.(timer := 255, state := Closed), SendNodata(RST_ACK), Some(Call({TimedOut}, [])))
      else Retransmit(c.(timer := Backoff(c.nrtx), nrtx := Plus8(c.nrtx, 1)), r)
    else if c.state == Established then CallAndSend(c, {Poll}, [], r)
    else Output(c, Drop, None)
  }

  function Retransmit(c: Conn, r: Reply): Output
    requires c.state != Closed && c.state != TimeWait && c.state != FinWait2
  {
    match c.state
    case SynRcvd => Output(c, SendSyn(SYN_ACK), None)
    case SynSent => Output(c, SendSyn(SYN), None)
    case Established =>
      Output(c, AppRexmit(c, FlagsAfter({Rexmit}, r.action), r.slen), Some(Call({Rexmit}, [])))
    case FinWait1 => Output(c, SendNodata(FIN_ACK), None)
    case Closing => Output(c, SendNodata(FIN_ACK), None)
    case LastAck => Output(c, SendNodata(FIN_ACK), None)
  }

  datatype Rtt = Rtt(sa: byte, sv: byte, rto: byte)

  /** How far a measurement lies from the smoothed round-trip time; `timer` is what is left of `rto`. */
  function Deviation(e: Rtt, timer: byte): int { SignedChar(SignedChar(e.rto - timer) - e.sa / 8) }

  /** The negation of -128 wraps around to itself. */
  function Magnitude(m: int): int
    requires -0x80 <= m < 0x80
  {
    if m < 0 then SignedChar(-m) else m
  }

  /** Van Jacobson's estimator in 8-bit arithmetic. */
  function Estimate(e: Rtt, timer: byte): Rtt
  {
    var m := Deviation(e, timer);
    var sa := Plus8(e.sa, m);
    var sv := Plus8(e.sv, SignedChar(Magnitude(m) - e.sv / 4));
    Rtt(sa, sv, Plus8(sa / 8, sv))
  }

  /** The segment acknowledges exactly what is outstanding. */
  predicate Acks(c: Conn, s: Segment)
  {
    s.ctl.ack && c.len > 0 && s.ackno == Plus32(c.sndNxt, c.len)
  }

  function TakeAck(c: Conn, s: Segment): Conn
  {
    if !Acks(c, s) then c
    else
      var e := if c.nrtx == 0 then Estimate(Rtt(c.sa, c.sv, c.rto), c.timer) else Rtt(c.sa, c.sv, c.rto);
      c.(sndNxt := s.ackno, sa := e.sa, sv := e.sv, rto := e.rto, timer := e.rto, len := 0)
  }

  function AckFlag(c: Conn, s: Segment): set<Flag> { if Acks(c, s) then {AckData} else {} }

  function NewDataFlag(s: Segment): set<Flag> { if s.data == [] then {} else {NewData} }

  /** A segment that occupies sequence space is taken only at rcv_nxt. */
  predicate OutOfSequence(c: Conn, s: Segment)
  {
    && !(c.state == SynSent && s.ctl == SYN_ACK)
    && (s.data != [] || s.ctl.syn || s.ctl.fin)
    && s.seqno != c.rcvNxt
  }

  function Received(c: Conn, n: nat): Conn { c.(rcvNxt := Plus32(c.rcvNxt, n)) }

  /** UIP_DATA on a segment that was matched with this connection (label found). */
  function Input(c: Conn, s: Segment, r: Reply): Output
    requires c.state != Closed
  {
    if s.ctl.rst then Output(c.(state := Closed), Drop, Some(Call({Abort}, [])))
    else if OutOfSequence(c, s) then Output(c, SendAck, None)
    else Dispatch(TakeAck(c, s), AckFlag(c, s), s, r)
  }

  /** The switch on the connection's state, after the acknowledgement has been taken. */
  function Dispatch(c: Conn, flags: set<Flag>, s: Segment, r: Reply): Output
    requires c.state != Closed
  {
    var acked := AckData in flags;
    match c.state
    case SynRcvd => InSynRcvd(c, acked, s, r)
    case SynSent => InSynSent(c, acked, s, r)
    case Established => InEstablished(c, flags, s, r)
    case LastAck =>
      if acked then Output(c.(state := Closed), Drop, Some(Call({Close}, [])))
      else Output(c, Drop, None)
    case FinWait1 => InFinWait1(c, acked, s)
    case FinWait2 => InFinWait2(c, s)
    case TimeWait => Output(c, SendAck, None)
    case Closing => Output(if acked then c.(state := TimeWait, timer := 0) else c, Drop, None)
  }

  function InSynRcvd(c: Conn, acked: bool, s: Segment, r: Reply): Output
  {
    if !acked then Output(c, Drop, None)
    else
      CallAndSend(Received(c.(state := Established, len := 0), |s.data|), {Connected} + NewDataFlag(s), s.data, r)
  }

  /** The smaller of the peer's MSS option and our own limit. */
  function AdoptMss(c: Conn, mss: Option<u16>): Conn
  {
    match mss
    case None => c
    case Some(m) => var n := if m > UIP_TCP_MSS then UIP_TCP_MSS else m; c.(mss := n, initialmss := n)
  }

  function InSynSent(c: Conn, acked: bool, s: Segment, r: Reply): Output
  {
    if acked && s.ctl == SYN_ACK then
      var c1 := AdoptMss(c, s.mss).(state := Established, rcvNxt := Plus32(s.seqno, 1), len := 0);
      CallAndSend(c1, {Connected, NewData}, [], r)
    else Output(c.(state := Closed), SendReset, Some(Call({Abort}, s.data)))
  }

  function InEstablished(c: Conn, flags: set<Flag>, s: Segment, r: Reply): Output
  {
    if s.ctl.fin then
      if c.len > 0 then Output(c, Drop, None)
      else
        var c1 := Received(c, 1 + |s.data|).(len := 1, state := LastAck, nrtx := 0);
        Output(c1, SendNodata(FIN_ACK), Some(Call(flags + {Close} + NewDataFlag(s), s.data)))
    else
      var wnd := if s.wnd > c.initialmss || s.wnd == 0 then c.initialmss else s.wnd;
      var c1 := Received(c, |s.data|).(mss := wnd);
      var shown := flags + NewDataFlag(s);
      if shown == {} then Output(c1, Drop, None) else CallAndSend(c1, shown, s.data, r)
  }

  function InFinWait1(c: Conn, acked: bool, s: Segment): Output
  {
    var c1 := Received(c, |s.data|);
    if s.ctl.fin then
      var c2 := if acked then c1.(state := TimeWait, timer := 0, len := 0) else c1.(state := Closing);
      Output(Received(c2, 1), SendAck, Some(Call({Close}, s.data)))
    else if acked then Output(c1.(state := FinWait2, len := 0), Drop, None)
    else Output(c1, if s.data != [] then SendAck else Drop, None)
  }

  function InFinWait2(c: Conn, s: Segment): Output
  {
    var c1 := Received(c, |s.data|);
    if s.ctl.fin then
      Output(Received(c1.(state := TimeWait, timer := 0), 1), SendAck, Some(Call({Close}, s.data)))
    else Output(c1, if s.data != [] then SendAck else Drop, None)
  }

  /** The fields uip_connect fills in; `c` is what the table slot held before. */
  function ActiveOpen(c: Conn, iss: u32): Conn
  {
    c.(state := SynSent, sndNxt := iss, len := 1, mss := UIP_TCP_MSS, initialmss := UIP_TCP_MSS,
       sa := 0, sv := 16, rto := UIP_RTO, timer := 1, nrtx := 0)
  }

  /** Label found_listen: a new connection for a SYN, answered with a SYNACK. */
  function PassiveOpen(c: Conn, s: Segment, iss: u32): Output
  {
    var c1 := c.(state := SynRcvd, sndNxt := iss, len := 1, rcvNxt := Plus32(s.seqno, 1),
                 sa := 0, sv := 4, rto := UIP_RTO, timer := UIP_RTO, nrtx := 0);
    Output(AdoptMss(c1, s.mss), SendSyn(SYN_ACK), None)
  }
}

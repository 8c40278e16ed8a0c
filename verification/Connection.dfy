/**
 * struct uip_conn and the parts of uip_process that work on one connection, statement by
 * statement (uip/uip.c:692-808, 1404-1786; uip/uip.h:1154-1178).  The sequence numbers are
 * byte arrays, compared byte by byte and advanced through uip_add32.  Every method is proved
 * to compute exactly the function of the same name in `Tcp`.
 */
module Connection {
  import opened Words
  import opened Tcp

  type Bytes4 = s: seq<byte> | |s| == 4 witness [0, 0, 0, 0]

  /** The header fields of a segment as they stand in the packet buffer. */
  datatype Header = Header(seqno: Bytes4, ackno: Bytes4, ctl: Ctl, wnd: u16, mss: Option<u16>, data: seq<byte>)

  function SegmentOf(h: Header): Segment
  {
    Segment(Be32(h.seqno), Be32(h.ackno), h.ctl, h.wnd, h.mss, h.data)
  }

  /** Byte-by-byte comparison of two sequence numbers. */
  predicate Same(a: Bytes4, b: Bytes4)
    ensures Same(a, b) <==> Be32(a) == Be32(b)
  {
    Be32Injective(a, b);
    a[0] == b[0] && a[1] == b[1] && a[2] == b[2] && a[3] == b[3]
  }

  /** Byte-by-byte assignment of a sequence number. */
  method Assign(dst: array<byte>, src: Bytes4)
    requires dst.Length == 4
    modifies dst
    ensures dst[..] == src
  {
    dst[0] := src[0];
    dst[1] := src[1];
    dst[2] := src[2];
    dst[3] := src[3];
  }

  class Connection {
    var state: State
    const sndNxt: array<byte>
    const rcvNxt: array<byte>
    var len: u16
    var mss: u16
    var initialmss: u16
    var sa: byte
    var sv: byte
    var rto: byte
    var timer: byte
    var nrtx: byte

    ghost predicate Valid()
    {
      sndNxt.Length == 4 && rcvNxt.Length == 4 && sndNxt != rcvNxt
    }

    ghost function View(): Conn
      requires Valid()
      reads this, sndNxt, rcvNxt
    {
      Conn(state, Be32(sndNxt[..]), Be32(rcvNxt[..]), len, mss, initialmss, sa, sv, rto, timer, nrtx)
    }

    /** A zeroed connection table entry. */
    constructor ()
      ensures Valid() && fresh(sndNxt) && fresh(rcvNxt)
      ensures sndNxt[..] == [0, 0, 0, 0] && rcvNxt[..] == [0, 0, 0, 0]
      ensures state == Closed && len == mss == initialmss == 0
      ensures sa == sv == rto == timer == nrtx == 0
    {
      state := Closed;
      sndNxt := new byte[4][0, 0, 0, 0];
      rcvNxt := new byte[4][0, 0, 0, 0];
      len, mss, initialmss, sa, sv, rto, timer, nrtx := 0, 0, 0, 0, 0, 0, 0, 0;
    }

    /** The connection with the given contents. */
    method Load(v: Conn)
      requires Valid()
      modifies this, sndNxt, rcvNxt
      ensures View() == v
    {
      Bytes32Value(v.sndNxt);
      Bytes32Value(v.rcvNxt);
      LoadFields(v);
      Assign(sndNxt, Bytes32(v.sndNxt));
      Assign(rcvNxt, Bytes32(v.rcvNxt));
    }

    method LoadFields(v: Conn)
      requires Valid()
      modifies this
      ensures View() == v.(sndNxt := View().sndNxt, rcvNxt := View().rcvNxt)
    {
      state, len, mss, initialmss := v.state, v.len, v.mss, v.initialmss;
      sa, sv, rto, timer, nrtx := v.sa, v.sv, v.rto, v.timer, v.nrtx;
    }

    /** Its contents. */
    method Save() returns (v: Conn)
      requires Valid()
      ensures v == View()
    {
      v := Conn(state, Be32(sndNxt[..]), Be32(rcvNxt[..]), len, mss, initialmss, sa, sv, rto, timer, nrtx);
    }

    /** The assignments of uip_connect to the connection. */
    method ActiveOpen(iss: Bytes4)
      requires Valid()
      modifies this, sndNxt
      ensures View() == Tcp.ActiveOpen(old(View()), Be32(iss))
    {
      state := SynSent;
      Assign(sndNxt, iss);
      mss := UIP_TCP_MSS;
      initialmss := mss;
      len := 1;
      nrtx := 0;
      timer := 1;
      rto := UIP_RTO;
      sa := 0;
      sv := 16;
    }

    /** The assignments at label found_listen, for the SYN with header `h`. */
    method PassiveOpen(h: Header, iss: Bytes4, acc32: array<byte>) returns (jump: Jump)
      requires Valid() && acc32.Length == 4 && acc32 != sndNxt && acc32 != rcvNxt
      modifies this, sndNxt, rcvNxt, acc32
      ensures Output(View(), jump, None) == Tcp.PassiveOpen(old(View()), SegmentOf(h), Be32(iss))
    {
      timer := UIP_RTO;
      rto := timer;
      sa := 0;
      sv := 4;
      nrtx := 0;
      state := SynRcvd;
      Assign(sndNxt, iss);
      len := 1;
      AfterSyn(h.seqno, acc32);
      AdoptMss(h.mss);
      jump := SendSyn(SYN_ACK);
    }

    /** rcv_nxt becomes the number of a SYN plus one. */
    method AfterSyn(seqno: Bytes4, acc32: array<byte>)
      requires Valid() && acc32.Length == 4 && acc32 != sndNxt && acc32 != rcvNxt
      modifies rcvNxt, acc32
      ensures View() == old(View()).(rcvNxt := Plus32(Be32(seqno), 1))
    {
      Assign(rcvNxt, seqno);
      AddRcvNxt(1, acc32);
    }

    /** The use of the MSS option of a SYN. */
    method AdoptMss(m: Option<u16>)
      requires Valid()
      modifies `mss, `initialmss
      ensures View() == Tcp.AdoptMss(old(View()), m)
    {
      if m.Some? {
        mss := if m.value > UIP_TCP_MSS then UIP_TCP_MSS else m.value;
        initialmss := mss;
      }
    }

    /** uip_add_rcv_nxt */
    method AddRcvNxt(n: u16, acc32: array<byte>)
      requires Valid() && acc32.Length == 4 && acc32 != sndNxt && acc32 != rcvNxt
      modifies rcvNxt, acc32
      ensures View() == Received(old(View()), n)
    {
      Add32(rcvNxt, 0, n, acc32);
      Assign(rcvNxt, acc32[..]);
    }

    /** Label apprexmit. */
    method AppRexmit(flags: set<Flag>, slen: u16) returns (jump: Jump)
      requires Valid()
      ensures jump == Tcp.AppRexmit(View(), flags, slen)
    {
      if slen > 0 && len > 0 {
        return SendNoopts(PSH_ACK, len);
      }
      if NewData in flags {
        return SendNoopts(ACK, 0);
      }
      return Drop;
    }

    /** Label appsend. */
    method AppSend(flags: set<Flag>, slen0: u16) returns (jump: Jump)
      requires Valid()
      modifies this
      ensures (View(), jump) == Tcp.AppSend(old(View()), flags, slen0)
    {
      var slen := slen0;
      if Abort in flags {
        state := Closed;
        return SendNodata(RST_ACK);
      }
      if Close in flags {
        len := 1;
        state := FinWait1;
        nrtx := 0;
        return SendNodata(FIN_ACK);
      }
      if slen > 0 {
        if AckData in flags {
          len := 0;
        }
        if len == 0 {
          if slen > mss {
            slen := mss;
          }
          len := slen;
        } else {
          slen := len;
        }
      }
      nrtx := 0;
      jump := AppRexmit(flags, slen);
    }

    /** uip_process(UIP_POLL_REQUEST) */
    method PollRequest(r: Reply) returns (jump: Jump, call: Option<Call>)
      requires Valid()
      modifies this
      ensures Output(View(), jump, call) == Tcp.PollRequest(old(View()), r)
    {
      if state == Established && len == 0 {
        call := Some(Call({Poll}, []));
        jump := AppSend(FlagsAfter({Poll}, r.action), r.slen);
        return;
      }
      return Drop, None;
    }

    /** uip_process(UIP_TIMER), after the advance of the initial sequence number. */
    method Tick(r: Reply) returns (jump: Jump, call: Option<Call>)
      requires Valid()
      modifies this
      ensures Output(View(), jump, call) == Tcp.Tick(old(View()), r)
    {
      call := None;
      if state == TimeWait || state == FinWait2 {
        timer := Plus8(timer, 1);
        if timer == UIP_TIME_WAIT_TIMEOUT {
          state := Closed;
        }
      } else if state != Closed {
        if len != 0 {
          var before := timer;
          timer := Plus8(timer, -1);
          if before == 0 {
            if nrtx == UIP_MAXRTX || ((state == SynSent || state == SynRcvd) && nrtx == UIP_MAXSYNRTX) {
              state := Closed;
              return SendNodata(RST_ACK), Some(Call({TimedOut}, []));
            }
            timer := Backoff(nrtx);
            nrtx := Plus8(nrtx, 1);
            match state {
              case SynRcvd => return SendSyn(SYN_ACK), call;
              case SynSent => return SendSyn(SYN), call;
              case Established =>
                call := Some(Call({Rexmit}, []));
                jump := AppRexmit(FlagsAfter({Rexmit}, r.action), r.slen);
                return;
              case FinWait1 | Closing | LastAck => return SendNodata(FIN_ACK), call;
            }
          }
        } else if state == Established {
          call := Some(Call({Poll}, []));
          jump := AppSend(FlagsAfter({Poll}, r.action), r.slen);
          return;
        }
      }
      jump := Drop;
    }

    /** The acknowledgement test, the RTT estimation and the reset of the timer. */
    method TakeAck(h: Header, acc32: array<byte>) returns (flags: set<Flag>)
      requires Valid() && acc32.Length == 4 && acc32 != sndNxt && acc32 != rcvNxt
      modifies this, sndNxt, acc32
      ensures View() == Tcp.TakeAck(old(View()), SegmentOf(h))
      ensures flags == AckFlag(old(View()), SegmentOf(h))
    {
      flags := {};
      if h.ctl.ack && len != 0 {
        Add32(sndNxt, 0, len, acc32);
        assert sndNxt[0..4] == sndNxt[..];
        if Same(h.ackno, acc32[..]) {
          Assign(sndNxt, acc32[..]);
          if nrtx == 0 {
            EstimateRtt();
          }
          flags := {AckData};
          timer := rto;
          len := 0;
        }
      }
    }

    method EstimateRtt()
      requires Valid()
      modifies `sa, `sv, `rto
      ensures Rtt(sa, sv, rto) == Estimate(old(Rtt(sa, sv, rto)), timer)
    {
      var m := SignedChar(rto - timer);
      m := SignedChar(m - sa / 8);
      assert m == Deviation(old(Rtt(sa, sv, rto)), timer);
      sa := Plus8(sa, m);
      if m < 0 {
        m := SignedChar(-m);
      }
      assert m == Magnitude(Deviation(old(Rtt(sa, sv, rto)), timer));
      m := SignedChar(m - sv / 4);
      sv := Plus8(sv, m);
      rto := Plus8(sa / 8, sv);
    }

    /** Label found: a segment for this connection. */
    method Input(h: Header, r: Reply, acc32: array<byte>) returns (jump: Jump, call: Option<Call>)
      requires Valid() && acc32.Length == 4 && acc32 != sndNxt && acc32 != rcvNxt
      requires state != Closed && |h.data| <= 0xffff - UIP_TCPIP_HLEN
      modifies this, sndNxt, rcvNxt, acc32
      ensures Output(View(), jump, call) == Tcp.Input(old(View()), SegmentOf(h), r)
    {
      call := None;
      if h.ctl.rst {
        state := Closed;
        return Drop, Some(Call({Abort}, []));
      }
      var unexpected := OutOfOrder(h);
      if unexpected {
        return SendAck, call;
      }
      ghost var c, s := View(), SegmentOf(h);
      var flags := TakeAck(h, acc32);
      ghost var o := Tcp.Dispatch(View(), flags, s, r);
      assert Tcp.Input(c, s, r) == o;
      jump, call := Dispatch(h, flags, r, acc32);
    }

    /** The sequence number test. */
    method OutOfOrder(h: Header) returns (unexpected: bool)
      requires Valid()
      ensures unexpected == OutOfSequence(View(), SegmentOf(h))
    {
      if !(state == SynSent && h.ctl == SYN_ACK) {
        if (|h.data| > 0 || h.ctl.syn || h.ctl.fin) && !Same(h.seqno, rcvNxt[..]) {
          return true;
        }
      }
      return false;
    }

    /** The switch on the connection's state. */
    method Dispatch(h: Header, flags: set<Flag>, r: Reply, acc32: array<byte>) returns (jump: Jump, call: Option<Call>)
      requires Valid() && acc32.Length == 4 && acc32 != sndNxt && acc32 != rcvNxt
      requires state != Closed && |h.data| <= 0xffff - UIP_TCPIP_HLEN
      modifies this, rcvNxt, acc32
      ensures Output(View(), jump, call) == Tcp.Dispatch(old(View()), flags, SegmentOf(h), r)
    {
      call := None;
      match state {
        case SynRcvd => jump, call := InSynRcvd(h, flags, r, acc32);
        case SynSent => jump, call := InSynSent(h, flags, r, acc32);
        case Established => jump, call := InEstablished(h, flags, r, acc32);
        case LastAck =>
          if AckData in flags {
            state := Closed;
            call := Some(Call({Close}, []));
          }
          jump := Drop;
        case FinWait1 => jump, call := InFinWait1(h, flags, acc32);
        case FinWait2 => jump, call := InFinWait2(h, acc32);
        case TimeWait => jump := SendAck;
        case Closing =>
          if AckData in flags {
            state := TimeWait;
            timer := 0;
          }
          jump := Drop;
      }
    }

    method InSynRcvd(h: Header, flags: set<Flag>, r: Reply, acc32: array<byte>) returns (jump: Jump, call: Option<Call>)
      requires Valid() && acc32.Length == 4 && acc32 != sndNxt && acc32 != rcvNxt
      requires |h.data| <= 0xffff - UIP_TCPIP_HLEN
      modifies this, rcvNxt, acc32
      ensures Output(View(), jump, call) == Tcp.InSynRcvd(old(View()), AckData in flags, SegmentOf(h), r)
    {
      if AckData in flags {
        state := Established;
        var shown := {Connected};
        len := 0;
        if |h.data| > 0 {
          shown := shown + {NewData};
          AddRcvNxt(|h.data|, acc32);
        } else {
          Plus32Zero(Be32(rcvNxt[..]));
        }
        call := Some(Call(shown, h.data));
        assert shown == {Connected} + NewDataFlag(SegmentOf(h));
        jump := AppSend(FlagsAfter(shown, r.action), r.slen);
        return;
      }
      return Drop, None;
    }

    method InSynSent(h: Header, flags: set<Flag>, r: Reply, acc32: array<byte>) returns (jump: Jump, call: Option<Call>)
      requires Valid() && acc32.Length == 4 && acc32 != sndNxt && acc32 != rcvNxt
      modifies this, rcvNxt, acc32
      ensures Output(View(), jump, call) == Tcp.InSynSent(old(View()), AckData in flags, SegmentOf(h), r)
    {
      if AckData in flags && h.ctl == SYN_ACK {
        AdoptMss(h.mss);
        state := Established;
        AfterSyn(h.seqno, acc32);
        len := 0;
        call := Some(Call({Connected, NewData}, []));
        jump := AppSend(FlagsAfter({Connected, NewData}, r.action), r.slen);
        return;
      }
      call := Some(Call({Abort}, h.data));
      state := Closed;
      jump := SendReset;
    }

    method InEstablished(h: Header, flags: set<Flag>, r: Reply, acc32: array<byte>) returns (jump: Jump, call: Option<Call>)
      requires Valid() && acc32.Length == 4 && acc32 != sndNxt && acc32 != rcvNxt
      requires |h.data| <= 0xffff - UIP_TCPIP_HLEN
      modifies this, rcvNxt, acc32
      ensures Output(View(), jump, call) == Tcp.InEstablished(old(View()), flags, SegmentOf(h), r)
    {
      var shown := flags;
      if h.ctl.fin {
        if len != 0 {
          return Drop, None;
        }
        AddRcvNxt(1 + |h.data|, acc32);
        shown := shown + {Close};
        if |h.data| > 0 {
          shown := shown + {NewData};
        }
        assert shown == flags + {Close} + NewDataFlag(SegmentOf(h));
        call := Some(Call(shown, h.data));
        len := 1;
        state := LastAck;
        nrtx := 0;
        return SendNodata(FIN_ACK), call;
      }
      if |h.data| > 0 {
        shown := shown + {NewData};
        AddRcvNxt(|h.data|, acc32);
      } else {
        Plus32Zero(Be32(rcvNxt[..]));
      }
      var wnd := h.wnd;
      if wnd > initialmss || wnd == 0 {
        wnd := initialmss;
      }
      mss := wnd;
      assert shown == flags + NewDataFlag(SegmentOf(h));
      if shown != {} {
        call := Some(Call(shown, h.data));
        jump := AppSend(FlagsAfter(shown, r.action), r.slen);
        return;
      }
      return Drop, None;
    }

    method InFinWait1(h: Header, flags: set<Flag>, acc32: array<byte>) returns (jump: Jump, call: Option<Call>)
      requires Valid() && acc32.Length == 4 && acc32 != sndNxt && acc32 != rcvNxt
      requires |h.data| <= 0xffff - UIP_TCPIP_HLEN
      modifies this, rcvNxt, acc32
      ensures Output(View(), jump, call) == Tcp.InFinWait1(old(View()), AckData in flags, SegmentOf(h))
    {
      call := None;
      if |h.data| > 0 {
        AddRcvNxt(|h.data|, acc32);
      } else {
        Plus32Zero(Be32(rcvNxt[..]));
      }
      if h.ctl.fin {
        if AckData in flags {
          state := TimeWait;
          timer := 0;
          len := 0;
        } else {
          state := Closing;
        }
        AddRcvNxt(1, acc32);
        return SendAck, Some(Call({Close}, h.data));
      } else if AckData in flags {
        state := FinWait2;
        len := 0;
        return Drop, None;
      }
      if |h.data| > 0 {
        return SendAck, None;
      }
      return Drop, None;
    }

    method InFinWait2(h: Header, acc32: array<byte>) returns (jump: Jump, call: Option<Call>)
      requires Valid() && acc32.Length == 4 && acc32 != sndNxt && acc32 != rcvNxt
      requires |h.data| <= 0xffff - UIP_TCPIP_HLEN
      modifies this, rcvNxt, acc32
      ensures Output(View(), jump, call) == Tcp.InFinWait2(old(View()), SegmentOf(h))
    {
      if |h.data| > 0 {
        AddRcvNxt(|h.data|, acc32);
      } else {
        Plus32Zero(Be32(rcvNxt[..]));
      }
      if h.ctl.fin {
        state := TimeWait;
        timer := 0;
        AddRcvNxt(1, acc32);
        return SendAck, Some(Call({Close}, h.data));
      }
      if |h.data| > 0 {
        return SendAck, None;
      }
      return Drop, None;
    }
  }
}

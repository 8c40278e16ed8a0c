/**
 * A TCP packet through uip_process: the IP input tests, the connection machine, the application
 * and the packet that is sent in reply (uip/uip.c:692-810, 835-959, 1173-1184, 1382-1867).
 */
module TcpExchange {
  import opened Bytes
  import opened Checksum
  import opened Packet
  import opened Tcp
  import opened TcpPackets
  import opened Words
  import Connection
  import TcpRuns

  /** Where the IP input code sends a packet. */
  datatype Verdict = ToDrop | ToTcp | ToOther

  /**
   * IP input, and the checksum test of label tcp_input.  Exactly the acceptable TCP packets get
   * through to demultiplexing, with uip_len cut down to the length the IP header states.
   */
  method IpInput(b: PacketBuffer) returns (v: Verdict)
    requires b.Valid() && LLH + b.len <= b.buf.Length
    requires b.buf[23] == UIP_PROTO_TCP ==> IPH <= IpLen(b.buf[..])
    modifies b`len
    ensures v == ToTcp <==> TcpAcceptable(b.buf[..], old(b.len), b.host)
    ensures v == ToOther <==> IpAcceptable(b.buf[..], old(b.len), b.host) && b.buf[23] != UIP_PROTO_TCP
    ensures v == ToDrop ==> b.len == 0
    ensures v != ToDrop ==> b.len == IpLen(b.buf[..])
  {
    ghost var p := b.buf[..];
    v := ToDrop;
    if b.buf[14] != 0x45 {
      b.len := 0;
      return;
    }
    if Be16(b.buf[16], b.buf[17]) <= b.len {
      b.len := Be16(b.buf[16], b.buf[17]);
    } else {
      b.len := 0;
      return;
    }
    if b.buf[20] % 64 != 0 || b.buf[21] != 0 {
      b.len := 0;
      return;
    }
    if b.host != Ip(0, 0) && IpAt(b.buf[..], 30) != b.host {
      b.len := 0;
      return;
    }
    var ipSum := b.IpChksum();
    PresentedVerifies(IpSum(p));
    if ipSum != 0xffff {
      b.len := 0;
      return;
    }
    if b.buf[23] != UIP_PROTO_TCP {
      return ToOther;
    }
    var tcpSum := b.UpperLayerChksum(UIP_PROTO_TCP);
    PresentedVerifies(UpperSum(p, UIP_PROTO_TCP));
    if tcpSum != 0xffff {
      b.len := 0;
      return;
    }
    return ToTcp;
  }

  /** The connection and the buffer keep their bytes apart. */
  ghost predicate Separate(b: PacketBuffer, c: Connection.Connection, acc32: array<byte>)
  {
    && Roomy(b) && c.Valid() && acc32.Length == 4
    && b.buf != c.sndNxt && b.buf != c.rcvNxt && b.buf != acc32 && acc32 != c.sndNxt && acc32 != c.rcvNxt
  }

  /** The bytes the application leaves at uip_sappdata; nothing is written when it is not called. */
  method AppData(b: PacketBuffer, call: Option<Call>, r: Reply)
    requires Roomy(b)
    modifies b.buf
    ensures call.Some? ==> forall i :: 0 <= i < UIP_TCP_MSS ==> b.buf[54 + i] == r.window[i]
    ensures forall i :: 0 <= i < 54 ==> b.buf[i] == old(b.buf[i])
  {
    if call.Some? {
      MemCpy(b.buf, 54, r.window);
    }
  }

  /** Payload goes out only when the application has been asked for it. */
  predicate Asked(jump: Jump, call: Option<Call>) { jump.SendNoopts? ==> call.Some? }

  lemma SliceOfWindow(buf: array<byte>, window: Window, n: nat)
    requires buf.Length >= UIP_BUFSIZE && n <= UIP_TCP_MSS
    requires forall i :: 0 <= i < UIP_TCP_MSS ==> buf[54 + i] == window[i]
    ensures buf[54..54 + n] == window[..n]
  {
  }

  /** The code behind the send labels of a connection, from any contents of the buffer. */
  method Emit(b: PacketBuffer, c: Connection.Connection, a: Address, jump: Jump, ghost call: Option<Call>, ghost r: Reply,
              ghost input: Segment)
    requires Roomy(b) && c.Valid() && b.buf != c.sndNxt && b.buf != c.rcvNxt
    requires TcpRuns.PacketLength(jump) <= UIP_BUFSIZE - UIP_LLH_LEN && !jump.SendReset?
    requires jump.SendNoopts? ==> forall i :: 0 <= i < UIP_TCP_MSS ==> b.buf[54 + i] == r.window[i]
    modifies b.buf, b`ipid, b`len
    ensures b.len == TcpRuns.PacketLength(jump)
    ensures jump != Drop ==> Sends(b.buf[..], b.len, Emitted(Output(c.View(), jump, call), r.window, input).value,
                                   b.host, a.ripaddr, a.lport, a.rport)
  {
    match jump {
      case Drop =>
        b.len := 0;
      case SendAck =>
        b.buf[47] := ByteOf(ACK);
        b.len := UIP_TCPIP_HLEN;
        TcpSendNoopts(b, c, a, ACK);
      case SendNodata(ctl) =>
        b.buf[47] := ByteOf(ctl);
        b.len := UIP_TCPIP_HLEN;
        TcpSendNoopts(b, c, a, ctl);
      case SendNoopts(ctl, n) =>
        b.len := n + UIP_TCPIP_HLEN;
        b.buf[47] := ByteOf(ctl);
        SliceOfWindow(b.buf, r.window, n);
        TcpSendNoopts(b, c, a, ctl);
      case SendSyn(ctl) =>
        b.buf[47] := ByteOf(ctl);
        TcpSendSyn(b, c, a, ctl);
    }
  }

  /** What `b` was left with: the packet for output `o`, addressed to the peer, or nothing. */
  ghost predicate Answers(b: PacketBuffer, a: Address, o: Output, r: Reply, input: Segment)
    requires b.buf.Length >= 58
    reads b, b.buf
  {
    && b.len == TcpRuns.PacketLength(o.jump) <= UIP_BUFSIZE - UIP_LLH_LEN
    && (o.jump != Drop ==>
          Sends(b.buf[..], b.len, Emitted(o, r.window, input).value, b.host, a.ripaddr, a.lport, a.rport))
  }

  /** The packet in the buffer was matched with the connection. */
  ghost predicate Matches(p: seq<byte>, n: u16, a: Address)
  {
    && Readable(p, n) && p[23] == UIP_PROTO_TCP
    && IpAt(p, 26) == a.ripaddr && Le16(p, 34) == a.rport && Le16(p, 36) == a.lport
  }

  lemma AskedByInput(c: Conn, s: Segment, r: Reply)
    requires c.state != Closed
    ensures Asked(Tcp.Input(c, s, r).jump, Tcp.Input(c, s, r).call)
    ensures Tcp.Input(c, s, r).jump.SendReset? ==> !s.ctl.rst
  {
  }

  /** The application's data and the packet that carries it. */
  method SendReply(b: PacketBuffer, c: Connection.Connection, a: Address, jump: Jump, call: Option<Call>, r: Reply,
                   ghost input: Segment)
    requires Roomy(b) && c.Valid() && b.buf != c.sndNxt && b.buf != c.rcvNxt
    requires TcpRuns.PacketLength(jump) <= UIP_BUFSIZE - UIP_LLH_LEN && Asked(jump, call)
    requires jump.SendReset? ==> Matches(b.buf[..], b.len, a) && input == SegmentAt(b.buf[..], b.len) && !input.ctl.rst
    modifies b.buf, b`ipid, b`len
    ensures Answers(b, a, Output(c.View(), jump, call), r, input)
  {
    ghost var p := b.buf[..];
    AppData(b, call, r);
    if jump.SendReset? {
      ghost var q := b.buf[..];
      assert q[38..42] == p[38..42] && q[42..46] == p[42..46];
      assert IpAt(q, 26) == IpAt(p, 26) && Le16(q, 34) == Le16(p, 34) && Le16(q, 36) == Le16(p, 36);
      Reset(b);
    } else {
      Emit(b, c, a, jump, call, r, input);
    }
  }

  /** Label found: read the segment, run the machine and the application, send what they ask for. */
  method Found(b: PacketBuffer, c: Connection.Connection, a: Address, r: Reply, acc32: array<byte>)
      returns (jump: Jump, call: Option<Call>)
    requires Separate(b, c, acc32) && c.state != Closed && TcpRuns.Inv(c.View())
    requires Matches(b.buf[..], b.len, a) && UrgClear(b.buf[..])
    modifies b, b.buf, c, c.sndNxt, c.rcvNxt, acc32
    ensures Output(c.View(), jump, call) == Tcp.Input(old(c.View()), old(SegmentAt(b.buf[..], b.len)), r)
    ensures TcpRuns.Inv(c.View())
    ensures Answers(b, a, Output(c.View(), jump, call), r, old(SegmentAt(b.buf[..], b.len)))
  {
    ghost var p, s := b.buf[..], SegmentAt(b.buf[..], b.len);
    ghost var c0 := c.View();
    var h := ReadHeader(b);
    jump, call := c.Input(h, r, acc32);
    TcpRuns.InputGood(c0, s, r);
    AskedByInput(c0, s, r);
    SendReply(b, c, a, jump, call, r, s);
  }

  /** Label found_listen: the SYN in the buffer opens the connection and becomes the SYNACK. */
  method FoundListen(b: PacketBuffer, c: Connection.Connection, a: Address, iss: Connection.Bytes4, acc32: array<byte>,
                     ghost r: Reply)
    requires Separate(b, c, acc32) && TcpRuns.Inv(c.View())
    requires Matches(b.buf[..], b.len, a)
    modifies b, b.buf, c, c.sndNxt, c.rcvNxt, acc32
    ensures var s := old(SegmentAt(b.buf[..], b.len));
            var o := Tcp.PassiveOpen(old(c.View()), s, Be32(iss));
            c.View() == o.conn && TcpRuns.Inv(c.View()) && Answers(b, a, o, r, s)
  {
    ghost var c0, s := c.View(), SegmentAt(b.buf[..], b.len);
    var h := ReadHeader(b);
    var jump := c.PassiveOpen(h, iss, acc32);
    Emit(b, c, a, jump, None, r, s);
  }

  /** uip_process(UIP_TIMER); no segment is answered, so that `input` stands for any. */
  method Periodic(b: PacketBuffer, c: Connection.Connection, a: Address, r: Reply, iss: array<byte>, ghost input: Segment)
      returns (jump: Jump, call: Option<Call>)
    requires Separate(b, c, iss) && TcpRuns.Inv(c.View())
    modifies b, b.buf, c, iss
    ensures Be32(iss[..]) == Plus32(old(Be32(iss[..])), 1)
    ensures Output(c.View(), jump, call) == Tcp.Tick(old(c.View()), r)
    ensures TcpRuns.Inv(c.View())
    ensures Answers(b, a, Output(c.View(), jump, call), r, input)
  {
    ghost var c0 := c.View();
    Increment(iss, 0);
    jump, call := c.Tick(r);
    TcpRuns.StepGood(c0, TcpRuns.TimerEvent(r));
    SendReply(b, c, a, jump, call, r, input);
  }

  /** uip_process(UIP_POLL_REQUEST) */
  method PollRequest(b: PacketBuffer, c: Connection.Connection, a: Address, r: Reply, ghost input: Segment)
      returns (jump: Jump, call: Option<Call>)
    requires Roomy(b) && c.Valid() && b.buf != c.sndNxt && b.buf != c.rcvNxt && TcpRuns.Inv(c.View())
    modifies b, b.buf, c
    ensures Output(c.View(), jump, call) == Tcp.PollRequest(old(c.View()), r)
    ensures TcpRuns.Inv(c.View())
    ensures Answers(b, a, Output(c.View(), jump, call), r, input)
  {
    ghost var c0 := c.View();
    jump, call := c.PollRequest(r);
    TcpRuns.StepGood(c0, TcpRuns.PollEvent(r));
    SendReply(b, c, a, jump, call, r, input);
  }

  lemma ArrivesMatched(p: seq<byte>, n: u16, s: Segment, host: Ip, a: Address, q: seq<byte>, reported: u16)
    requires Sends(p, n, s, a.ripaddr, host, a.rport, a.lport) && Delivered(p, n, q, reported)
    ensures TcpAcceptable(q, reported, host) && IpLen(q) == n
    ensures Matches(q, n, a) && SegmentAt(q, n) == s && UrgClear(q)
  {
    Arrives(p, n, s, a.ripaddr, host, a.rport, a.lport, q, reported);
  }

  method Store(p: seq<byte>, n: u16, reported: u16, b: PacketBuffer)
    requires Roomy(b) && |p| >= 98 && LLH + n <= |p| && n <= reported && LLH + reported <= b.buf.Length
    modifies b`len, b.buf
    ensures Delivered(p, n, b.buf[..], reported) && b.len == reported
  {
    MemCpy(b.buf, LLH, p[LLH..LLH + n]);
    b.len := reported;
  }

  /** The network driver's part: the packet behind a link-level header, with padding, then IP input. */
  method Arrive(p: seq<byte>, n: u16, ghost s: Segment, reported: u16, b: PacketBuffer, a: Address)
    requires Roomy(b) && Sends(p, n, s, a.ripaddr, b.host, a.rport, a.lport)
    requires n <= reported && LLH + reported <= b.buf.Length
    modifies b`len, b.buf
    ensures Matches(b.buf[..], b.len, a) && SegmentAt(b.buf[..], b.len) == s && UrgClear(b.buf[..])
  {
    Store(p, n, reported, b);
    ghost var q := b.buf[..];
    ArrivesMatched(p, n, s, b.host, a, q, reported);
    var v := IpInput(b);
    assert b.buf[..] == q;
  }

  /**
   * A packet another host sent to this connection, delivered behind a link-level header and
   * padded to `reported` bytes, steps the connection with the very segment that was sent.
   */
  method Deliver(p: seq<byte>, n: u16, ghost s: Segment, reported: u16, b: PacketBuffer, c: Connection.Connection,
                 a: Address, r: Reply, acc32: array<byte>) returns (jump: Jump, call: Option<Call>)
    requires Separate(b, c, acc32) && c.state != Closed && TcpRuns.Inv(c.View())
    requires Sends(p, n, s, a.ripaddr, b.host, a.rport, a.lport)
    requires n <= reported && LLH + reported <= b.buf.Length
    modifies b, b.buf, c, c.sndNxt, c.rcvNxt, acc32
    ensures Output(c.View(), jump, call) == Tcp.Input(old(c.View()), s, r)
    ensures TcpRuns.Inv(c.View())
    ensures Answers(b, a, Output(c.View(), jump, call), r, s)
  {
    Arrive(p, n, s, reported, b, a);
    jump, call := Found(b, c, a, r, acc32);
  }
}

/**
 * TCP segments as bytes in uip_buf: the code behind the send labels, the reading of a received
 * header, and the two joined to the connection machine (uip/uip.c:1220-1266, 1319-1381,
 * 1396-1402, 1791-1830).
 */
module TcpPackets {
  import opened Bytes
  import opened Checksum
  import opened Packet
  import opened Tcp
  import opened Words
  import Connection
  import TcpRuns

  /** uip_connr->lport, rport (in network byte order) and ripaddr. */
  datatype Address = Address(lport: u16, rport: u16, ripaddr: Ip)

  // ---- Reading a segment ----

  /** The control bits of the flags byte, URG clear. */
  function CtlOf(b: byte): Ctl
  {
    Ctl(b % 2 == 1, b / 2 % 2 == 1, b / 4 % 2 == 1, b / 8 % 2 == 1, b / 16 % 2 == 1)
  }

  function Bit(b: bool): int { if b then 1 else 0 }

  function ByteOf(c: Ctl): byte
  {
    Bit(c.fin) + 2 * Bit(c.syn) + 4 * Bit(c.rst) + 8 * Bit(c.psh) + 16 * Bit(c.ack)
  }

  lemma CtlRoundTrip(c: Ctl)
    ensures CtlOf(ByteOf(c)) == c && ByteOf(c) / 32 % 2 == 0
  {
  }

  /** The length of the TCP header in bytes. */
  function HeaderLen(p: seq<byte>): nat
    requires |p| >= 54
  {
    p[46] / 16 * 4
  }

  /** The data offset lies between the fixed header and the end of the packet. */
  predicate OffsetOk(p: seq<byte>, n: u16)
  {
    |p| >= 54 && 20 <= HeaderLen(p) && IPH + HeaderLen(p) <= n && LLH + n <= |p|
  }

  /** The walk through the options at cursor `c` never leaves the range of the 8-bit cursor. */
  predicate OptionsInside(p: seq<byte>, c: nat, end: nat)
    requires end <= 40 && |p| >= 98
    decreases 256 - c
  {
    c < end ==>
      var opt := p[54 + c];
      if opt == 0 then true
      else if opt == 1 then OptionsInside(p, c + 1, end)
      else if opt == 2 && p[55 + c] == 4 then true
      else p[55 + c] > 0 ==> c + p[55 + c] < 256 && OptionsInside(p, c + p[55 + c], end)
  }

  /** The value of the first MSS option. */
  function MssOption(p: seq<byte>, c: nat, end: nat): Option<u16>
    requires end <= 40 && |p| >= 98 && OptionsInside(p, c, end)
    decreases 256 - c
  {
    if c >= end then None
    else
      var opt := p[54 + c];
      if opt == 0 then None
      else if opt == 1 then MssOption(p, c + 1, end)
      else if opt == 2 && p[55 + c] == 4 then Some(Be16(p[56 + c], p[57 + c]))
      else if p[55 + c] == 0 then None
      else MssOption(p, c + p[55 + c], end)
  }

  predicate Readable(p: seq<byte>, n: u16)
  {
    |p| >= 98 && OffsetOk(p, n) && OptionsInside(p, 0, HeaderLen(p) - 20)
  }

  /** The segment in the buffer.  uIP takes the data from the end of the fixed header. */
  function SegmentAt(p: seq<byte>, n: u16): Segment
    requires Readable(p, n)
  {
    Segment(Be32(p[38..42]), Be32(p[42..46]), CtlOf(p[47]), Be16(p[48], p[49]),
            MssOption(p, 0, HeaderLen(p) - 20), p[54..54 + (n - IPH - HeaderLen(p))])
  }

  // ---- Options as a peer writes them ----

  datatype Opt = Nop | Mss(v: u16) | Other(kind: byte, body: seq<byte>)

  /** An option of another kind has a length that fits a byte, and is no MSS option. */
  predicate IsOpt(o: Opt)
  {
    o.Other? ==> o.kind > 1 && |o.body| <= 38 && !(o.kind == 2 && |o.body| == 2)
  }

  function EncodeOpt(o: Opt): (s: seq<byte>)
    requires IsOpt(o)
    ensures |s| > 0
  {
    match o
    case Nop => [1]
    case Mss(v) => [2, 4, v / 256, v % 256]
    case Other(kind, body) => [kind, 2 + |body|] + body
  }

  function FirstMss(os: seq<Opt>): Option<u16>
  {
    if os == [] then None else if os[0].Mss? then Some(os[0].v) else FirstMss(os[1..])
  }

  /** From the cursor on the options stand one behind another; then the area ends, or an end-of-options byte follows. */
  ghost predicate Written(p: seq<byte>, c: nat, os: seq<Opt>, end: nat)
    decreases |os|
  {
    && c <= end <= 40 && |p| >= 98
    && if os == [] then c < end ==> p[54 + c] == 0
       else IsOpt(os[0]) && Has(p, 54 + c, EncodeOpt(os[0])) && Written(p, c + |EncodeOpt(os[0])|, os[1..], end)
  }

  /** The walk reads back what was written: whatever stands in front of it, the first MSS option is found. */
  lemma {:induction false} WalkFindsMss(p: seq<byte>, c: nat, os: seq<Opt>, end: nat)
    requires Written(p, c, os, end)
    ensures OptionsInside(p, c, end) && MssOption(p, c, end) == FirstMss(os)
    decreases |os|
  {
    if os != [] {
      WalkFindsMss(p, c + |EncodeOpt(os[0])|, os[1..], end);
      ReadsOpt(p, c, os[0]);
      WalkStep(p, c, os[0], end);
    }
  }

  /** The first option as the walk meets it. */
  lemma ReadsOpt(p: seq<byte>, c: nat, o: Opt)
    requires IsOpt(o) && 54 + c + |EncodeOpt(o)| <= |p| && Has(p, 54 + c, EncodeOpt(o))
    ensures Meets(p, c, o)
  {
    assert p[54 + c] == EncodeOpt(o)[0];
    if !o.Nop? {
      assert p[55 + c] == EncodeOpt(o)[1];
    }
    if o.Mss? {
      assert p[56 + c] == EncodeOpt(o)[2] && p[57 + c] == EncodeOpt(o)[3];
    }
  }

  predicate Meets(p: seq<byte>, c: nat, o: Opt)
    requires IsOpt(o) && 54 + c + |EncodeOpt(o)| <= |p|
  {
    match o
    case Nop => p[54 + c] == 1
    case Mss(v) => p[54 + c] == 2 && p[55 + c] == 4 && Be16(p[56 + c], p[57 + c]) == v
    case Other(kind, body) => p[54 + c] == kind && p[55 + c] == 2 + |body|
  }

  lemma WalkStep(p: seq<byte>, c: nat, o: Opt, end: nat)
    requires IsOpt(o) && c + |EncodeOpt(o)| <= end <= 40 && |p| >= 98 && Meets(p, c, o)
    requires !o.Mss? ==> OptionsInside(p, c + |EncodeOpt(o)|, end)
    ensures OptionsInside(p, c, end)
    ensures MssOption(p, c, end) == if o.Mss? then Some(o.v) else MssOption(p, c + |EncodeOpt(o)|, end)
  {
  }

  // ---- Options in front of the data ----

  /** The data of the packet as its data offset states it. */
  function PayloadOf(p: seq<byte>, n: u16): seq<byte>
    requires OffsetOk(p, n)
  {
    p[LLH + IPH + HeaderLen(p)..LLH + n]
  }

  /** The data that the application is shown is the packet's when there are no options, or no data. */
  lemma ShownIsPayload(p: seq<byte>, n: u16)
    requires Readable(p, n) && (HeaderLen(p) == 20 || PayloadOf(p, n) == [])
    ensures SegmentAt(p, n).data == PayloadOf(p, n)
  {
  }

  /** The walk through the options does not depend on the data, but for the byte next to them. */
  lemma {:induction false} WalkFrame(p: seq<byte>, q: seq<byte>, c: nat, end: nat)
    requires end <= 40 && |p| >= 98 && |q| >= 98 && OptionsInside(p, c, end)
    requires forall i :: 54 <= i < 54 + end ==> q[i] == p[i]
    requires q[54 + end] == p[54 + end] || 1 <= q[54 + end] <= 2
    ensures OptionsInside(q, c, end)
    decreases 256 - c
  {
    if c < end && p[54 + c] != 0 {
      if p[54 + c] == 1 {
        WalkFrame(p, q, c + 1, end);
      } else if c + 1 < end && !(p[54 + c] == 2 && p[55 + c] == 4) && p[55 + c] > 0 {
        WalkFrame(p, q, c + p[55 + c], end);
      }
    }
  }

  /**
   * Behind any longer header there are data for which what is shown differs: the packet `p` with
   * its last byte set to `v`, one of two values.
   */
  lemma OptionsAreShown(p: seq<byte>, n: u16) returns (v: byte, q: seq<byte>)
    requires Readable(p, n) && HeaderLen(p) > 20 && PayloadOf(p, n) != []
    ensures q == p[LLH + n - 1 := v]
    ensures Readable(q, n) && HeaderLen(q) == HeaderLen(p)
    ensures SegmentAt(q, n).data != PayloadOf(q, n)
  {
    var k := |PayloadOf(p, n)|;
    v := if p[53 + k] == 1 then 2 else 1;
    q := p[LLH + n - 1 := v];
    assert q[46] == p[46];
    WalkFrame(p, q, 0, HeaderLen(p) - 20);
    assert SegmentAt(q, n).data[k - 1] == q[53 + k] == p[53 + k];
    assert PayloadOf(q, n)[k - 1] == v;
  }

  /** Sealing touches nothing a segment is read from. */
  lemma SealedReadsTheSame(p: seq<byte>, q: seq<byte>, n: u16)
    requires Readable(p, n) && |q| == |p|
    requires forall i :: 0 <= i < |p| && !(24 <= i < 26 || 50 <= i < 52) ==> q[i] == p[i]
    ensures Readable(q, n) && HeaderLen(q) == HeaderLen(p)
    ensures SegmentAt(q, n).data == SegmentAt(p, n).data && PayloadOf(q, n) == PayloadOf(p, n)
  {
    assert q[46] == p[46];
    assert q[54 + (HeaderLen(p) - 20)] == p[54 + (HeaderLen(p) - 20)];
    WalkFrame(p, q, 0, HeaderLen(p) - 20);
    assert SegmentAt(q, n).data == SegmentAt(p, n).data;
    assert PayloadOf(q, n) == PayloadOf(p, n);
  }

  /** Such packets get through to the application: one that IP input accepts differs from `p` in data and checksums. */
  lemma AcceptedAndMisread(p: seq<byte>, n: u16, host: Ip) returns (q: seq<byte>)
    requires Readable(p, n) && HeaderLen(p) > 20 && PayloadOf(p, n) != []
    requires TcpAcceptable(p, n, host) && IpLen(p) == n
    ensures |q| == |p| && TcpAcceptable(q, n, host) && Readable(q, n) && HeaderLen(q) == HeaderLen(p)
    ensures SegmentAt(q, n).data != PayloadOf(q, n)
  {
    var v, r := OptionsAreShown(p, n);
    assert r[16] == p[16] && r[17] == p[17];
    q := CanBeSealed(r);
    SealedReadsTheSame(r, q, n);
    StaysAcceptable(p, q, n, host);
  }

  lemma StaysAcceptable(p: seq<byte>, q: seq<byte>, n: u16, host: Ip)
    requires |p| == |q| >= 54 && IpAcceptable(p, n, host) && p[23] == UIP_PROTO_TCP
    requires forall i :: 14 <= i < 34 && i != 24 && i != 25 ==> q[i] == p[i]
    requires Holds(q) && IpSum(q) % 65535 == 0 && UpperSum(q, UIP_PROTO_TCP) % 65535 == 0
    ensures TcpAcceptable(q, n, host)
  {
  }

  /** A packet for `host` with four NOP options and one byte of data, whatever its checksums. */
  predicate IsPadded(p: seq<byte>, host: Ip, d: byte)
  {
    && |p| == 98 && p[14] == 0x45 && p[16] == 0 && p[17] == 45 && p[20] == 0 && p[21] == 0 && p[23] == UIP_PROTO_TCP
    && IpAt(p, 30) == host && p[46] == 0x60
    && p[54] == p[55] == p[56] == p[57] == 1 && p[58] == d
  }

  function ByteOfPadded(host: Ip, d: byte, i: nat): byte
  {
    if i == 14 then 0x45 else if i == 17 then 45 else if i == 23 then UIP_PROTO_TCP
    else if 30 <= i < 34 then IpBytes(host)[i - 30]
    else if i == 46 then 0x60 else if 54 <= i < 58 then 1 else if i == 58 then d else 0
  }

  lemma PaddedExists(host: Ip, d: byte) returns (p: seq<byte>)
    ensures IsPadded(p, host, d)
  {
    p := seq(98, i requires 0 <= i < 98 => ByteOfPadded(host, d, i));
    IpRoundTrip(p, 30, host);
  }

  /** The host accepts it, and shows its application the first option in place of the data. */
  lemma PaddedIsMisread(host: Ip, d: byte) returns (q: seq<byte>)
    ensures IsPadded(q, host, d) && TcpAcceptable(q, 45, host) && Readable(q, 45)
    ensures SegmentAt(q, 45).data == [1] && PayloadOf(q, 45) == [d]
  {
    var p := PaddedExists(host, d);
    q := CanBeSealed(p);
    StaysPadded(p, q, host, d);
    PaddedReads(q, d);
  }

  lemma StaysPadded(p: seq<byte>, q: seq<byte>, host: Ip, d: byte)
    requires IsPadded(p, host, d) && |q| == |p|
    requires forall i :: 0 <= i < |p| && !(24 <= i < 26 || 50 <= i < 52) ==> q[i] == p[i]
    ensures IsPadded(q, host, d)
  {
  }

  lemma PaddedReads(p: seq<byte>, d: byte)
    requires |p| == 98 && p[46] == 0x60 && p[54] == p[55] == p[56] == p[57] == 1 && p[58] == d
    ensures Readable(p, 45) && SegmentAt(p, 45).data == [1] && PayloadOf(p, 45) == [d]
  {
    assert HeaderLen(p) == 24;
    assert OptionsInside(p, 4, 4);
    assert OptionsInside(p, 3, 4);
    assert OptionsInside(p, 2, 4);
    assert OptionsInside(p, 1, 4);
  }

  /** The loop that parses the options of a SYN. */
  method ParseMss(b: PacketBuffer, end: nat) returns (m: Option<u16>)
    requires end <= 40 && b.buf.Length >= 98 && OptionsInside(b.buf[..], 0, end)
    ensures m == MssOption(b.buf[..], 0, end)
  {
    ghost var p := b.buf[..];
    var c: nat := 0;
    while c < end
      invariant b.buf[..] == p && OptionsInside(p, c, end) && MssOption(p, c, end) == MssOption(p, 0, end)
      decreases 256 - c
    {
      var opt := b.buf[54 + c];
      if opt == 0 {
        return None;
      } else if opt == 1 {
        c := c + 1;
      } else if opt == 2 && b.buf[55 + c] == 4 {
        return Some(Be16(b.buf[56 + c], b.buf[57 + c]));
      } else {
        if b.buf[55 + c] == 0 {
          return None;
        }
        c := c + b.buf[55 + c];
      }
    }
    return None;
  }

  /** The header fields of the packet as the machine takes them. */
  method ReadHeader(b: PacketBuffer) returns (h: Connection.Header)
    requires Readable(b.buf[..], b.len)
    ensures Connection.SegmentOf(h) == SegmentAt(b.buf[..], b.len)
    ensures |h.data| <= b.len - 40
  {
    var c := b.buf[46] / 16 * 4;
    var dataLen := b.len - c - IPH;
    var mss := None;
    if c > 20 {
      mss := ParseMss(b, c - 20);
    }
    h := Connection.Header(b.buf[38..42], b.buf[42..46], CtlOf(b.buf[47]), Be16(b.buf[48], b.buf[49]), mss,
                           b.buf[54..54 + dataLen]);
    assert b.buf[..][38..42] == b.buf[38..42] && b.buf[..][42..46] == b.buf[42..46];
    assert b.buf[..][54..54 + dataLen] == b.buf[54..54 + dataLen];
  }

  // ---- Writing a segment ----

  /** The fields written from label tcp_send on, on top of those of tcp_send_noconn. */
  ghost predicate Addressed(p: seq<byte>, src: Ip, dst: Ip, sport: u16, dport: u16)
  {
    && Has(p, 23, [UIP_PROTO_TCP]) && Has(p, 26, IpBytes(src)) && Has(p, 30, IpBytes(dst))
    && Has(p, 34, Le16Bytes(sport)) && Has(p, 36, Le16Bytes(dport))
  }

  ghost predicate Numbered(p: seq<byte>, seqno: Connection.Bytes4, ackno: Connection.Bytes4)
  {
    Has(p, 38, seqno) && Has(p, 42, ackno) && Has(p, 48, [UIP_RECEIVE_WINDOW / 256, UIP_RECEIVE_WINDOW % 256])
  }

  /** The assignments at label tcp_send. */
  method FillFields(b: PacketBuffer, c: Connection.Connection, a: Address)
    requires b.Valid() && c.Valid() && b.buf != c.sndNxt && b.buf != c.rcvNxt
    modifies b.buf
    ensures Addressed(b.buf[..], b.host, a.ripaddr, a.lport, a.rport)
    ensures Numbered(b.buf[..], c.sndNxt[..], c.rcvNxt[..])
    ensures forall i :: 0 <= i < b.buf.Length && !(i == 23 || 26 <= i < 46 || 48 <= i < 50) ==> b.buf[i] == old(b.buf[i])
  {
    MemCpy(b.buf, 42, c.rcvNxt[..]);
    MemCpy(b.buf, 38, c.sndNxt[..]);
    b.buf[23] := UIP_PROTO_TCP;
    MemCpy(b.buf, 34, Le16Bytes(a.lport) + Le16Bytes(a.rport));
    MemCpy(b.buf, 26, IpBytes(b.host) + IpBytes(a.ripaddr));
    MemCpy(b.buf, 48, [UIP_RECEIVE_WINDOW / 256, UIP_RECEIVE_WINDOW % 256]);
  }

  /** The fields of a segment without options, or with an MSS option alone, are read back. */
  lemma ReadsBack(p: seq<byte>, n: u16, seqno: Connection.Bytes4, ackno: Connection.Bytes4, ctl: Ctl, wnd: u16, m: Option<u16>)
    requires |p| >= 98 && 40 <= n && LLH + n <= |p|
    requires Has(p, 38, seqno) && Has(p, 42, ackno) && p[47] == ByteOf(ctl) && Be16(p[48], p[49]) == wnd
    requires m == None ==> p[46] == 0x50
    requires m.Some? ==> p[46] == 0x60 && n == 44 && Has(p, 54, [2, 4, m.value / 256, m.value % 256])
    ensures Readable(p, n)
    ensures SegmentAt(p, n) == Segment(Be32(seqno), Be32(ackno), ctl, wnd, m, if m == None then p[54..LLH + n] else [])
  {
    assert p[38..42] == seqno && p[42..46] == ackno;
    CtlRoundTrip(ctl);
  }

  predicate UrgClear(p: seq<byte>)
    requires |p| >= 98
  {
    p[47] / 32 % 2 == 0
  }

  /** No options, or a single MSS option. */
  predicate FewOptions(p: seq<byte>, n: u16)
    requires |p| >= 98
  {
    p[46] == 0x50 || (p[46] == 0x60 && p[54] == 2 && p[55] == 4 && n == 44)
  }

  /** What is on the wire after a label has been processed. */
  ghost predicate Sends(p: seq<byte>, n: u16, s: Segment, src: Ip, dst: Ip, sport: u16, dport: u16)
  {
    && Finished(p, n) && Addressed(p, src, dst, sport, dport)
    && Readable(p, n) && SegmentAt(p, n) == s && FewOptions(p, n) && UrgClear(p)
  }

  /** The driver delivers the packet behind some link-level header, `reported` bytes with its padding. */
  ghost predicate Delivered(p: seq<byte>, n: u16, q: seq<byte>, reported: u16)
  {
    |p| >= 98 && |q| >= 98 && LLH + n <= |p| && LLH + n <= |q| && n <= reported && p[LLH..LLH + n] == q[LLH..LLH + n]
  }

  /** The addressed host accepts the packet and reads from it the segment that was sent. */
  lemma Arrives(p: seq<byte>, n: u16, s: Segment, src: Ip, dst: Ip, sport: u16, dport: u16, q: seq<byte>, reported: u16)
    requires Sends(p, n, s, src, dst, sport, dport) && Delivered(p, n, q, reported)
    ensures TcpAcceptable(q, reported, dst) && IpLen(q) == n
    ensures Readable(q, n) && SegmentAt(q, n) == s
    ensures IpAt(q, 26) == src && Le16(q, 34) == sport && Le16(q, 36) == dport && q[23] == UIP_PROTO_TCP
    ensures UrgClear(q)
  {
    DeliveredBytes(p, n, q, reported);
    ArrivedAddresses(p, n, src, dst, sport, dport, q);
    ArrivedSegment(p, n, q);
    assert q[47] == p[47];
    ArrivedSums(p, n, q);
    FinishedIsAcceptable(q, n, reported, dst);
  }

  lemma DeliveredBytes(p: seq<byte>, n: u16, q: seq<byte>, reported: u16)
    requires Delivered(p, n, q, reported)
    ensures forall i :: LLH <= i < LLH + n ==> q[i] == p[i]
  {
    forall i | LLH <= i < LLH + n ensures q[i] == p[i] {
      assert q[LLH..LLH + n][i - LLH] == p[LLH..LLH + n][i - LLH];
    }
  }

  lemma FinishedIsAcceptable(q: seq<byte>, n: u16, reported: u16, dst: Ip)
    requires Finished(q, n) && n <= reported && q[23] == UIP_PROTO_TCP && IpAt(q, 30) == dst
    ensures TcpAcceptable(q, reported, dst) && IpLen(q) == n
  {
    assert q[14] == 0x45 && q[20] == 0 && q[21] == 0;
  }

  lemma ArrivedSegment(p: seq<byte>, n: u16, q: seq<byte>)
    requires |p| >= 98 && |q| >= 98 && Readable(p, n) && FewOptions(p, n) && LLH + n <= |q|
    requires forall i :: LLH <= i < LLH + n ==> q[i] == p[i]
    ensures Readable(q, n) && SegmentAt(q, n) == SegmentAt(p, n)
  {
    assert q[38..42] == p[38..42] && q[42..46] == p[42..46];
    assert q[54..54 + (n - IPH - HeaderLen(q))] == p[54..54 + (n - IPH - HeaderLen(p))];
  }

  lemma ArrivedAddresses(p: seq<byte>, n: u16, src: Ip, dst: Ip, sport: u16, dport: u16, q: seq<byte>)
    requires Addressed(p, src, dst, sport, dport) && 40 <= n && LLH + n <= |p| && LLH + n <= |q|
    requires forall i :: LLH <= i < LLH + n ==> q[i] == p[i]
    ensures q[23] == UIP_PROTO_TCP && IpAt(q, 26) == src && IpAt(q, 30) == dst
    ensures Le16(q, 34) == sport && Le16(q, 36) == dport
  {
    IpRoundTrip(p, 26, src);
    IpRoundTrip(p, 30, dst);
    LittleEndian(p[34], p[35], sport);
    LittleEndian(p[36], p[37], dport);
  }

  lemma ArrivedSums(p: seq<byte>, n: u16, q: seq<byte>)
    requires Finished(p, n) && |p| >= 98 && |q| >= 98 && 40 <= n && LLH + n <= |q|
    requires forall i :: LLH <= i < LLH + n ==> q[i] == p[i]
    ensures Finished(q, n)
  {
    assert q[LLH..LLH + IPH] == p[LLH..LLH + IPH];
    assert q[26..34] == p[26..34];
    assert q[34..LLH + n] == p[34..LLH + n];
  }

  ghost predicate Roomy(b: PacketBuffer) { b.Valid() && b.buf.Length >= UIP_BUFSIZE }

  lemma KeepsFields(p: seq<byte>, q: seq<byte>, src: Ip, a: Address, seqno: Connection.Bytes4, ackno: Connection.Bytes4)
    requires Addressed(p, src, a.ripaddr, a.lport, a.rport) && Numbered(p, seqno, ackno) && |q| == |p|
    requires forall i :: 0 <= i < |p| && !(14 <= i < 23 || i == 24 || i == 25 || 50 <= i < 54) ==> q[i] == p[i]
    ensures Addressed(q, src, a.ripaddr, a.lport, a.rport) && Numbered(q, seqno, ackno)
  {
  }

  lemma AllFieldsSend(q: seq<byte>, n: u16, src: Ip, a: Address, seqno: Connection.Bytes4, ackno: Connection.Bytes4,
                      ctl: Ctl, m: Option<u16>)
    requires |q| >= 98 && 40 <= n && LLH + n <= |q| && Finished(q, n)
    requires Addressed(q, src, a.ripaddr, a.lport, a.rport) && Numbered(q, seqno, ackno) && q[47] == ByteOf(ctl)
    requires m == None ==> q[46] == 0x50
    requires m.Some? ==> q[46] == 0x60 && n == 44 && Has(q, 54, [2, 4, m.value / 256, m.value % 256])
    ensures Sends(q, n, Segment(Be32(seqno), Be32(ackno), ctl, UIP_RECEIVE_WINDOW, m, if m == None then q[54..LLH + n] else []),
                  src, a.ripaddr, a.lport, a.rport)
  {
    WindowReadsBack(q, seqno, ackno);
    CtlRoundTrip(ctl);
    ReadsBack(q, n, seqno, ackno, ctl, UIP_RECEIVE_WINDOW, m);
    if m.Some? {
      MssReadsBack(q, m.value);
    }
  }

  lemma WindowReadsBack(q: seq<byte>, seqno: Connection.Bytes4, ackno: Connection.Bytes4)
    requires |q| >= 98 && Numbered(q, seqno, ackno)
    ensures Be16(q[48], q[49]) == UIP_RECEIVE_WINDOW
  {
  }

  lemma MssReadsBack(q: seq<byte>, m: u16)
    requires |q| >= 98 && Has(q, 54, [2, 4, m / 256, m % 256])
    ensures q[54] == 2 && q[55] == 4
  {
  }

  /** Label tcp_send and what follows it. */
  method TcpSend(b: PacketBuffer, c: Connection.Connection, a: Address, ghost ctl: Ctl, ghost m: Option<u16>)
    requires Roomy(b) && c.Valid() && b.buf != c.sndNxt && b.buf != c.rcvNxt
    requires 40 <= b.len <= UIP_BUFSIZE - UIP_LLH_LEN && b.buf[47] == ByteOf(ctl)
    requires m == None ==> b.buf[46] == 0x50
    requires m.Some? ==> b.buf[46] == 0x60 && b.len == 44 && Has(b.buf[..], 54, [2, 4, m.value / 256, m.value % 256])
    modifies b.buf, b`ipid
    ensures Sends(b.buf[..], b.len,
                  Segment(c.View().sndNxt, c.View().rcvNxt, ctl, UIP_RECEIVE_WINDOW, m,
                          if m == None then old(b.buf[54..LLH + b.len]) else []),
                  b.host, a.ripaddr, a.lport, a.rport)
  {
    FillFields(b, c, a);
    ghost var p := b.buf[..];
    b.SendNoconn();
    ghost var q := b.buf[..];
    KeepsFields(p, q, b.host, a, c.sndNxt[..], c.rcvNxt[..]);
    assert q[54..LLH + b.len] == old(b.buf[54..LLH + b.len]);
    AllFieldsSend(q, b.len, b.host, a, c.sndNxt[..], c.rcvNxt[..], ctl, m);
  }

  /** Label tcp_send_noopts. */
  method TcpSendNoopts(b: PacketBuffer, c: Connection.Connection, a: Address, ghost ctl: Ctl)
    requires Roomy(b) && c.Valid() && b.buf != c.sndNxt && b.buf != c.rcvNxt
    requires 40 <= b.len <= UIP_BUFSIZE - UIP_LLH_LEN && b.buf[47] == ByteOf(ctl)
    modifies b.buf, b`ipid
    ensures Sends(b.buf[..], b.len,
                  Segment(c.View().sndNxt, c.View().rcvNxt, ctl, UIP_RECEIVE_WINDOW, None, old(b.buf[54..LLH + b.len])),
                  b.host, a.ripaddr, a.lport, a.rport)
  {
    b.buf[46] := 0x50;
    assert b.buf[54..LLH + b.len] == old(b.buf[54..LLH + b.len]);
    TcpSend(b, c, a, ctl, None);
  }

  /** Label tcp_send_syn. */
  method TcpSendSyn(b: PacketBuffer, c: Connection.Connection, a: Address, ghost ctl: Ctl)
    requires Roomy(b) && c.Valid() && b.buf != c.sndNxt && b.buf != c.rcvNxt && b.buf[47] == ByteOf(ctl)
    modifies b.buf, b`ipid, b`len
    ensures b.len == UIP_TCPIP_HLEN + TCP_OPT_MSS_LEN
    ensures Sends(b.buf[..], b.len,
                  Segment(c.View().sndNxt, c.View().rcvNxt, ctl, UIP_RECEIVE_WINDOW, Some(UIP_TCP_MSS), []),
                  b.host, a.ripaddr, a.lport, a.rport)
  {
    b.buf[54] := 2;
    b.buf[55] := 4;
    b.buf[56] := UIP_TCP_MSS / 256;
    b.buf[57] := UIP_TCP_MSS % 256;
    b.len := UIP_TCPIP_HLEN + TCP_OPT_MSS_LEN;
    b.buf[46] := 0x60;
    TcpSend(b, c, a, ctl, Some(UIP_TCP_MSS));
  }

  /** The sequence numbers, ports and addresses of a packet turned around for its sender. */
  ghost predicate TurnedAround(p: seq<byte>, q: seq<byte>, host: Ip)
  {
    && |p| >= 98 && |q| == |p|
    && q[46] == 0x50 && q[47] == ByteOf(RST_ACK)
    && Has(q, 38, p[42..46])
    && Quad(q[42], q[43], q[44], q[45]) == Plus32(Quad(p[38], p[39], p[40], p[41]), 1)
    && Has(q, 34, p[36..38]) && Has(q, 36, p[34..36])
    && Has(q, 26, IpBytes(host)) && Has(q, 30, p[26..30])
    && q[23] == p[23] && q[48] == p[48] && q[49] == p[49]
  }

  /** The sequence and acknowledgement numbers exchange their places, the latter plus one. */
  method FlipNumbers(buf: array<byte>)
    requires buf.Length >= 98
    modifies buf
    ensures Has(buf[..], 38, old(buf[42..46]))
    ensures Quad(buf[42], buf[43], buf[44], buf[45]) == Plus32(old(Quad(buf[38], buf[39], buf[40], buf[41])), 1)
    ensures forall i :: 0 <= i < buf.Length && !(38 <= i < 46) ==> buf[i] == old(buf[i])
  {
    var seqno, ackno := buf[38..42], buf[42..46];
    MemCpy(buf, 38, ackno + seqno);
    Increment(buf, 42);
  }

  /** The assignments at label reset. */
  method TurnAround(b: PacketBuffer)
    requires Roomy(b)
    modifies b.buf
    ensures TurnedAround(old(b.buf[..]), b.buf[..], b.host)
  {
    var ports, src := b.buf[34..38], b.buf[26..30];
    b.buf[47] := ByteOf(RST_ACK);
    b.buf[46] := 0x50;
    FlipNumbers(b.buf);
    MemCpy(b.buf, 26, IpBytes(b.host) + src + ports[2..] + ports[..2]);
  }

  /** The segment a reset answers `p` with. */
  function ResetOf(p: seq<byte>): Segment
    requires |p| >= 98
  {
    Segment(Be32(p[42..46]), Plus32(Be32(p[38..42]), 1), RST_ACK, Be16(p[48], p[49]), None, [])
  }

  lemma ResetReadsBack(p: seq<byte>, q: seq<byte>, r: seq<byte>, host: Ip)
    requires TurnedAround(p, q, host) && p[23] == UIP_PROTO_TCP
    requires Finished(r, 40) && |r| == |q|
    requires forall i :: 0 <= i < |q| && (i == 23 || 26 <= i < 50) ==> r[i] == q[i]
    ensures Sends(r, 40, ResetOf(p), host, IpAt(p, 26), Le16(p, 36), Le16(p, 34))
  {
    ResetNumbers(p, q, r, host);
    ReadsBack(r, 40, r[38..42], r[42..46], RST_ACK, Be16(p[48], p[49]), None);
    CtlRoundTrip(RST_ACK);
    ResetAddressed(p, q, r, host);
  }

  lemma ResetNumbers(p: seq<byte>, q: seq<byte>, r: seq<byte>, host: Ip)
    requires TurnedAround(p, q, host) && |r| == |q|
    requires forall i :: 38 <= i < 50 ==> r[i] == q[i]
    ensures Be32(r[38..42]) == Be32(p[42..46]) && Be32(r[42..46]) == Plus32(Be32(p[38..42]), 1)
    ensures r[46] == 0x50 && r[47] == ByteOf(RST_ACK) && r[48] == p[48] && r[49] == p[49]
  {
    assert r[38..42] == p[42..46];
  }

  lemma ResetAddressed(p: seq<byte>, q: seq<byte>, r: seq<byte>, host: Ip)
    requires TurnedAround(p, q, host) && p[23] == UIP_PROTO_TCP && |r| == |q|
    requires forall i :: 0 <= i < |q| && (i == 23 || 26 <= i < 38) ==> r[i] == q[i]
    ensures Addressed(r, host, IpAt(p, 26), Le16(p, 36), Le16(p, 34))
  {
    assert r[30] == p[26] && r[31] == p[27] && r[32] == p[28] && r[33] == p[29];
    IpRoundTrip(r, 30, IpAt(p, 26));
    LittleEndian(p[34], p[35], Le16(p, 34));
    LittleEndian(p[36], p[37], Le16(p, 36));
  }

  /** Label reset: anything but a reset is answered with one, addressed back to the sender. */
  method Reset(b: PacketBuffer)
    requires Roomy(b) && b.buf[23] == UIP_PROTO_TCP
    modifies b.buf, b`ipid, b`len
    ensures CtlOf(old(b.buf[47])).rst ==> b.len == 0
    ensures !CtlOf(old(b.buf[47])).rst ==>
              b.len == UIP_TCPIP_HLEN &&
              Sends(b.buf[..], b.len, old(ResetOf(b.buf[..])), b.host, old(IpAt(b.buf[..], 26)),
                    old(Le16(b.buf[..], 36)), old(Le16(b.buf[..], 34)))
  {
    ghost var p := b.buf[..];
    if b.buf[47] / 4 % 2 == 1 {
      b.len := 0;
      return;
    }
    TurnAround(b);
    ghost var q := b.buf[..];
    b.len := UIP_TCPIP_HLEN;
    b.SendNoconn();
    ResetReadsBack(p, q, b.buf[..], b.host);
  }
}

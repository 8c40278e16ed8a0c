/**
 * Splitting a maximum-size segment in two (uip/uip-split.c:48-134), so that a peer that delays
 * its acknowledgements answers at once.
 */
module Split {
  import opened Bytes
  import opened Checksum
  import opened Packet
  import opened Tcp
  import opened TcpPackets
  import opened Words
  import TcpRuns

  /** A TCP packet in a frame that ends where the packet does. */
  ghost predicate Plain(p: seq<byte>)
  {
    |p| >= 54 && Holds(p) && LLH + IpLen(p) == |p| && 40 <= IpLen(p) && p[23] == UIP_PROTO_TCP
  }

  function SeqNo(p: seq<byte>): u32
    requires |p| >= 54
  {
    Quad(p[38], p[39], p[40], p[41])
  }

  function DataOf(p: seq<byte>): seq<byte>
    requires |p| >= 54
  {
    p[54..]
  }

  ghost predicate SumsVerify(p: seq<byte>)
    requires Plain(p)
  {
    IpSum(p) % 65535 == 0 && UpperSum(p, UIP_PROTO_TCP) % 65535 == 0
  }

  /** Headers that differ in length, sequence number and checksums only. */
  ghost predicate SameHeader(p: seq<byte>, q: seq<byte>)
  {
    |p| >= 54 && |q| >= 54 && forall i :: 0 <= i < 54 && !(16 <= i < 18 || 24 <= i < 26 || 38 <= i < 42 || 50 <= i < 52) ==> q[i] == p[i]
  }

  /** `q` is the part of `p` with payload `data` at offset `at` of the payload. */
  ghost predicate IsPart(p: seq<byte>, q: seq<byte>, at: nat, data: seq<byte>)
  {
    && |p| >= 54 && Plain(q) && SumsVerify(q) && SameHeader(p, q)
    && DataOf(q) == data && SeqNo(q) == Plus32(SeqNo(p), at)
  }

  /** The two packets that come out carry the payload that went in, in order, once, with right numbers. */
  ghost predicate Splits(p: seq<byte>, q: seq<byte>, r: seq<byte>)
  {
    && |p| >= 54
    && IsPart(p, q, 0, DataOf(p)[..|DataOf(p)| / 2])
    && IsPart(p, r, |DataOf(p)| / 2, DataOf(p)[|DataOf(p)| / 2..])
  }

  lemma SplitsPreservesStream(p: seq<byte>, q: seq<byte>, r: seq<byte>)
    requires Splits(p, q, r)
    ensures DataOf(q) + DataOf(r) == DataOf(p)
    ensures SeqNo(q) == SeqNo(p) && SeqNo(r) == Plus32(SeqNo(q), IpLen(q) - 40)
    ensures IpLen(q) - 40 <= IpLen(r) - 40 <= IpLen(q) - 40 + 1
  {
    Plus32Zero(SeqNo(p));
  }

  /** BUF->len, and both checksums afresh. */
  method Relength(b: PacketBuffer)
    requires b.Valid() && 40 <= b.len < 0xff00 && LLH + b.len <= b.buf.Length
    modifies b.buf
    ensures Holds(b.buf[..]) && IpLen(b.buf[..]) == b.len
    ensures IpSum(b.buf[..]) % 65535 == 0 && UpperSum(b.buf[..], UIP_PROTO_TCP) % 65535 == 0
    ensures forall i :: 0 <= i < b.buf.Length && !(16 <= i < 18 || 24 <= i < 26 || 50 <= i < 52) ==> b.buf[i] == old(b.buf[i])
  {
    b.buf[16], b.buf[17] := b.len / 256, b.len % 256;
    b.SealTcp();
    ghost var p := b.buf[..];
    b.SealIp();
    SumsFrame(p, b.buf[..], UIP_PROTO_TCP);
  }

  /** What tcpip_output is handed: the frame of uip_len bytes behind the link-level header. */
  function FrameOf(p: seq<byte>, n: u16): seq<byte>
    requires LLH + n <= |p|
  {
    p[..LLH + n]
  }

  lemma FrameSums(p: seq<byte>)
    requires Holds(p) && 40 <= IpLen(p) && p[23] == UIP_PROTO_TCP
    requires IpSum(p) % 65535 == 0 && UpperSum(p, UIP_PROTO_TCP) % 65535 == 0
    ensures Plain(FrameOf(p, IpLen(p))) && SumsVerify(FrameOf(p, IpLen(p)))
  {
    var q := FrameOf(p, IpLen(p));
    assert q[LLH..LLH + IPH] == p[LLH..LLH + IPH];
    assert q[26..34] == p[26..34];
    assert q[34..LLH + IpLen(p)] == p[34..LLH + IpLen(p)];
  }

  lemma FrameIsPart(p: seq<byte>, q: seq<byte>, n: u16, at: nat, data: seq<byte>)
    requires Holds(q) && IpLen(q) == n && 40 <= n && IpSum(q) % 65535 == 0 && UpperSum(q, UIP_PROTO_TCP) % 65535 == 0
    requires SameHeader(p, q) && p[23] == UIP_PROTO_TCP && q[54..LLH + n] == data
    requires SeqNo(q) == Plus32(SeqNo(p), at)
    ensures IsPart(p, FrameOf(q, n), at, data)
  {
    FrameSums(q);
  }

  /** The first packet is the old one with its length changed. */
  lemma FirstIsPart(whole: seq<byte>, q: seq<byte>, tcplen: nat, len1: nat)
    requires 54 + tcplen <= |whole| && len1 == tcplen / 2 && len1 + 40 < 0xff00 && |q| == |whole| && tcplen + 40 < 0xff00
    requires whole[23] == UIP_PROTO_TCP
    requires Holds(q) && IpLen(q) == len1 + 40
    requires IpSum(q) % 65535 == 0 && UpperSum(q, UIP_PROTO_TCP) % 65535 == 0
    requires forall i :: 0 <= i < |q| && !(16 <= i < 18 || 24 <= i < 26 || 50 <= i < 52) ==> q[i] == whole[i]
    ensures IsPart(FrameOf(whole, tcplen + 40), FrameOf(q, len1 + 40), 0, DataOf(FrameOf(whole, tcplen + 40))[..len1])
  {
    var p := FrameOf(whole, tcplen + 40);
    Plus32Zero(SeqNo(p));
    StartOfPayload(whole, q, tcplen, len1);
    FrameIsPart(p, q, len1 + 40, 0, DataOf(p)[..len1]);
  }

  lemma StartOfPayload(whole: seq<byte>, q: seq<byte>, tcplen: nat, len1: nat)
    requires 54 + tcplen <= |whole| == |q| && len1 <= tcplen && tcplen + 40 < 0xff00
    requires forall i :: 54 <= i < |q| ==> q[i] == whole[i]
    ensures q[54..54 + len1] == DataOf(FrameOf(whole, tcplen + 40))[..len1]
  {
    assert q[54..54 + len1] == whole[54..54 + len1];
    assert DataOf(FrameOf(whole, tcplen + 40))[..len1] == whole[54..54 + len1];
  }

  lemma RestOfPayload(whole: seq<byte>, q: seq<byte>, r: seq<byte>, tcplen: nat, len1: nat)
    requires 54 + tcplen <= |whole| && len1 <= tcplen && |q| == |r| == |whole| && tcplen + 40 < 0xff00
    requires forall i :: 54 <= i < |q| ==> q[i] == whole[i]
    requires forall i :: 54 <= i < 54 + tcplen - len1 ==> r[i] == q[i + len1]
    ensures r[54..54 + tcplen - len1] == DataOf(FrameOf(whole, tcplen + 40))[len1..]
  {
    assert r[54..54 + tcplen - len1] == whole[54 + len1..54 + tcplen];
    assert DataOf(FrameOf(whole, tcplen + 40))[len1..] == whole[54 + len1..54 + tcplen];
  }

  lemma SecondIsPart(whole: seq<byte>, q: seq<byte>, r: seq<byte>, tcplen: nat, len1: nat)
    requires 54 + tcplen <= |whole| && len1 == tcplen / 2 && |q| == |r| == |whole| && tcplen + 40 < 0xff00
    requires whole[23] == UIP_PROTO_TCP
    requires forall i :: 0 <= i < |q| && !(16 <= i < 18 || 24 <= i < 26 || 50 <= i < 52) ==> q[i] == whole[i]
    requires Holds(r) && IpLen(r) == tcplen - len1 + 40
    requires IpSum(r) % 65535 == 0 && UpperSum(r, UIP_PROTO_TCP) % 65535 == 0
    requires SameHeader(q, r) && forall i :: 54 <= i < 54 + tcplen - len1 ==> r[i] == q[i + len1]
    requires SeqNo(r) == Plus32(SeqNo(q), len1)
    ensures IsPart(FrameOf(whole, tcplen + 40), FrameOf(r, tcplen - len1 + 40), len1,
                   DataOf(FrameOf(whole, tcplen + 40))[len1..])
  {
    var p := FrameOf(whole, tcplen + 40);
    RestOfPayload(whole, q, r, tcplen, len1);
    FrameIsPart(p, r, tcplen - len1 + 40, len1, DataOf(p)[len1..]);
  }

  /** The first packet: the same one with its length and checksums changed. */
  method FirstHalf(b: PacketBuffer, len1: u16) returns (out: seq<byte>)
    requires b.Valid() && 40 <= b.len < 0xff00 && LLH + b.len <= b.buf.Length && b.buf[23] == UIP_PROTO_TCP
    requires len1 == (b.len - 40) / 2
    modifies b.buf, b`len
    ensures IsPart(old(FrameOf(b.buf[..], b.len)), out, 0, DataOf(old(FrameOf(b.buf[..], b.len)))[..len1])
    ensures forall i :: 0 <= i < b.buf.Length && !(16 <= i < 18 || 24 <= i < 26 || 50 <= i < 52) ==> b.buf[i] == old(b.buf[i])
  {
    ghost var whole, tcplen := b.buf[..], b.len - 40;
    b.len := len1 + 40;
    Relength(b);
    FirstIsPart(whole, b.buf[..], tcplen, len1);
    out := FrameOf(b.buf[..], b.len);
  }

  /** memcpy from first byte to last of `n` bytes that move down by `shift`: sound where the ranges overlap. */
  method CopyForward(buf: array<byte>, at: nat, shift: nat, n: nat)
    requires at + shift + n <= buf.Length
    modifies buf
    ensures forall i :: at <= i < at + n ==> buf[i] == old(buf[i + shift])
    ensures forall i :: 0 <= i < buf.Length && !(at <= i < at + n) ==> buf[i] == old(buf[i])
  {
    var k := at;
    while k < at + n
      invariant at <= k <= at + n
      invariant forall i :: at <= i < k ==> buf[i] == old(buf[i + shift])
      invariant forall i :: 0 <= i < buf.Length && !(at <= i < k) ==> buf[i] == old(buf[i])
    {
      buf[k] := buf[k + shift];
      k := k + 1;
    }
  }

  /** The ranges of the copy share one byte when the payload is odd, and none otherwise. */
  lemma CopyOverlaps(tcplen: nat, i: nat)
    ensures var len1 := tcplen / 2;
            var len2 := tcplen - len1;
            54 <= i < 54 + len2 && 54 + len1 <= i < 54 + len1 + len2 <==> tcplen % 2 == 1 && i == 54 + len1
  {
  }

  /** The second packet: the rest of the payload moved down, the sequence number advanced. */
  method SecondHalf(b: PacketBuffer, len1: u16, len2: u16, acc32: array<byte>)
    requires b.Valid() && acc32.Length == 4 && acc32 != b.buf
    requires 54 + len1 + len2 <= b.buf.Length && len2 + 40 < 0xff00
    modifies b.buf, b`len, acc32
    ensures b.len == len2 + 40 && Holds(b.buf[..]) && IpLen(b.buf[..]) == b.len
    ensures IpSum(b.buf[..]) % 65535 == 0 && UpperSum(b.buf[..], UIP_PROTO_TCP) % 65535 == 0
    ensures SameHeader(old(b.buf[..]), b.buf[..])
    ensures forall i :: 54 <= i < 54 + len2 ==> b.buf[i] == old(b.buf[i + len1])
    ensures SeqNo(b.buf[..]) == Plus32(old(SeqNo(b.buf[..])), len1)
  {
    b.len := len2 + 40;
    CopyForward(b.buf, 54, len1, len2);
    AdvanceSeqNo(b.buf, len1, acc32);
    Relength(b);
  }

  /** uip_add32(BUF->seqno, len1) and the copy of the result. */
  method AdvanceSeqNo(buf: array<byte>, len1: u16, acc32: array<byte>)
    requires buf.Length >= 54 && acc32.Length == 4 && acc32 != buf
    modifies buf, acc32
    ensures SeqNo(buf[..]) == Plus32(old(SeqNo(buf[..])), len1)
    ensures forall i :: 0 <= i < buf.Length && !(38 <= i < 42) ==> buf[i] == old(buf[i])
  {
    Add32(buf, 38, len1, acc32);
    MemCpy(buf, 38, acc32[..]);
    assert SeqNo(buf[..]) == Be32(acc32[..]);
  }

  lemma BothParts(whole: seq<byte>, q: seq<byte>, r: seq<byte>, tcplen: nat, len1: nat)
    requires 54 + tcplen <= |whole| && len1 == tcplen / 2 && tcplen + 40 < 0xff00
    requires var p := FrameOf(whole, tcplen + 40);
             IsPart(p, q, 0, DataOf(p)[..len1]) && IsPart(p, r, len1, DataOf(p)[len1..])
    ensures Splits(FrameOf(whole, tcplen + 40), q, r)
  {
    assert |DataOf(FrameOf(whole, tcplen + 40))| == tcplen;
  }

  /** The maximum-size case of uip_split_output. */
  method SplitInTwo(b: PacketBuffer, acc32: array<byte>) returns (out1: seq<byte>, out2: seq<byte>)
    requires b.Valid() && acc32.Length == 4 && acc32 != b.buf
    requires 40 <= b.len < 0xff00 && LLH + b.len <= b.buf.Length && b.buf[23] == UIP_PROTO_TCP
    modifies b.buf, b`len, acc32
    ensures Splits(old(FrameOf(b.buf[..], b.len)), out1, out2)
  {
    ghost var whole := b.buf[..];
    var tcplen := b.len - 40;
    var len1, len2 := tcplen / 2, tcplen / 2;
    if len1 + len2 < tcplen {
      len2 := len2 + 1;
    }
    out1 := FirstHalf(b, len1);
    assert len2 == tcplen - len1;
    out2 := LastHalf(b, len1, len2, acc32, whole);
    BothParts(whole, out1, out2, tcplen, len1);
  }

  /** The second packet, from a buffer whose header the first one was sent with. */
  method LastHalf(b: PacketBuffer, len1: u16, len2: u16, acc32: array<byte>, ghost whole: seq<byte>) returns (out: seq<byte>)
    requires b.Valid() && acc32.Length == 4 && acc32 != b.buf && len1 == (len1 + len2) / 2
    requires 54 + len1 + len2 <= b.buf.Length == |whole| && len1 + len2 + 40 < 0xff00 && whole[23] == UIP_PROTO_TCP
    requires forall i :: 0 <= i < b.buf.Length && !(16 <= i < 18 || 24 <= i < 26 || 50 <= i < 52) ==> b.buf[i] == whole[i]
    modifies b.buf, b`len, acc32
    ensures var p := FrameOf(whole, len1 + len2 + 40); IsPart(p, out, len1, DataOf(p)[len1..])
  {
    ghost var first := b.buf[..];
    SecondHalf(b, len1, len2, acc32);
    SecondIsPart(whole, first, b.buf[..], len1 + len2, len1);
    out := FrameOf(b.buf[..], b.len);
  }

  /** uip_split_output for a buffer of `bufsize` bytes; `out` are the frames handed to tcpip_output. */
  method SplitOutput(b: PacketBuffer, bufsize: nat, acc32: array<byte>) returns (out: seq<seq<byte>>)
    requires b.Valid() && acc32.Length == 4 && acc32 != b.buf
    requires 54 <= bufsize <= b.buf.Length && bufsize < 0xff00 && LLH + b.len <= b.buf.Length
    modifies b.buf, b`len, acc32
    ensures old(b.buf[23]) == UIP_PROTO_TCP && old(b.len) == bufsize - LLH ==>
              |out| == 2 && Splits(old(FrameOf(b.buf[..], b.len)), out[0], out[1])
    ensures !(old(b.buf[23]) == UIP_PROTO_TCP && old(b.len) == bufsize - LLH) ==>
              out == [old(FrameOf(b.buf[..], b.len))] && b.buf[..] == old(b.buf[..]) && b.len == old(b.len)
  {
    if b.buf[23] == UIP_PROTO_TCP && b.len == bufsize - LLH {
      var out1, out2 := SplitInTwo(b, acc32);
      out := [out1, out2];
    } else {
      out := [FrameOf(b.buf[..], b.len)];
    }
  }

  // ---- What the receiver makes of it ----

  /** The same segment cut in two behind its first `k` bytes. */
  function FirstPart(s: Segment, k: nat): Segment
    requires k <= |s.data|
  {
    s.(data := s.data[..k])
  }

  function SecondPart(s: Segment, k: nat): Segment
    requires k <= |s.data|
  {
    s.(data := s.data[k..], seqno := Plus32(s.seqno, k))
  }

  /** The answer of an application that only reads. */
  const READ_ONLY := Reply(Carry, 0, seq(UIP_TCP_MSS, i => 0))

  /**
   * A receiver in ESTABLISHED ends in the same state, having been handed the same bytes, but
   * acknowledges twice: that is what the split is for.
   */
  lemma ReceiverSeesNoDifference(c: Conn, s: Segment, k: nat)
    requires c.state == Established && !s.ctl.rst && !s.ctl.fin && !s.ctl.syn && s.seqno == c.rcvNxt
    requires 0 < k < |s.data|
    ensures var whole := Input(c, s, READ_ONLY);
            var one := Input(c, FirstPart(s, k), READ_ONLY);
            var two := Input(one.conn, SecondPart(s, k), READ_ONLY);
            && two.conn == whole.conn
            && one.call.Some? && two.call.Some? && whole.call.Some?
            && one.call.value.data + two.call.value.data == whole.call.value.data
            && one.jump == two.jump == whole.jump == SendNoopts(ACK, 0)
  {
    var one := Input(c, FirstPart(s, k), READ_ONLY).conn;
    InOrderData(c, s);
    InOrderData(c, FirstPart(s, k));
    Plus32Twice(c.rcvNxt, k, |s.data| - k);
    AcknowledgedOnce(c, s, k);
    InOrderData(one, SecondPart(s, k));
  }

  predicate DataOnly(s: Segment) { !s.ctl.rst && !s.ctl.fin && !s.ctl.syn && s.data != [] }

  /** One in-order data segment at a reader in ESTABLISHED. */
  lemma InOrderData(c: Conn, s: Segment)
    requires c.state == Established && DataOnly(s) && s.seqno == c.rcvNxt
    ensures Input(c, s, READ_ONLY) == Output(AfterData(c, s), SendNoopts(ACK, 0), Some(Call(AckFlag(c, s) + {NewData}, s.data)))
  {
  }

  function AfterData(c: Conn, s: Segment): Conn
  {
    Received(TakeAck(c, s), |s.data|)
      .(mss := if s.wnd > c.initialmss || s.wnd == 0 then c.initialmss else s.wnd, nrtx := 0)
  }

  /** The acknowledgement that both parts carry is taken with the first. */
  lemma AcknowledgedOnce(c: Conn, s: Segment, k: nat)
    requires 0 < k < |s.data|
    ensures TakeAck(AfterData(c, FirstPart(s, k)), SecondPart(s, k)) == AfterData(c, FirstPart(s, k))
  {
  }

  /** Without options the two packets hold the two parts of the segment. */
  lemma PacketsHoldParts(p: seq<byte>, q: seq<byte>, r: seq<byte>)
    requires Splits(p, q, r) && p[46] == 0x50 && |q| >= 98 && |p| <= 0xffff
    ensures var n, k := |p| - LLH, |DataOf(p)| / 2;
            && Readable(p, n) && k <= |SegmentAt(p, n).data|
            && Readable(q, IpLen(q)) && SegmentAt(q, IpLen(q)) == FirstPart(SegmentAt(p, n), k)
            && Readable(r, IpLen(r)) && SegmentAt(r, IpLen(r)) == SecondPart(SegmentAt(p, n), k)
  {
    var k := |DataOf(p)| / 2;
    assert p[54..54 + |DataOf(p)|] == DataOf(p);
    PartHolds(p, q, 0, DataOf(p)[..k]);
    PartHolds(p, r, k, DataOf(p)[k..]);
    Plus32Zero(SeqNo(p));
  }

  lemma PartHolds(p: seq<byte>, q: seq<byte>, at: nat, data: seq<byte>)
    requires IsPart(p, q, at, data) && p[46] == 0x50 && |p| >= 98 && |q| >= 98 && |p| <= 0xffff
    ensures Readable(p, |p| - LLH) && Readable(q, IpLen(q))
    ensures SegmentAt(q, IpLen(q)) == SegmentAt(p, |p| - LLH).(data := data, seqno := Plus32(SeqNo(p), at))
    ensures SegmentAt(p, |p| - LLH).seqno == SeqNo(p)
  {
    assert q[46] == p[46] && q[47] == p[47] && q[48] == p[48] && q[49] == p[49];
    assert q[42..46] == p[42..46];
    assert q[54..54 + (IpLen(q) - 40)] == DataOf(q);
  }

  /** What is handed to the application in a step. */
  function Handed(o: Output): seq<byte> { if o.call.Some? then o.call.value.data else [] }

  function Hear(c: Conn, s: Segment, r: Reply): Output { TcpRuns.Step(c, TcpRuns.SegmentEvent(s, r)) }

  /**
   * The two parts are delivered as the whole is exactly when the application neither closes nor
   * aborts in answer to the first.  Their sequence space is accepted as the whole's exactly when
   * it does not abort.
   */
  lemma ReceiverTakesTheSame(c: Conn, s: Segment, k: nat, whole: Reply, first: Reply, second: Reply)
    requires c.state == Established && DataOnly(s) && s.seqno == c.rcvNxt && 0 < k < |s.data| < 0x1_0000_0000
    ensures var w, one := Hear(c, s, whole), Hear(c, FirstPart(s, k), first);
            var two := Hear(one.conn, SecondPart(s, k), second);
            && Handed(w) == s.data && Handed(one) == s.data[..k]
            && (Handed(one) + Handed(two) == Handed(w) <==> first.action == Carry)
            && (two.conn.rcvNxt == w.conn.rcvNxt <==> first.action != AbortConn)
  {
    TakesData(c, s, whole);
    TakesData(c, FirstPart(s, k), first);
    var one := Hear(c, FirstPart(s, k), first);
    Plus32Twice(c.rcvNxt, k, |s.data| - k);
    assert s.data[..k] + s.data[k..] == s.data;
    match first.action {
      case Carry => TakesData(one.conn, SecondPart(s, k), second);
      case CloseConn => UndeliveredInFinWait(one.conn, SecondPart(s, k), second);
      case AbortConn =>
        if Plus32(c.rcvNxt, k) == Plus32(c.rcvNxt, |s.data|) {
          Plus32Injective(c.rcvNxt, k, |s.data|);
        }
    }
  }

  /** One data segment in order: where the connection goes, and what is delivered. */
  lemma TakesData(c: Conn, s: Segment, r: Reply)
    requires c.state == Established && DataOnly(s) && s.seqno == c.rcvNxt
    ensures var o := Hear(c, s, r);
            && o.conn.state == (match r.action case Carry => Established case CloseConn => FinWait1 case AbortConn => Closed)
            && o.conn.rcvNxt == Plus32(c.rcvNxt, |s.data|) && Handed(o) == s.data
  {
  }

  /** After uip_close data is still accepted, and delivered to nobody. */
  lemma UndeliveredInFinWait(c: Conn, s: Segment, r: Reply)
    requires c.state == FinWait1 && DataOnly(s) && s.seqno == c.rcvNxt
    ensures var o := Hear(c, s, r);
            o.call == None && o.conn.rcvNxt == Plus32(c.rcvNxt, |s.data|) && (o.conn.state == FinWait1 || o.conn.state == FinWait2)
  {
  }

  /** An application that closes in answer to the first part never gets the second, which is acknowledged. */
  lemma ClosingLosesTheSecond(c: Conn, s: Segment, k: nat, first: Reply, second: Reply)
    requires c.state == Established && DataOnly(s) && s.seqno == c.rcvNxt && 0 < k < |s.data|
    requires first.action == CloseConn
    ensures var one := Hear(c, FirstPart(s, k), first);
            var two := Hear(one.conn, SecondPart(s, k), second);
            && two.call == None && two.conn.rcvNxt == Plus32(c.rcvNxt, |s.data|)
            && (two.conn.state == FinWait1 || two.conn.state == FinWait2)
  {
    var one := Hear(c, FirstPart(s, k), first);
    TakesData(c, FirstPart(s, k), first);
    UndeliveredInFinWait(one.conn, SecondPart(s, k), second);
    Plus32Twice(c.rcvNxt, k, |s.data| - k);
  }
}

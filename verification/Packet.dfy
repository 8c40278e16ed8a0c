/**
 * The packet buffer uip_buf: checksums of the packet in it, the code behind the send labels and
 * the input tests (uip/uip.c:311-357, 835-946, 1178-1183, 1220-1266, 1361-1380, 1791-1867).
 * Offsets are those of struct uip_tcpip_hdr behind a 14-byte link-level header.
 */
module Packet {
  import opened Bytes
  import opened Checksum
  import opened Words

  const LLH: nat := 14
  const IPH: nat := 20
  const UIP_PROTO_TCP: byte := 6
  const UIP_PROTO_ICMP: byte := 1

  /** The length field of the IP header. */
  function IpLen(p: seq<byte>): u16
    requires |p| >= 54
  {
    Be16(p[16], p[17])
  }

  /** The buffer holds the packet its IP header describes. */
  predicate Holds(p: seq<byte>) { |p| >= 54 && IPH <= IpLen(p) && LLH + IpLen(p) <= |p| }

  ghost function IpSum(p: seq<byte>): nat
    requires |p| >= 54
  {
    WordSum(p[LLH..LLH + IPH])
  }

  /** The sum of the pseudo-header and the upper-layer data as uIP takes it. */
  ghost function UpperSum(p: seq<byte>, proto: byte): nat
    requires Holds(p)
  {
    IpLen(p) - IPH + proto + WordSum(p[26..34]) + WordSum(p[34..LLH + IpLen(p)])
  }

  /** The 96-bit pseudo-header of section 3.1 of RFC 793. */
  function PseudoHeader(p: seq<byte>, proto: byte): seq<byte>
    requires Holds(p)
  {
    p[26..34] + [0, proto] + [(IpLen(p) - IPH) / 256, (IpLen(p) - IPH) % 256]
  }

  /** uIP's order of summation is the sum over pseudo-header and segment. */
  lemma UpperSumIsRfc793(p: seq<byte>, proto: byte)
    requires Holds(p)
    ensures UpperSum(p, proto) == WordSum(PseudoHeader(p, proto) + p[34..LLH + IpLen(p)])
  {
    var n := IpLen(p) - IPH;
    var a, b, c := p[26..34], [0, proto], [n / 256, n % 256];
    WordSumConcat(a + b + c, p[34..LLH + IpLen(p)]);
    WordSumConcat(a + b, c);
    WordSumConcat(a, b);
    assert WordSum(b) == proto + WordSum(b[2..]);
    assert WordSum(c) == n + WordSum(c[2..]);
  }

  /** The sums depend on the bytes they cover only. */
  lemma SumsFrame(p: seq<byte>, q: seq<byte>, proto: byte)
    requires Holds(p) && |q| == |p|
    ensures (forall i :: LLH <= i < LLH + IPH ==> q[i] == p[i]) ==> IpSum(q) == IpSum(p)
    ensures q[16] == p[16] && q[17] == p[17] && (forall i :: 26 <= i < |p| ==> q[i] == p[i]) ==>
              Holds(q) && UpperSum(q, proto) == UpperSum(p, proto)
  {
    if forall i :: LLH <= i < LLH + IPH ==> q[i] == p[i] {
      assert q[LLH..LLH + IPH] == p[LLH..LLH + IPH];
    }
    if q[16] == p[16] && q[17] == p[17] && forall i :: 26 <= i < |p| ==> q[i] == p[i] {
      assert q[26..34] == p[26..34];
      assert q[34..LLH + IpLen(p)] == p[34..LLH + IpLen(p)];
    }
  }

  /** The input tests that every packet passes at a host with address `host`, whatever its protocol. */
  ghost predicate IpAcceptable(p: seq<byte>, n: u16, host: Ip)
    requires |p| >= 54
  {
    && p[14] == 0x45
    && IpLen(p) <= n
    && p[20] % 64 == 0 && p[21] == 0
    && (host == Ip(0, 0) || IpAt(p, 30) == host)
    && IpSum(p) % 65535 == 0
  }

  /** The input tests for a TCP packet. */
  ghost predicate TcpAcceptable(p: seq<byte>, n: u16, host: Ip)
    requires |p| >= 54
  {
    && IpAcceptable(p, n, host)
    && p[23] == UIP_PROTO_TCP
    && Holds(p) && UpperSum(p, UIP_PROTO_TCP) % 65535 == 0
  }

  /** A packet that is accepted, with one 16-bit word of header or segment changed to another value modulo 65535. */
  ghost predicate CorruptedAt(p: seq<byte>, q: seq<byte>, i: nat)
  {
    && |q| == |p| && i % 2 == 0 && 14 <= i && i != 16 && i + 2 <= |p|
    && (Be16(q[i], q[i + 1]) - Be16(p[i], p[i + 1])) % 65535 != 0
    && forall k :: 0 <= k < |p| && k != i && k != i + 1 ==> q[k] == p[k]
  }

  /** Such a packet is not accepted: the checksums catch every change of a single word. */
  lemma CorruptionIsDetected(p: seq<byte>, q: seq<byte>, n: u16, host: Ip, i: nat)
    requires |p| >= 54 && TcpAcceptable(p, n, host) && CorruptedAt(p, q, i) && i + 2 <= LLH + IpLen(p)
    ensures !TcpAcceptable(q, n, host)
  {
    assert IpLen(q) == IpLen(p);
    if i < LLH + IPH {
      HeaderCorrupted(p, q, i);
    } else {
      SegmentCorrupted(p, q, LLH + IpLen(p), i);
    }
  }

  lemma HeaderCorrupted(p: seq<byte>, q: seq<byte>, i: nat)
    requires |p| >= 54 && CorruptedAt(p, q, i) && i < LLH + IPH && IpSum(p) % 65535 == 0
    ensures IpSum(q) % 65535 != 0
  {
    WordSumReplace(p[LLH..LLH + IPH], q[LLH..LLH + IPH], i - LLH);
    Shifted(IpSum(p), IpSum(q), Be16(p[i], p[i + 1]), Be16(q[i], q[i + 1]));
  }

  lemma SegmentCorrupted(p: seq<byte>, q: seq<byte>, n1: nat, i: nat)
    requires Holds(p) && Holds(q) && CorruptedAt(p, q, i) && LLH + IPH <= i && i + 2 <= n1 == LLH + IpLen(p)
    requires UpperSum(p, UIP_PROTO_TCP) % 65535 == 0 && IpLen(q) == IpLen(p)
    ensures UpperSum(q, UIP_PROTO_TCP) % 65535 != 0
  {
    assert q[26..34] == p[26..34];
    WordSumReplace(p[34..n1], q[34..n1], i - 34);
    Shifted(UpperSum(p, UIP_PROTO_TCP), UpperSum(q, UIP_PROTO_TCP), Be16(p[i], p[i + 1]), Be16(q[i], q[i + 1]));
  }

  lemma Shifted(s: nat, t: nat, x: u16, y: u16)
    requires s % 65535 == 0 && t - y == s - x && (y - x) % 65535 != 0
    ensures t % 65535 != 0
  {
    if t % 65535 == 0 {
      Residue(y - x, t / 65535 - s / 65535, 0);
    }
  }

  /** Every packet can be given checksums that verify, by these four bytes. */
  lemma CanBeSealed(p: seq<byte>) returns (q: seq<byte>)
    requires Holds(p) && 40 <= IpLen(p)
    ensures |q| == |p| && forall i :: 0 <= i < |p| && !(24 <= i < 26 || 50 <= i < 52) ==> q[i] == p[i]
    ensures Holds(q) && IpSum(q) % 65535 == 0 && UpperSum(q, UIP_PROTO_TCP) % 65535 == 0
  {
    var r := SealedUpper(p);
    q := SealedHeader(r);
    SumsFrame(r, q, UIP_PROTO_TCP);
  }

  lemma SealedUpper(p: seq<byte>) returns (q: seq<byte>)
    requires Holds(p) && 40 <= IpLen(p)
    ensures |q| == |p| && forall i :: 0 <= i < |p| && i != 50 && i != 51 ==> q[i] == p[i]
    ensures Holds(q) && UpperSum(q, UIP_PROTO_TCP) % 65535 == 0
  {
    var n := LLH + IpLen(p);
    var d: seq<byte> := p[34..n][16 := 0][17 := 0];
    var rest := IpLen(p) - IPH + UIP_PROTO_TCP + WordSum(p[26..34]);
    var v := Complement(Presented(Fold(rest + WordSum(d))));
    var e: seq<byte> := d[16 := v % 256][17 := v / 256];
    SealedBlock(d, e, 16, rest, v);
    q := p[50 := v % 256][51 := v / 256];
    assert q[26..34] == p[26..34];
    assert q[34..n] == e;
  }

  lemma SealedHeader(p: seq<byte>) returns (q: seq<byte>)
    requires |p| >= 54
    ensures |q| == |p| && forall i :: 0 <= i < |p| && i != 24 && i != 25 ==> q[i] == p[i]
    ensures IpSum(q) % 65535 == 0
  {
    var z := p[24 := 0][25 := 0];
    var d := z[LLH..LLH + IPH];
    var v := Complement(Presented(Fold(WordSum(d))));
    q := z[24 := v % 256][25 := v / 256];
    SealedBlock(d, q[LLH..LLH + IPH], 10, 0, v);
  }

  class PacketBuffer {
    const buf: array<byte>
    const host: Ip
    var len: u16
    var ipid: u16

    ghost predicate Valid() { buf.Length >= 58 }

    /** uip_buf and uip_hostaddr. */
    constructor (size: nat, host: Ip)
      requires size >= 58
      ensures Valid() && fresh(buf) && buf.Length == size && this.host == host && len == 0
    {
      buf := new byte[size](_ => 0);
      this.host := host;
      len, ipid := 0, 0;
    }

    /** uip_ipchksum */
    method IpChksum() returns (r: u16)
      requires Valid()
      ensures r == Presented(Fold(IpSum(buf[..])))
    {
      var sum := Chksum(0, buf, LLH, IPH);
      assert buf[..][LLH..LLH + IPH] == buf[LLH..LLH + IPH];
      r := Presented(sum);
    }

    /** upper_layer_chksum */
    method UpperLayerChksum(proto: byte) returns (r: u16)
      requires Valid() && Holds(buf[..]) && IpLen(buf[..]) - IPH + proto <= 0xffff
      ensures r == Presented(Fold(UpperSum(buf[..], proto)))
    {
      var upperLayerLen: u16 := Be16(buf[16], buf[17]) - IPH;
      var sum0: u16 := upperLayerLen + proto;
      var sum1 := Chksum(sum0, buf, 26, 8);
      var sum2 := Chksum(sum1, buf, 34, upperLayerLen);
      FoldAdd(sum0 + WordSum(buf[26..34]), WordSum(buf[34..34 + upperLayerLen]));
      assert buf[..][26..34] == buf[26..34];
      assert buf[..][34..LLH + IpLen(buf[..])] == buf[34..34 + upperLayerLen];
      r := Presented(sum2);
    }

    /** The IP header checksum, computed over a zeroed field. */
    method SealIp()
      requires Valid()
      modifies buf
      ensures IpSum(buf[..]) % 65535 == 0
      ensures forall i :: 0 <= i < buf.Length && i != 24 && i != 25 ==> buf[i] == old(buf[i])
    {
      buf[24], buf[25] := 0, 0;
      ghost var d := buf[LLH..LLH + IPH];
      assert buf[..][LLH..LLH + IPH] == d;
      var v := IpChksum();
      v := Complement(v);
      buf[24], buf[25] := v % 256, v / 256;
      ghost var e := buf[LLH..LLH + IPH];
      assert buf[..][LLH..LLH + IPH] == e;
      SealedBlock(d, e, 10, 0, v);
    }

    /** The TCP checksum, computed over a zeroed field. */
    method SealTcp()
      requires Valid() && 40 <= IpLen(buf[..]) && Holds(buf[..]) && IpLen(buf[..]) < 0xff00
      modifies buf
      ensures IpLen(buf[..]) == old(IpLen(buf[..]))
      ensures Holds(buf[..]) && UpperSum(buf[..], UIP_PROTO_TCP) % 65535 == 0
      ensures forall i :: 0 <= i < buf.Length && i != 50 && i != 51 ==> buf[i] == old(buf[i])
    {
      buf[50], buf[51] := 0, 0;
      ghost var p := buf[..];
      ghost var d := p[34..LLH + IpLen(p)];
      ghost var rest := UpperSum(p, UIP_PROTO_TCP) - WordSum(d);
      var v := UpperLayerChksum(UIP_PROTO_TCP);
      v := Complement(v);
      buf[50], buf[51] := v % 256, v / 256;
      ghost var q := buf[..];
      ghost var e := q[34..LLH + IpLen(q)];
      assert q[26..34] == p[26..34];
      SealedBlock(d, e, 16, rest, v);
    }

    /** From label ip_send_nolen: the rest of the IP header and its checksum. */
    method IpSendNolen()
      requires Valid() && Holds(buf[..])
      modifies buf, `ipid
      ensures buf[14] == 0x45 && buf[15] == 0 && buf[20] == 0 && buf[21] == 0
      ensures ipid == Plus16(old(ipid), 1) && buf[18] == ipid / 256 && buf[19] == ipid % 256
      ensures IpSum(buf[..]) % 65535 == 0
      ensures forall i :: 0 <= i < buf.Length && !(14 <= i < 16 || 18 <= i < 22 || 24 <= i < 26) ==> buf[i] == old(buf[i])
    {
      buf[14] := 0x45;
      buf[15] := 0;
      buf[20], buf[21] := 0, 0;
      ipid := Plus16(ipid, 1);
      buf[18] := ipid / 256;
      buf[19] := ipid % 256;
      SealIp();
    }

    /** From label tcp_send_noconn. */
    method SendNoconn()
      requires Valid() && 40 <= len && LLH + len <= buf.Length && len < 0xff00
      modifies buf, `ipid
      ensures Finished(buf[..], len)
      ensures ipid == Plus16(old(ipid), 1) && buf[18] == ipid / 256 && buf[19] == ipid % 256
      ensures forall i :: 0 <= i < buf.Length && !(14 <= i < 23 || i == 24 || i == 25 || 50 <= i < 54) ==>
                buf[i] == old(buf[i])
    {
      buf[22] := 64;
      buf[16] := len / 256;
      buf[17] := len % 256;
      buf[52], buf[53] := 0, 0;
      SealTcp();
      ghost var p := buf[..];
      assert p[22] == 64 && p[52] == 0 && p[53] == 0;
      IpSendNolen();
      SealedIsFinished(p, buf[..], len);
    }
  }

  lemma SealedIsFinished(p: seq<byte>, q: seq<byte>, n: u16)
    requires Holds(p) && IpLen(p) == n && UpperSum(p, UIP_PROTO_TCP) % 65535 == 0
    requires p[22] == 64 && p[52] == 0 && p[53] == 0 && |q| == |p|
    requires q[14] == 0x45 && q[15] == 0 && q[20] == 0 && q[21] == 0 && IpSum(q) % 65535 == 0
    requires forall i :: 0 <= i < |p| && !(14 <= i < 16 || 18 <= i < 22 || 24 <= i < 26) ==> q[i] == p[i]
    ensures Finished(q, n)
  {
    SumsFrame(p, q, UIP_PROTO_TCP);
  }

  /** What the code from tcp_send_noconn on establishes for a packet of length `n`. */
  ghost predicate Finished(p: seq<byte>, n: u16)
  {
    && Holds(p) && IpLen(p) == n
    && Has(p, 14, [0x45, 0]) && Has(p, 20, [0, 0, 64]) && Has(p, 52, [0, 0])
    && IpSum(p) % 65535 == 0 && UpperSum(p, UIP_PROTO_TCP) % 65535 == 0
  }
}

/**
 * Adjusting a checksum in place of recomputing it (RFC 1624), and the echo reply that does so
 * (uip/uip.c:976-1009).  The checksum fields are 16-bit values loaded by a little-endian
 * processor, so that every addition is made on the byte-swapped value.
 */
module Icmp {
  import opened Bytes
  import opened Checksum
  import opened Packet
  import opened Words

  const ICMP_ECHO: byte := 8
  const ICMP_ECHO_REPLY: byte := 0

  // ---- Arithmetic on byte-swapped checksums ----

  /**
   * The adjustment of a checksum as it was loaded, d being the byte-swapped 256 * d: one more is
   * added when the sum reaches 0xffff.
   */
  function AddSwapped(f: u16, d: byte): u16
  {
    if f >= 0xffff - d then Plus16(f, d + 1) else Plus16(f, d)
  }

  lemma AddSwappedIsAddition(f: u16, d: byte)
    ensures AddSwapped(f, d) % 65535 == (f + d) % 65535
  {
    if f >= 0xffff - d {
      Residue(AddSwapped(f, d), (f + d) / 65535 - 1, (f + d) % 65535);
    }
  }

  /** Swapping the bytes of a word multiplies it by 256 modulo 65535. */
  lemma HtonsTimes256(x: u16)
    ensures Htons(x) % 65535 == 256 * x % 65535
  {
    assert 256 * x - Htons(x) == x / 256 * 65535;
    Residue(256 * x, Htons(x) / 65535 + x / 256, Htons(x) % 65535);
  }

  /** Adding d to the swapped value adds 256 * d to the word on the wire. */
  lemma AddSwappedWord(f: u16, d: byte)
    ensures Htons(AddSwapped(f, d)) % 65535 == (Htons(f) + 256 * d) % 65535
  {
    var r := AddSwapped(f, d);
    AddSwappedIsAddition(f, d);
    HtonsTimes256(f);
    HtonsTimes256(r);
    Scaled(f + d, r);
    Scaled(f, f);
    Congruent(256 * f, Htons(f), 256 * d);
  }

  lemma Scaled(x: nat, y: nat)
    requires x % 65535 == y % 65535
    ensures 256 * x % 65535 == 256 * y % 65535
  {
    var k := x / 65535 - y / 65535;
    assert x == y + k * 65535;
    Residue(256 * x, 256 * y / 65535 + 256 * k, 256 * y % 65535);
  }

  lemma Congruent(x: nat, y: nat, z: nat)
    requires x % 65535 == y % 65535
    ensures (x + z) % 65535 == (y + z) % 65535
  {
    var k := x / 65535 - y / 65535;
    Residue(x + z, (y + z) / 65535 + k, (y + z) % 65535);
  }

  /** The word on the wire is the swapped value that is loaded. */
  lemma LoadSwaps(d: seq<byte>, j: nat)
    requires j + 2 <= |d|
    ensures Htons(Le16(d, j)) == Be16(d[j], d[j + 1])
  {
    LittleEndian(d[j], d[j + 1], Le16(d, j));
  }

  lemma AddSwappedWire(d: seq<byte>, e: seq<byte>, j: nat, k: byte)
    requires j + 2 <= |d| && j + 2 <= |e| && Le16(e, j) == AddSwapped(Le16(d, j), k)
    ensures Be16(e[j], e[j + 1]) % 65535 == (Be16(d[j], d[j + 1]) + 256 * k) % 65535
  {
    AddSwappedWord(Le16(d, j), k);
    LoadSwaps(d, j);
    LoadSwaps(e, j);
  }

  lemma TwoWordsReplaced(d: seq<byte>, e: seq<byte>, i: nat, j: nat)
    requires |d| == |e| && i % 2 == 0 && j % 2 == 0 && i + 2 <= |d| && j + 2 <= |d| && i != j
    requires forall m :: 0 <= m < |d| && m != i && m != j && m != j + 1 ==> e[m] == d[m]
    ensures WordSum(e) - Be16(e[j], e[j + 1]) == WordSum(d) + 256 * (e[i] as int - d[i] as int) - Be16(d[j], d[j + 1])
  {
    var h := d[i := e[i]];
    WordSumReplace(d, h, i);
    WordSumReplace(h, e, j);
  }

  /**
   * The high byte of one word of a block changes and the checksum word is adjusted by
   * AddSwapped with k: the block's sum keeps its residue when the byte falls by k.
   */
  lemma AdjustedSum(d: seq<byte>, e: seq<byte>, i: nat, j: nat, k: byte)
    requires |d| == |e| && i % 2 == 0 && j % 2 == 0 && i + 2 <= |d| && j + 2 <= |d| && i != j
    requires Le16(e, j) == AddSwapped(Le16(d, j), k)
    requires forall m :: 0 <= m < |d| && m != i && m != j && m != j + 1 ==> e[m] == d[m]
    ensures WordSum(e) % 65535 == (WordSum(d) + 256 * (e[i] as int - d[i] as int) + 256 * k) % 65535
  {
    TwoWordsReplaced(d, e, i, j);
    AddSwappedWire(d, e, j, k);
    Moved(WordSum(d), WordSum(e), Be16(d[j], d[j + 1]), Be16(e[j], e[j + 1]), 256 * (e[i] as int - d[i] as int), 256 * k);
  }

  lemma Moved(s: nat, t: nat, f: u16, g: u16, x: int, k: nat)
    requires t - g == s + x - f
    requires g % 65535 == (f + k) % 65535
    ensures t % 65535 == (s + x + k) % 65535
  {
    var n := g / 65535 - (f + k) / 65535;
    assert t == s + x + k + n * 65535;
    Residue(t, (s + x + k) / 65535 + n, (s + x + k) % 65535);
  }

  // ---- Echo ----

  /** The word sum of the ICMP message. */
  ghost function IcmpSum(p: seq<byte>): nat
    requires Holds(p)
  {
    WordSum(p[34..LLH + IpLen(p)])
  }

  /** A receiver's test of the ICMP checksum: chksum over the message gives 0xffff. */
  ghost predicate IcmpVerifies(p: seq<byte>)
    requires Holds(p)
  {
    Fold(IcmpSum(p)) == 0xffff
  }

  /** The message of `q` has the reply's type, and is that of `p` but for the checksum. */
  ghost predicate SameRest(p: seq<byte>, q: seq<byte>)
  {
    && |p| >= 54 && |q| == |p| && q[16] == p[16] && q[17] == p[17]
    && p[34] == ICMP_ECHO && q[34] == ICMP_ECHO_REPLY
    && forall i :: 35 <= i < |p| && i != 36 && i != 37 ==> q[i] == p[i]
  }

  /** The message of `q` answers that of `p`. */
  ghost predicate Rewritten(p: seq<byte>, q: seq<byte>)
  {
    SameRest(p, q) && Le16(q, 36) == AddSwapped(Le16(p, 36), 8)
  }

  /** `q` is the echo reply to `p`, turned around at `host`. */
  ghost predicate IsReply(p: seq<byte>, q: seq<byte>, host: Ip)
  {
    && Rewritten(p, q)
    && Has(q, 26, IpBytes(host)) && Has(q, 30, p[26..30])
    && forall i :: 0 <= i < 26 ==> q[i] == p[i]
  }

  /** The packet holds an ICMP message with its checksum field. */
  predicate HoldsMessage(p: seq<byte>) { Holds(p) && IpLen(p) >= 24 }

  /** The rewritten message's sum keeps its residue. */
  lemma SameResidue(p: seq<byte>, q: seq<byte>)
    requires Rewritten(p, q) && HoldsMessage(p)
    ensures Holds(q) && IcmpSum(q) % 65535 == IcmpSum(p) % 65535
  {
    var d, e := p[34..LLH + IpLen(p)], q[34..LLH + IpLen(p)];
    assert Le16(e, 2) == Le16(q, 36) && Le16(d, 2) == Le16(p, 36);
    AdjustedSum(d, e, 0, 2, 8);
  }

  /** The reply verifies unless it is all zero. */
  lemma ReplyVerifies(p: seq<byte>, q: seq<byte>)
    requires Rewritten(p, q) && HoldsMessage(p)
    ensures Holds(q) && IcmpSum(q) % 65535 == IcmpSum(p) % 65535
    ensures IcmpVerifies(p) ==> (IcmpVerifies(q) <==> exists i :: 34 <= i < LLH + IpLen(q) && q[i] != 0)
  {
    SameResidue(p, q);
    var e := q[34..LLH + IpLen(q)];
    AllOnesUnlessZero(IcmpSum(p), WordSum(e));
    WordSumZero(e);
    assert forall i :: 34 <= i < LLH + IpLen(q) ==> q[i] == e[i - 34];
    assert forall i :: 0 <= i < |e| ==> e[i] == q[i + 34];
  }

  lemma AllOnesUnlessZero(m: nat, n: nat)
    requires m % 65535 == n % 65535
    ensures Fold(m) == 0xffff ==> (Fold(n) == 0xffff <==> n != 0)
  {
    FoldResidue(m);
    FoldResidue(n);
  }

  /** The message is zero up to offset `n`. */
  predicate Zero(p: seq<byte>, n: nat)
    requires n <= |p|
  {
    forall i :: 34 <= i < n ==> p[i] == 0
  }

  /** The message is zero up to offset `n` but for its type and checksum. */
  predicate OtherwiseZero(p: seq<byte>, n: nat)
    requires n <= |p|
  {
    forall i :: 35 <= i < n && i != 36 && i != 37 ==> p[i] == 0
  }

  /** The request whose reply is all zero. */
  predicate RepliedByZeros(p: seq<byte>)
    requires HoldsMessage(p)
  {
    p[36] == 0xf7 && p[37] == 0xff && OtherwiseZero(p, LLH + IpLen(p))
  }

  lemma AllZeroReply(p: seq<byte>, q: seq<byte>)
    requires Rewritten(p, q) && HoldsMessage(p)
    ensures Zero(q, LLH + IpLen(p)) <==> RepliedByZeros(p)
  {
    if RepliedByZeros(p) {
      ZerosFollow(p, q, LLH + IpLen(p));
    }
    if Zero(q, LLH + IpLen(p)) {
      ZerosPrecede(p, q, LLH + IpLen(p));
    }
  }

  lemma ZerosFollow(p: seq<byte>, q: seq<byte>, n: nat)
    requires Rewritten(p, q) && 38 <= n <= |p| && p[36] == 0xf7 && p[37] == 0xff && OtherwiseZero(p, n)
    ensures Zero(q, n)
  {
    FieldBecomesZero(q[36], q[37]);
    SameZeros(p, q, n);
  }

  lemma ZerosPrecede(p: seq<byte>, q: seq<byte>, n: nat)
    requires Rewritten(p, q) && 38 <= n <= |p| && Zero(q, n)
    ensures p[36] == 0xf7 && p[37] == 0xff && OtherwiseZero(p, n)
  {
    FieldWas(p[36], p[37]);
    SameZeros(p, q, n);
  }

  lemma SameZeros(p: seq<byte>, q: seq<byte>, n: nat)
    requires SameRest(p, q) && 38 <= n <= |p| && q[36] == 0 && q[37] == 0
    ensures Zero(q, n) <==> OtherwiseZero(p, n)
  {
    if OtherwiseZero(p, n) {
      forall i | 34 <= i < n ensures q[i] == 0 {
        if i != 34 && i != 36 && i != 37 {
          assert q[i] == p[i];
        }
      }
    }
    if Zero(q, n) {
      forall i | 35 <= i < n && i != 36 && i != 37 ensures p[i] == 0 {
        assert q[i] == p[i];
      }
    }
  }

  lemma FieldBecomesZero(lo: byte, hi: byte)
    requires Be16(hi, lo) == AddSwapped(0xfff7, 8)
    ensures lo == 0 && hi == 0
  {
  }

  lemma FieldWas(lo: byte, hi: byte)
    requires AddSwapped(Be16(hi, lo), 8) == 0
    ensures lo == 0xf7 && hi == 0xff
  {
  }

  /** That request verifies itself, and its reply does not. */
  lemma ZeroReplyFails(p: seq<byte>, q: seq<byte>)
    requires Rewritten(p, q) && HoldsMessage(p) && RepliedByZeros(p)
    ensures IcmpVerifies(p) && Holds(q) && !IcmpVerifies(q)
  {
    AllZeroReply(p, q);
    ZeroFails(p, q, LLH + IpLen(p));
  }

  lemma ZeroFails(p: seq<byte>, q: seq<byte>, n: nat)
    requires Rewritten(p, q) && HoldsMessage(p) && n == LLH + IpLen(p) && Zero(q, n)
    ensures IcmpVerifies(p) && Holds(q) && !IcmpVerifies(q)
  {
    SameResidue(p, q);
    SumOfZeros(q, n);
    SumOfRequest(p);
    OnlyZeroFails(IcmpSum(p), IcmpSum(q));
  }

  lemma SumOfZeros(q: seq<byte>, n: nat)
    requires 34 <= n <= |q| && Zero(q, n)
    ensures WordSum(q[34..n]) == 0
  {
    var e := q[34..n];
    forall i | 0 <= i < |e| ensures e[i] == 0 {
      assert e[i] == q[i + 34];
    }
    WordSumZero(e);
  }

  lemma SumOfRequest(p: seq<byte>)
    requires HoldsMessage(p) && p[34] == ICMP_ECHO
    ensures IcmpSum(p) != 0
  {
    var d := p[34..LLH + IpLen(p)];
    assert d[0] != 0;
    WordSumZero(d);
  }

  lemma OnlyZeroFails(m: nat, n: nat)
    requires m % 65535 == n % 65535 && n == 0 && m != 0
    ensures Fold(m) == 0xffff && Fold(n) != 0xffff
  {
    FoldResidue(m);
    FoldResidue(n);
  }

  /**
   * The IP checksum is left alone: a header that verified still does exactly when the address
   * put in and the one taken out have congruent sums, as they have when they are the same.
   */
  lemma ReplyHeader(p: seq<byte>, q: seq<byte>, host: Ip)
    requires IsReply(p, q, host)
    ensures IpSum(q) - WordSum(IpBytes(host)) == IpSum(p) - WordSum(p[30..34])
    ensures IpAt(p, 30) == host ==> IpSum(q) == IpSum(p)
    ensures IpSum(p) % 65535 == 0 ==>
              (IpSum(q) % 65535 == 0 <==> WordSum(IpBytes(host)) % 65535 == WordSum(p[30..34]) % 65535)
  {
    HeaderSum(p);
    HeaderSum(q);
    assert p[LLH..26] == q[LLH..26];
    assert q[26..30] == IpBytes(host) && q[30..34] == p[26..30];
    IpRoundTrip(p, 30, host);
    if IpAt(p, 30) == host {
      assert p[30..34] == IpBytes(host);
    }
    if IpSum(p) % 65535 == 0 {
      Replaced(IpSum(p), IpSum(q), WordSum(p[30..34]), WordSum(IpBytes(host)));
    }
  }

  lemma Replaced(s: nat, t: nat, x: nat, y: nat)
    requires s % 65535 == 0 && t - y == s - x
    ensures t % 65535 == 0 <==> y % 65535 == x % 65535
  {
    var k := s / 65535;
    if t % 65535 == 0 {
      Residue(y, x / 65535 + t / 65535 - k, x % 65535);
    }
    if y % 65535 == x % 65535 {
      Residue(t, k + y / 65535 - x / 65535, 0);
    }
  }

  /** A host without an address answers a request to 192.168.0.1 with a header that does not verify. */
  lemma NoAddressFails(p: seq<byte>, q: seq<byte>)
    requires IsReply(p, q, Ip(0, 0)) && IpSum(p) % 65535 == 0 && Has(p, 30, [192, 168, 0, 1])
    ensures IpSum(q) % 65535 != 0
  {
    ReplyHeader(p, q, Ip(0, 0));
    SumOfAddress(p);
    SumOfTwoWords(IpBytes(Ip(0, 0)));
  }

  lemma SumOfAddress(p: seq<byte>)
    requires Has(p, 30, [192, 168, 0, 1])
    ensures WordSum(p[30..34]) == 49321
  {
    var d := p[30..34];
    assert d[0] == p[30] == 192 && d[1] == p[31] == 168 && d[2] == p[32] == 0 && d[3] == p[33] == 1;
    SumOfTwoWords(d);
  }

  lemma SumOfTwoWords(d: seq<byte>)
    requires |d| == 4
    ensures WordSum(d) == Be16(d[0], d[1]) + Be16(d[2], d[3])
  {
    var e := d[2..];
    assert WordSum(e) == Be16(e[0], e[1]) + WordSum(e[2..]);
    assert WordSum(e[2..]) == 0;
  }

  /** The requester accepts the reply, finds the host as its sender, and its identifier and data unchanged. */
  lemma ReplyIsAccepted(p: seq<byte>, q: seq<byte>, n: u16, host: Ip)
    requires IsReply(p, q, host) && IpAcceptable(p, n, host) && IpAt(p, 30) == host
    ensures IpAcceptable(q, n, IpAt(p, 26)) && IpAt(q, 26) == host && q[23] == p[23]
    ensures forall i :: 38 <= i < |p| ==> q[i] == p[i]
  {
    ReplyHeader(p, q, host);
    IpRoundTrip(q, 26, host);
    assert q[30] == p[26] && q[31] == p[27] && q[32] == p[28] && q[33] == p[29];
  }

  lemma HeaderSum(p: seq<byte>)
    requires |p| >= 54
    ensures IpSum(p) == WordSum(p[LLH..26]) + WordSum(p[26..30]) + WordSum(p[30..34])
  {
    WordSumConcat(p[LLH..26] + p[26..30], p[30..34]);
    WordSumConcat(p[LLH..26], p[26..30]);
    assert p[LLH..34] == p[LLH..26] + p[26..30] + p[30..34];
  }

  /** IP input from the protocol test on: only an echo request is answered. */
  method Echo(b: PacketBuffer) returns (replied: bool)
    requires b.Valid()
    modifies b.buf, b`len
    ensures replied <==> old(b.buf[23] == UIP_PROTO_ICMP && b.buf[34] == ICMP_ECHO)
    ensures replied ==> b.len == old(b.len) && IsReply(old(b.buf[..]), b.buf[..], b.host)
    ensures !replied ==> b.len == 0 && b.buf[..] == old(b.buf[..])
  {
    if b.buf[23] != UIP_PROTO_ICMP {
      b.len := 0;
      return false;
    }
    if b.buf[34] != ICMP_ECHO {
      b.len := 0;
      return false;
    }
    var f := AddSwapped(Le16(b.buf[..], 36), 8);
    var src := b.buf[26..30];
    b.buf[34] := ICMP_ECHO_REPLY;
    b.buf[36], b.buf[37] := f % 256, f / 256;
    LittleEndian(b.buf[36], b.buf[37], f);
    MemCpy(b.buf, 26, IpBytes(b.host) + src);
    return true;
  }
}

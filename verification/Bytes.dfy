/** Fields in byte buffers and IP addresses (uip/uip.h:830-945). */
module Bytes {
  import opened Words

  /** uip_ipaddr_t: the two 16-bit halves of an address, as a little-endian processor loads them. */
  datatype Ip = Ip(w0: u16, w1: u16)

  /** A 16-bit load and the bytes of a 16-bit store on a little-endian processor. */
  function Le16(p: seq<byte>, at: nat): u16
    requires at + 2 <= |p|
  {
    Be16(p[at + 1], p[at])
  }

  function Le16Bytes(x: u16): seq<byte> { [x % 256, x / 256] }

  /** An address as it is laid out in memory. */
  function IpBytes(ip: Ip): seq<byte> { [ip.w0 % 256, ip.w0 / 256, ip.w1 % 256, ip.w1 / 256] }

  function IpAt(p: seq<byte>, at: nat): Ip
    requires at + 4 <= |p|
  {
    Ip(Le16(p, at), Le16(p, at + 2))
  }

  /** C's `&` on unsigned values. */
  function And(x: nat, y: nat): (r: nat)
    ensures r <= x && r <= y
  {
    if x == 0 || y == 0 then 0 else 2 * And(x / 2, y / 2) + (if x % 2 == 1 && y % 2 == 1 then 1 else 0)
  }

  /** Bit `k` of a value. */
  function Bit(x: nat, k: nat): bool { if k == 0 then x % 2 == 1 else Bit(x / 2, k - 1) }

  lemma {:induction false} NoBits(k: nat)
    ensures !Bit(0, k)
  {
    if k > 0 {
      NoBits(k - 1);
    }
  }

  lemma {:induction false} AndBits(x: nat, y: nat, k: nat)
    ensures Bit(And(x, y), k) <==> Bit(x, k) && Bit(y, k)
    decreases k
  {
    NoBits(k);
    if k > 0 && x != 0 && y != 0 {
      AndBits(x / 2, y / 2, k - 1);
      assert And(x, y) / 2 == And(x / 2, y / 2);
    }
  }

  /** Values with the same bits are the same. */
  lemma {:induction false} SameBits(x: nat, y: nat)
    requires forall k :: Bit(x, k) == Bit(y, k)
    ensures x == y
    decreases x + y
  {
    if x + y > 0 {
      assert Bit(x, 0) == Bit(y, 0);
      forall k: nat ensures Bit(x / 2, k) == Bit(y / 2, k) {
        assert Bit(x, k + 1) == Bit(y, k + 1);
      }
      SameBits(x / 2, y / 2);
    }
  }

  /** uip_ipaddr_maskcmp and ipaddr_maskcmp: both addresses are in the same network. */
  predicate MaskCmp(a: Ip, b: Ip, mask: Ip)
  {
    And(a.w0, mask.w0) == And(b.w0, mask.w0) && And(a.w1, mask.w1) == And(b.w1, mask.w1)
  }

  /** The halves agree in every bit that the mask selects. */
  ghost predicate AgreeUnder(a: nat, b: nat, mask: nat)
  {
    forall k :: Bit(mask, k) ==> Bit(a, k) == Bit(b, k)
  }

  lemma MaskedHalf(a: nat, b: nat, mask: nat)
    ensures And(a, mask) == And(b, mask) <==> AgreeUnder(a, b, mask)
  {
    forall k: nat ensures Bit(And(a, mask), k) == (Bit(a, k) && Bit(mask, k)) && Bit(And(b, mask), k) == (Bit(b, k) && Bit(mask, k)) {
      AndBits(a, mask, k);
      AndBits(b, mask, k);
    }
    if AgreeUnder(a, b, mask) {
      SameBits(And(a, mask), And(b, mask));
    }
  }

  /** Two addresses are in one network exactly when they agree in every bit of the mask. */
  lemma MaskCmpIsBitwise(a: Ip, b: Ip, mask: Ip)
    ensures MaskCmp(a, b, mask) <==> AgreeUnder(a.w0, b.w0, mask.w0) && AgreeUnder(a.w1, b.w1, mask.w1)
  {
    MaskedHalf(a.w0, b.w0, mask.w0);
    MaskedHalf(a.w1, b.w1, mask.w1);
  }

  lemma DifferInBit(a: Ip, b: Ip, mask: Ip, k: nat)
    requires Bit(mask.w0, k) && Bit(a.w0, k) != Bit(b.w0, k)
    ensures !MaskCmp(a, b, mask)
  {
    MaskCmpIsBitwise(a, b, mask);
  }

  lemma SecondBit(x: nat)
    ensures Bit(x, 1) <==> x / 2 % 2 == 1
  {
  }

  /** The bytes `s` stand in `p` from offset `at` on. */
  ghost predicate Has(p: seq<byte>, at: nat, s: seq<byte>)
  {
    at + |s| <= |p| && forall i :: at <= i < at + |s| ==> p[i] == s[i - at]
  }

  /** `q` agrees with `p` from `at` on. */
  ghost predicate SameFrom(p: seq<byte>, q: seq<byte>, at: nat)
  {
    |p| == |q| && forall i :: at <= i < |p| ==> q[i] == p[i]
  }

  lemma LittleEndian(lo: byte, hi: byte, x: u16)
    ensures lo == x % 256 && hi == x / 256 <==> Be16(hi, lo) == x
  {
  }

  lemma IpRoundTrip(p: seq<byte>, at: nat, ip: Ip)
    requires at + 4 <= |p|
    ensures Has(p, at, IpBytes(ip)) <==> IpAt(p, at) == ip
  {
    var s := IpBytes(ip);
    assert Has(p, at, s) <==> p[at] == s[0] && p[at + 1] == s[1] && p[at + 2] == s[2] && p[at + 3] == s[3];
    LittleEndian(p[at], p[at + 1], ip.w0);
    LittleEndian(p[at + 2], p[at + 3], ip.w1);
  }

  /** memcpy into a buffer. */
  method MemCpy(dst: array<byte>, at: nat, src: seq<byte>)
    requires at + |src| <= dst.Length
    modifies dst
    ensures forall i :: 0 <= i < dst.Length ==>
              dst[i] == if at <= i < at + |src| then src[i - at] else old(dst[i])
  {
    forall i | 0 <= i < |src| {
      dst[at + i] := src[i];
    }
  }
}

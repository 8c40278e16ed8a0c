/** The Internet checksum (uip/uip.c:277-367; RFC 1071, RFC 1624). */
module Checksum {
  import opened Words

  /** The big-endian 16-bit word sum, a last odd byte padded with zero. */
  ghost function WordSum(d: seq<byte>): nat
  {
    if |d| == 0 then 0
    else if |d| == 1 then Be16(d[0], 0)
    else Be16(d[0], d[1]) + WordSum(d[2..])
  }

  /** End-around carry applied to an unbounded sum until it fits 16 bits. */
  ghost function Fold(n: nat): u16
  {
    if n <= 0xffff then n else Fold(n - 0xffff)
  }

  /** Fold keeps the residue modulo 65535 and is 0 only for 0, which pins its value down. */
  lemma {:induction false} FoldResidue(n: nat)
    ensures Fold(n) % 65535 == n % 65535
    ensures Fold(n) == 0 <==> n == 0
  {
    if n > 0xffff {
      FoldResidue(n - 0xffff);
    }
  }

  lemma {:induction false} FoldAdd(m: nat, n: nat)
    ensures Fold(Fold(m) + n) == Fold(m + n)
  {
    if m > 0xffff {
      FoldAdd(m - 0xffff, n);
    }
  }

  lemma {:induction false} WordSumConcat(a: seq<byte>, b: seq<byte>)
    requires |a| % 2 == 0
    ensures WordSum(a + b) == WordSum(a) + WordSum(b)
  {
    if a == [] {
      assert a + b == b;
    } else {
      assert (a + b)[2..] == a[2..] + b;
      WordSumConcat(a[2..], b);
    }
  }

  lemma {:induction false} WordSumZero(d: seq<byte>)
    ensures WordSum(d) == 0 <==> forall i :: 0 <= i < |d| ==> d[i] == 0
  {
    if |d| >= 2 {
      WordSumZero(d[2..]);
      assert forall i :: 2 <= i < |d| ==> d[i] == d[2..][i - 2];
    }
  }

  /** Overwriting the two bytes of one aligned word moves the word sum by the difference. */
  lemma WordSumReplace(d: seq<byte>, e: seq<byte>, i: nat)
    requires |e| == |d| && i % 2 == 0 && i + 2 <= |d|
    requires forall k :: 0 <= k < |d| && k != i && k != i + 1 ==> e[k] == d[k]
    ensures WordSum(e) - Be16(e[i], e[i + 1]) == WordSum(d) - Be16(d[i], d[i + 1])
  {
    WordSumSplit(d, i);
    WordSumSplit(e, i);
    assert d[..i] == e[..i] && d[i + 2..] == e[i + 2..];
  }

  lemma WordSumSplit(d: seq<byte>, i: nat)
    requires i % 2 == 0 && i + 2 <= |d|
    ensures WordSum(d) == WordSum(d[..i]) + Be16(d[i], d[i + 1]) + WordSum(d[i + 2..])
  {
    WordSumConcat(d[..i], d[i..]);
    assert d == d[..i] + d[i..];
    assert d[i..][2..] == d[i + 2..];
  }

  /** Summing an even-length prefix first and the rest from its result is one pass over both. */
  lemma ChksumChain(sum: u16, a: seq<byte>, b: seq<byte>)
    requires |a| % 2 == 0
    ensures Fold(Fold(sum + WordSum(a)) + WordSum(b)) == Fold(sum + WordSum(a + b))
  {
    FoldAdd(sum + WordSum(a), WordSum(b));
    WordSumConcat(a, b);
  }

  /** A 16-bit addition that tells the lost carry by `sum < t` and puts it back in. */
  function AddWord(sum: u16, t: u16): (r: u16)
    ensures r == Fold(sum + t)
  {
    var s := Plus16(sum, t);
    if s < t then s + 1 else s
  }

  lemma ChksumStep(r: u16, d: seq<byte>, k: nat)
    requires k + 2 <= |d|
    ensures Fold(AddWord(r, Be16(d[k], d[k + 1])) + WordSum(d[k + 2..])) == Fold(r + WordSum(d[k..]))
  {
    assert d[k..][2..] == d[k + 2..];
    FoldAdd(r + Be16(d[k], d[k + 1]), WordSum(d[k + 2..]));
  }

  /** chksum: `data` and `at` stand for the C pointer. */
  method Chksum(sum: u16, data: array<byte>, at: nat, len: nat) returns (r: u16)
    requires at + len <= data.Length
    ensures r == Fold(sum + WordSum(data[at..at + len]))
  {
    ghost var d := data[at..at + len];
    ghost var total := Fold(sum + WordSum(d));
    ghost var k: nat := 0;
    r := sum;
    var p := at;
    var last := at + len - 1;
    while p < last
      invariant p == at + k <= at + len
      invariant Fold(r + WordSum(d[k..])) == total
    {
      assert data[p] == d[k] && data[p + 1] == d[k + 1];
      ChksumStep(r, d, k);
      r := AddWord(r, Be16(data[p], data[p + 1]));
      p := p + 2;
      k := k + 2;
    }
    if p == last {
      assert d[k..] == [data[p]];
      r := AddWord(r, Be16(data[p], 0));
    }
  }

  /** What chksum promises of its accumulator, in the terms of RFC 1071. */
  lemma ChksumMeaning(sum: u16, d: seq<byte>)
    ensures Fold(sum + WordSum(d)) % 65535 == (sum + WordSum(d)) % 65535
    ensures Fold(sum + WordSum(d)) == 0 <==> sum == 0 && forall i :: 0 <= i < |d| ==> d[i] == 0
  {
    FoldResidue(sum + WordSum(d));
    WordSumZero(d);
  }

  /** uip_ipchksum and upper_layer_chksum return an all-zero sum as 0xffff, others byte-swapped. */
  function Presented(sum: u16): u16 { if sum == 0 then 0xffff else Htons(sum) }

  /** The receive test `== 0xffff` asks exactly whether the sum is 0 modulo 65535. */
  lemma PresentedVerifies(total: nat)
    ensures Presented(Fold(total)) == 0xffff <==> total % 65535 == 0
  {
    FoldResidue(total);
    var s := Fold(total);
    assert s % 65535 == 0 <==> s == 0 || s == 0xffff;
    HtonsAllOnes(s / 256, s % 256);
  }

  lemma HtonsAllOnes(hi: byte, lo: byte)
    ensures lo * 256 + hi == 0xffff <==> hi * 256 + lo == 0xffff
  {
  }

  /**
   * Storing the complement of the presented sum, low byte first, into a field that was
   * zero when the sum was taken makes the whole sum verify.
   */
  lemma Seal(total: nat, v: u16)
    requires v == Complement(Presented(Fold(total)))
    ensures (total + Be16(v % 256, v / 256)) % 65535 == 0
  {
    var s := Fold(total);
    FoldResidue(total);
    SealedField(s, v);
    SumOfResidues(total, s, Be16(v % 256, v / 256));
  }

  lemma SealedField(s: u16, v: u16)
    requires v == Complement(Presented(s))
    ensures Be16(v % 256, v / 256) == if s == 0 then 0 else 0xffff - s
  {
    if s != 0 {
      var hi, lo := s / 256, s % 256;
      assert v == (255 - lo) * 256 + (255 - hi);
    }
  }

  lemma SumOfResidues(total: nat, s: u16, f: u16)
    requires total % 65535 == s % 65535 && (s + f) % 65535 == 0
    ensures (total + f) % 65535 == 0
  {
    var k := total / 65535 - s / 65535;
    assert total + f == k * 65535 + (s + f);
    Residue(total + f, k + (s + f) / 65535, 0);
  }

  lemma Residue(n: int, q: int, r: int)
    requires n == q * 65535 + r && 0 <= r < 65535
    ensures n % 65535 == r
  {
  }

  /** A block `d` whose checksum word at `i` is zero, and the block `e` with the word filled in. */
  lemma SealedBlock(d: seq<byte>, e: seq<byte>, i: nat, rest: nat, v: u16)
    requires |e| == |d| && i % 2 == 0 && i + 2 <= |d| && d[i] == d[i + 1] == 0
    requires e[i] == v % 256 && e[i + 1] == v / 256
    requires forall k :: 0 <= k < |d| && k != i && k != i + 1 ==> e[k] == d[k]
    requires v == Complement(Presented(Fold(rest + WordSum(d))))
    ensures (rest + WordSum(e)) % 65535 == 0
  {
    Seal(rest + WordSum(d), v);
    WordSumReplace(d, e, i);
    assert rest + WordSum(e) == rest + WordSum(d) + Be16(v % 256, v / 256);
  }
}

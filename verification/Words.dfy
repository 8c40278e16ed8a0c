/** Machine words, byte order and 32-bit sequence arithmetic (uip/uip.c, uip/uip.h). */
module Words {
  datatype Option<+T> = None | Some(value: T)

  type byte = x: int | 0 <= x < 0x100
  type u16 = x: int | 0 <= x < 0x1_0000
  type u32 = x: int | 0 <= x < 0x1_0000_0000

  /** The big-endian value of a byte pair. */
  function Be16(hi: byte, lo: byte): u16 { hi * 256 + lo }

  /** The byte swap of HTONS on a little-endian processor. */
  function Htons(x: u16): u16 { x % 256 * 256 + x / 256 }

  /** C's `~` on an unsigned 16-bit value. */
  function Complement(x: u16): u16 { 0xffff - x }

  /** Adding to an unsigned 8-bit value wraps. */
  function Plus8(x: byte, n: int): byte
    requires -0x100 <= n <= 0x100
  {
    if x + n < 0 then x + n + 0x100 else if x + n > 0xff then x + n - 0x100 else x + n
  }

  /** Adding to an unsigned 16-bit value wraps. */
  function Plus16(x: u16, n: int): u16
    requires -0x1_0000 <= n <= 0x1_0000
  {
    if x + n < 0 then x + n + 0x1_0000 else if x + n > 0xffff then x + n - 0x1_0000 else x + n
  }

  /** Conversion of an `int` in reach of one wrap to C's signed char. */
  function SignedChar(x: int): (r: int)
    requires -0x180 <= x < 0x180
    ensures -0x80 <= r < 0x80
  {
    if x < -0x80 then x + 0x100 else if x >= 0x80 then x - 0x100 else x
  }

  /** The wrapping operations are arithmetic modulo 2^8 and 2^16. */
  lemma WrapsModulo(x: byte, y: u16, n: int)
    requires -0x100 <= n <= 0x100
    ensures Plus8(x, n) == (x + n) % 0x100
    ensures Plus16(y, n) == (y + n) % 0x1_0000
    ensures SignedChar(n) % 0x100 == n % 0x100
  {
  }

  /** The big-endian value of four bytes. */
  function Quad(b0: byte, b1: byte, b2: byte, b3: byte): u32 {
    b0 * 0x100_0000 + b1 * 0x1_0000 + b2 * 0x100 + b3
  }

  /** The big-endian value of the four bytes of a sequence number. */
  function Be32(s: seq<byte>): u32
    requires |s| == 4
  {
    Quad(s[0], s[1], s[2], s[3])
  }

  /** The four bytes of a number. */
  function Bytes32(x: u32): seq<byte>
  {
    [x / 0x100_0000, x / 0x1_0000 % 0x100, x / 0x100 % 0x100, x % 0x100]
  }

  lemma Bytes32Value(x: u32)
    ensures Be32(Bytes32(x)) == x
  {
    var a := x / 0x100;
    var b := a / 0x100;
    assert x == a * 0x100 + x % 0x100 && a == b * 0x100 + a % 0x100;
    assert b / 0x100 == x / 0x100_0000 && b == x / 0x1_0000;
  }

  /** Adding to a sequence number wraps at 32 bits. */
  function Plus32(x: u32, n: nat): u32 { (x + n) % 0x1_0000_0000 }

  lemma Plus32Twice(x: u32, m: nat, n: nat)
    ensures Plus32(Plus32(x, m), n) == Plus32(x, m + n)
  {
  }

  lemma Plus32Zero(x: u32)
    ensures Plus32(x, 0) == x
  {
  }

  /** Two positions less than 2^32 apart have equal 32-bit images only when they are equal. */
  lemma Plus32Injective(x: u32, m: nat, n: nat)
    requires m <= n < m + 0x1_0000_0000
    requires Plus32(x, m) == Plus32(x, n)
    ensures m == n
  {
    var q := (x + n) / 0x1_0000_0000 - (x + m) / 0x1_0000_0000;
    assert n - m == q * 0x1_0000_0000;
  }

  /** Comparing sequence numbers byte by byte compares their values. */
  lemma Be32Injective(a: seq<byte>, b: seq<byte>)
    requires |a| == |b| == 4
    ensures Be32(a) == Be32(b) <==> a == b
  {
    if Be32(a) == Be32(b) {
      QuadInjective(a[0], a[1], a[2], a[3], b[0], b[1], b[2], b[3]);
    }
  }

  lemma QuadInjective(a0: byte, a1: byte, a2: byte, a3: byte, b0: byte, b1: byte, b2: byte, b3: byte)
    requires Quad(a0, a1, a2, a3) == Quad(b0, b1, b2, b3)
    ensures a0 == b0 && a1 == b1 && a2 == b2 && a3 == b3
  {
    assert a0 == b0;
    assert a1 == b1;
    assert a2 == b2;
  }

  /** Adding the high byte of a 16-bit number, with its carry chain. */
  lemma AddHigh(x0: byte, x1: byte, x2: byte, h: byte, y0: byte, y1: byte, y2: byte)
    requires y2 == Plus8(x2, h)
    requires y1 == if y2 < h then Plus8(x1, 1) else x1
    requires y0 == if y2 < h && y1 == 0 then Plus8(x0, 1) else x0
    ensures Quad(y0, y1, y2, 0) == Plus32(Quad(x0, x1, x2, 0), h * 256)
  {
    var c2 := if y2 < h then 1 else 0;
    var c1 := if c2 == 1 && y1 == 0 then 1 else 0;
    var c0 := if c1 == 1 && y0 == 0 then 1 else 0;
    assert y2 == x2 + h - 256 * c2;
    assert y1 == x1 + c2 - 256 * c1;
    assert y0 == x0 + c1 - 256 * c0;
    Wraps(Quad(x0, x1, x2, 0) + h * 256, Quad(y0, y1, y2, 0), c0);
  }

  /** Adding the low byte of a 16-bit number, with its carry chain. */
  lemma AddLow(y0: byte, y1: byte, y2: byte, x3: byte, l: byte, z0: byte, z1: byte, z2: byte, z3: byte)
    requires z3 == Plus8(x3, l)
    requires z2 == if z3 < l then Plus8(y2, 1) else y2
    requires z1 == if z3 < l && z2 == 0 then Plus8(y1, 1) else y1
    requires z0 == if z3 < l && z2 == 0 && z1 == 0 then Plus8(y0, 1) else y0
    ensures Quad(z0, z1, z2, z3) == Plus32(Quad(y0, y1, y2, 0), x3 + l)
  {
    var c3 := if z3 < l then 1 else 0;
    var c2 := if c3 == 1 && z2 == 0 then 1 else 0;
    var c1 := if c2 == 1 && z1 == 0 then 1 else 0;
    var c0 := if c1 == 1 && z0 == 0 then 1 else 0;
    assert z3 == x3 + l - 256 * c3;
    assert z2 == y2 + c3 - 256 * c2;
    assert z1 == y1 + c2 - 256 * c1;
    assert z0 == y0 + c1 - 256 * c0;
    Wraps(Quad(y0, y1, y2, 0) + x3 + l, Quad(z0, z1, z2, z3), c0);
  }

  /** Incrementing four bytes with their carry chain. */
  lemma AddOne(x0: byte, x1: byte, x2: byte, x3: byte, z0: byte, z1: byte, z2: byte, z3: byte)
    requires z3 == Plus8(x3, 1)
    requires z2 == if z3 == 0 then Plus8(x2, 1) else x2
    requires z1 == if z3 == 0 && z2 == 0 then Plus8(x1, 1) else x1
    requires z0 == if z3 == 0 && z2 == 0 && z1 == 0 then Plus8(x0, 1) else x0
    ensures Quad(z0, z1, z2, z3) == Plus32(Quad(x0, x1, x2, x3), 1)
  {
    AddLow(x0, x1, x2, x3, 1, z0, z1, z2, z3);
    Plus32Twice(Quad(x0, x1, x2, 0), x3, 1);
  }

  lemma Wraps(n: nat, v: u32, k: nat)
    requires v == n - k * 0x1_0000_0000
    ensures v == n % 0x1_0000_0000
  {
  }

  lemma SplitSum(x: u32, x3: byte, w: u32, n: u16, y: u32, z: u32)
    requires w == x + x3
    requires y == Plus32(x, n / 256 * 256) && z == Plus32(y, x3 + n % 256)
    ensures z == Plus32(w, n)
  {
    Plus32Twice(x, n / 256 * 256, x3 + n % 256);
    Plus32Twice(x, x3, n);
  }

  /**
   * uip_add32: four byte additions with the carries propagated by tests for
   * unsigned wrap-around.  `op` and `at` stand for the C pointer.
   */
  method Add32(op: array<byte>, at: nat, op16: u16, acc32: array<byte>)
    requires at + 4 <= op.Length && acc32.Length == 4 && op != acc32
    modifies acc32
    ensures Be32(acc32[..]) == Plus32(Be32(op[at..at + 4]), op16)
  {
    ghost var x0, x1, x2, x3 := op[at], op[at + 1], op[at + 2], op[at + 3];
    ghost var w := Be32(op[at..at + 4]);
    assert w == Quad(x0, x1, x2, 0) + x3;
    var lo: byte, hi: byte := op16 % 256, op16 / 256;
    acc32[3] := Plus8(op[at + 3], lo);
    acc32[2] := Plus8(op[at + 2], hi);
    acc32[1] := op[at + 1];
    acc32[0] := op[at];
    if acc32[2] < hi {
      acc32[1] := Plus8(acc32[1], 1);
      if acc32[1] == 0 {
        acc32[0] := Plus8(acc32[0], 1);
      }
    }
    ghost var y0, y1, y2 := acc32[0], acc32[1], acc32[2];
    assert y1 == if y2 < hi then Plus8(x1, 1) else x1;
    assert y0 == if y2 < hi && y1 == 0 then Plus8(x0, 1) else x0;
    if acc32[3] < lo {
      acc32[2] := Plus8(acc32[2], 1);
      if acc32[2] == 0 {
        acc32[1] := Plus8(acc32[1], 1);
        if acc32[1] == 0 {
          acc32[0] := Plus8(acc32[0], 1);
        }
      }
    }
    AddHigh(x0, x1, x2, hi, y0, y1, y2);
    AddLow(y0, y1, y2, x3, lo, acc32[0], acc32[1], acc32[2], acc32[3]);
    SplitSum(Quad(x0, x1, x2, 0), x3, w, op16, Quad(y0, y1, y2, 0), Be32(acc32[..]));
  }

  /** Incrementing a sequence number in place, byte by byte from the last for as long as one wraps to 0. */
  method Increment(buf: array<byte>, at: nat)
    requires at + 4 <= buf.Length
    modifies buf
    ensures Quad(buf[at], buf[at + 1], buf[at + 2], buf[at + 3]) ==
            Plus32(old(Quad(buf[at], buf[at + 1], buf[at + 2], buf[at + 3])), 1)
    ensures forall i :: 0 <= i < buf.Length && !(at <= i < at + 4) ==> buf[i] == old(buf[i])
  {
    ghost var x0, x1, x2, x3 := buf[at], buf[at + 1], buf[at + 2], buf[at + 3];
    buf[at + 3] := Plus8(buf[at + 3], 1);
    if buf[at + 3] == 0 {
      buf[at + 2] := Plus8(buf[at + 2], 1);
      if buf[at + 2] == 0 {
        buf[at + 1] := Plus8(buf[at + 1], 1);
        if buf[at + 1] == 0 {
          buf[at] := Plus8(buf[at], 1);
        }
      }
    }
    AddOne(x0, x1, x2, x3, buf[at], buf[at + 1], buf[at + 2], buf[at + 3]);
  }

  lemma SubsetSize<T>(a: set<T>, b: set<T>)
    requires a <= b
    ensures |a| <= |b|
  {
    assert b == a + (b - a);
  }
}

/** Fixed-width integers and the byte-packing macros of src/settings.h.

    The firmware works on uint8_t/uint16_t/uint32_t values. They are modelled
    as subset types of `int`, and every bit operation is written out:
      x & (2^k - 1)  is  x % 2^k
      x >> k         is  x / 2^k
      x << k         is  x * 2^k   (followed by an explicit truncation where C truncates)
      x | y          is  BitOr(x, y), defined bit by bit below.
 */
module Bytes {

  type Byte = x: int | 0 <= x < 0x100
  type U16 = x: int | 0 <= x < 0x1_0000
  type U32 = x: int | 0 <= x < 0x1_0000_0000

  function Pow2(k: nat): (r: nat)
    ensures r >= 1
  {
    if k == 0 then 1 else 2 * Pow2(k - 1)
  }

  /** C's bitwise OR on non-negative operands: bit i of the result is set
      when bit i of either operand is. */
  function BitOr(a: nat, b: nat): (r: nat)
    decreases a + b
  {
    if a == 0 && b == 0 then 0
    else 2 * BitOr(a / 2, b / 2) + (if a % 2 == 1 || b % 2 == 1 then 1 else 0)
  }

  /** An OR is at least each operand and at most their sum. */
  lemma {:induction false} BitOrRange(a: nat, b: nat)
    ensures a <= BitOr(a, b) && b <= BitOr(a, b) <= a + b
    decreases a + b
  {
    if !(a == 0 && b == 0) {
      BitOrRange(a / 2, b / 2);
    }
  }

  lemma BitOrStep(a: nat, b: nat)
    ensures BitOr(a, b) == 2 * BitOr(a / 2, b / 2) + (if a % 2 == 1 || b % 2 == 1 then 1 else 0)
  {
  }

  lemma Double(a: nat, p: nat)
    ensures a * (2 * p) == 2 * (a * p)
  {
  }

  /** 0 is the identity of OR, on either side. */
  lemma {:induction false} BitOrZero(a: nat)
    ensures BitOr(0, a) == a && BitOr(a, 0) == a
    decreases a
  {
    if a != 0 {
      BitOrZero(a / 2);
    }
  }

  lemma {:induction false} BitOrComm(a: nat, b: nat)
    ensures BitOr(a, b) == BitOr(b, a)
    decreases a + b
  {
    if a != 0 || b != 0 {
      BitOrComm(a / 2, b / 2);
    }
  }

  /** OR of two k-bit values is a k-bit value. */
  lemma {:induction false} BitOrBound(a: nat, b: nat, k: nat)
    requires a < Pow2(k) && b < Pow2(k)
    ensures BitOr(a, b) < Pow2(k)
  {
    if k > 0 && (a != 0 || b != 0) {
      BitOrBound(a / 2, b / 2, k - 1);
    }
  }

  /** When the operands occupy disjoint bit ranges, OR is addition. */
  lemma {:induction false} BitOrDisjoint(a: nat, b: nat, k: nat)
    requires b < Pow2(k)
    ensures BitOr(a * Pow2(k), b) == a * Pow2(k) + b
  {
    if k == 0 {
      BitOrZero(a);
    } else if a * Pow2(k) == 0 && b == 0 {
    } else {
      var p := Pow2(k - 1);
      Double(a, p);
      assert (a * Pow2(k)) / 2 == a * p;
      BitOrDisjoint(a, b / 2, k - 1);
    }
  }

  /** OR with a value below 2^k adds it to a multiple of 2^k. */
  lemma BitOrAddLow(x: nat, b: nat, k: nat, m: nat)
    requires m == Pow2(k) && x % m == 0 && b < m
    ensures BitOr(x, b) == x + b
  {
    var q := x / m;
    assert x == q * m;
    BitOrDisjoint(q, b, k);
  }

  lemma MulMono(m: int, d: int)
    requires m > 0 && d >= 1
    ensures m * d >= m
  {
  }

  /** Quotient and remainder are determined by x == m * q + r, 0 <= r < m. */
  lemma DivModUnique(x: int, m: int, q: int, r: int)
    requires m > 0 && 0 <= r < m && x == m * q + r
    ensures x / m == q && x % m == r
  {
    var q', r' := x / m, x % m;
    assert m * q + r == m * q' + r';
    assert m * (q - q') == r' - r;
    if q > q' {
      MulMono(m, q - q');
    } else if q < q' {
      MulMono(m, q' - q);
    }
  }

  lemma ModHalf(a: nat, p: nat)
    requires p >= 1
    ensures (a % (2 * p)) / 2 == (a / 2) % p
    ensures (a % (2 * p)) % 2 == a % 2
  {
    var q := a / (2 * p);
    var r := a % (2 * p);
    assert a == (2 * p) * q + r;
    DivModUnique(a, 2, p * q + r / 2, r % 2);
    DivModUnique(a / 2, p, q, r / 2);
  }

  lemma ModTwice(x: nat, c: nat, p: nat)
    requires p >= 1 && c < 2
    ensures (2 * x + c) % (2 * p) == 2 * (x % p) + c
  {
    var q := x / p;
    var r := x % p;
    assert x == p * q + r;
    DivModUnique(2 * x + c, 2 * p, q, 2 * r + c);
  }

  /** Masking with 2^k - 1 distributes over OR:
      (a | b) & (2^k - 1) == (a & (2^k - 1)) | (b & (2^k - 1)). */
  lemma {:induction false} BitOrLow(a: nat, b: nat, k: nat)
    ensures BitOr(a, b) % Pow2(k) == BitOr(a % Pow2(k), b % Pow2(k))
  {
    if k > 0 {
      var p := Pow2(k - 1);
      BitOrLow(a / 2, b / 2, k - 1);
      ModHalf(a, p);
      ModHalf(b, p);
      BitOrStep(a, b);
      BitOrStep(a % (2 * p), b % (2 * p));
      var c := if a % 2 == 1 || b % 2 == 1 then 1 else 0;
      ModTwice(BitOr(a / 2, b / 2), c, p);
    }
  }

  lemma Pow2Values()
    ensures Pow2(4) == 16 && Pow2(7) == 128 && Pow2(8) == 256 && Pow2(16) == 0x1_0000 && Pow2(24) == 0x100_0000
  {
    assert Pow2(4) == 16;
    assert Pow2(7) == 128;
    assert Pow2(8) == 256;
    assert Pow2(16) == Pow2(8) * Pow2(8) by { Pow2Add(8, 8); }
    assert Pow2(24) == Pow2(16) * Pow2(8) by { Pow2Add(16, 8); }
  }

  lemma {:induction false} Pow2Add(j: nat, k: nat)
    ensures Pow2(j + k) == Pow2(j) * Pow2(k)
  {
    if k > 0 {
      Pow2Add(j, k - 1);
      Double(Pow2(j), Pow2(k - 1));
    }
  }

  /** char2int(MSB, LSB) (settings.h:36): the two operands are truncated to
      8 bits, the first is shifted into the high byte and OR-ed with the
      second. The result is the big-endian 16-bit value of the two bytes. */
  function Char2Int(hi: int, lo: int): (r: U16)
    ensures r == (hi % 256) * 256 + lo % 256
  {
    var x1, x0 := hi % 256, lo % 256;
    Pow2Values();
    DivModUnique(x1 * 256, 256, x1, 0);
    BitOrAddLow(x1 * 256, x0, 8, 256);
    BitOr(x1 * 256, x0)
  }

  /** char2long(MSB, LSB, MSB1, LSB1) (settings.h:37): four bytes, most
      significant first, packed into a 32-bit value. */
  function Char2Long(b3: int, b2: int, b1: int, b0: int): (r: U32)
    ensures r == (b3 % 256) * 0x100_0000 + (b2 % 256) * 0x1_0000 + (b1 % 256) * 0x100 + b0 % 256
  {
    var x3, x2, x1, x0 := b3 % 256, b2 % 256, b1 % 256, b0 % 256;
    Char2LongSum(x3, x2, x1, x0);
    BitOr(BitOr(BitOr(x3 * 0x100_0000, x2 * 0x1_0000), x1 * 0x100), x0)
  }

  /** The three ORs of char2long add bytes that occupy disjoint bit ranges. */
  lemma Char2LongSum(x3: Byte, x2: Byte, x1: Byte, x0: Byte)
    ensures BitOr(BitOr(BitOr(x3 * 0x100_0000, x2 * 0x1_0000), x1 * 0x100), x0)
         == x3 * 0x100_0000 + x2 * 0x1_0000 + x1 * 0x100 + x0
  {
    Pow2Values();
    var v1 := x3 * 0x100_0000 + x2 * 0x1_0000;
    var v2 := v1 + x1 * 0x100;
    DivModUnique(x3 * 0x100_0000, 0x100_0000, x3, 0);
    BitOrAddLow(x3 * 0x100_0000, x2 * 0x1_0000, 24, 0x100_0000);
    DivModUnique(v1, 0x1_0000, x3 * 0x100 + x2, 0);
    BitOrAddLow(v1, x1 * 0x100, 16, 0x1_0000);
    DivModUnique(v2, 0x100, x3 * 0x1_0000 + x2 * 0x100 + x1, 0);
    BitOrAddLow(v2, x0, 8, 0x100);
  }

  /** MSB(BYTE) (settings.h:39): bits 4..7 of the operand truncated to 8 bits. */
  function Msb(x: int): (r: Byte)
    ensures r < 16 && 16 * r <= x % 256 < 16 * (r + 1)
  {
    ((x % 256) / 16) % 16
  }

  /** LSB(BYTE) (settings.h:40): bits 0..3 of the operand truncated to 8 bits. */
  function Lsb(x: int): (r: Byte)
    ensures r < 16 && (x % 256 - r) % 16 == 0
  {
    (x % 256) % 16
  }

  /** The two macros are the high and low nibble of the operand's low byte:
      both are below 16, together they rebuild x & 0xFF, and everything above
      bit 7 of the operand is lost. */
  lemma MsbLsbNibbles(x: int)
    ensures Msb(x) < 16 && Lsb(x) < 16
    ensures 16 * Msb(x) + Lsb(x) == x % 256
    ensures Msb(x) == Msb(x + 256) && Lsb(x) == Lsb(x + 256)
  {
  }

  /** The high byte of a 16-bit value, (x >> 8) & 0xFF. */
  function HighByte(x: U16): (r: Byte)
    ensures r * 256 <= x < (r + 1) * 256
  {
    x / 256
  }

  /** The low byte of a 16-bit value, x & 0xFF. */
  function LowByte(x: U16): (r: Byte)
    ensures (x - r) % 256 == 0
  {
    x % 256
  }

  /** Splitting a 16-bit value into its high and low byte and joining them
      with char2int gives the value back. */
  lemma SplitJoin(x: U16)
    ensures Char2Int(HighByte(x), LowByte(x)) == x
  {
    var h: int, l: int := HighByte(x), LowByte(x);
    DivModUnique(h, 256, 0, h);
    DivModUnique(l, 256, 0, l);
    assert x == 256 * h + l;
  }

  /** Joining two bytes with char2int and splitting the result gives the two
      bytes back. */
  lemma JoinSplit(hi: Byte, lo: Byte)
    ensures HighByte(Char2Int(hi, lo)) == hi && LowByte(Char2Int(hi, lo)) == lo
  {
    DivModUnique(hi, 256, 0, hi);
    DivModUnique(lo, 256, 0, lo);
    DivModUnique(Char2Int(hi, lo), 256, hi, lo);
  }

  /** Splitting a 32-bit value into its four bytes, most significant first,
      and joining them with char2long gives the value back. */
  lemma SplitJoinLong(v: U32)
    ensures Char2Long(v / 0x100_0000, (v / 0x1_0000) % 0x100, (v / 0x100) % 0x100, v % 0x100) == v
  {
    var b0: int, r1: int := v % 256, v / 256;
    var b1: int, r2: int := r1 % 256, r1 / 256;
    var b2: int, b3: int := r2 % 256, r2 / 256;
    DivModUnique(v, 256, r1, b0);
    DivModUnique(r1, 256, r2, b1);
    DivModUnique(r2, 256, b3, b2);
    assert v / 0x100 == r1;
    DivModUnique(v, 0x1_0000, r2, 256 * b1 + b0);
    DivModUnique(v, 0x100_0000, b3, 0x1_0000 * b2 + 256 * b1 + b0);
    DivModUnique(b0, 256, 0, b0);
    DivModUnique(b1, 256, 0, b1);
    DivModUnique(b2, 256, 0, b2);
    DivModUnique(b3, 256, 0, b3);
    assert Char2Long(b3, b2, b1, b0) == v;
  }
}

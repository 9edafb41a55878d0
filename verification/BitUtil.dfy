/** Machine words as natural numbers: single bits, the bitwise operators the bit
    streams use, and the width computation of NetBitUtil.h. */
module BitUtil {

  type Byte = x: nat | x < 256

  function Pow2(n: nat): (p: nat)
    ensures p >= 1
  {
    if n == 0 then 1 else 2 * Pow2(n - 1)
  }

  /** Bit `i` of `v`, counted from the least significant one. */
  predicate BitAt(v: nat, i: nat)
    decreases i
  {
    if i == 0 then v % 2 == 1 else BitAt(v / 2, i - 1)
  }

  /** `v >> k` */
  function Shr(v: nat, k: nat): (r: nat)
    ensures r <= v
    decreases k
  {
    if k == 0 then v else Shr(v / 2, k - 1)
  }

  /** `v << k`, before any truncation to a machine width. */
  function Shl(v: nat, k: nat): nat
  {
    if k == 0 then v else 2 * Shl(v, k - 1)
  }

  /** The conversion of `v` to an unsigned type of `n` bits. */
  function Trunc(v: nat, n: nat): nat
    decreases n
  {
    if n == 0 then 0 else v % 2 + 2 * Trunc(v / 2, n - 1)
  }

  /** `(1 << n) - 1` */
  function Mask(n: nat): nat
  {
    Pow2(n) - 1
  }

  /** `a & b` */
  function And(a: nat, b: nat): nat
    decreases a
  {
    if a == 0 || b == 0 then 0
    else (if a % 2 == 1 && b % 2 == 1 then 1 else 0) + 2 * And(a / 2, b / 2)
  }

  /** `a | b` */
  function Or(a: nat, b: nat): nat
    decreases a + b
  {
    if a == 0 && b == 0 then 0
    else (if a % 2 == 1 || b % 2 == 1 then 1 else 0) + 2 * Or(a / 2, b / 2)
  }

  /** The conversion to `uint8_t`. */
  function LowByte(v: nat): Byte
  {
    v % 256
  }

  /** `~b` for a `uint8_t`. */
  function NotByte(b: Byte): Byte
  {
    255 - b
  }

  // ----- every operator, bit by bit -----

  lemma {:induction false} BitAtZero(i: nat)
    ensures !BitAt(0, i)
    decreases i
  {
    if i > 0 { BitAtZero(i - 1); }
  }

  lemma {:induction false} BitAtShr(v: nat, k: nat, i: nat)
    ensures BitAt(Shr(v, k), i) == BitAt(v, i + k)
    decreases k
  {
    if k > 0 { BitAtShr(v / 2, k - 1, i); }
  }

  lemma {:induction false} BitAtShl(v: nat, k: nat, i: nat)
    ensures BitAt(Shl(v, k), i) == (i >= k && BitAt(v, i - k))
    decreases k
  {
    if k > 0 && i > 0 {
      BitAtShl(v, k - 1, i - 1);
    }
  }

  lemma {:induction false} BitAtTrunc(v: nat, n: nat, i: nat)
    ensures BitAt(Trunc(v, n), i) == (i < n && BitAt(v, i))
    decreases n
  {
    if n == 0 {
      BitAtZero(i);
    } else if i > 0 {
      BitAtTrunc(v / 2, n - 1, i - 1);
    }
  }

  lemma {:induction false} BitAtMask(n: nat, i: nat)
    ensures BitAt(Mask(n), i) == (i < n)
    decreases n
  {
    if n == 0 {
      BitAtZero(i);
    } else {
      assert Mask(n) == 2 * Mask(n - 1) + 1;
      if i > 0 { BitAtMask(n - 1, i - 1); }
    }
  }

  lemma {:induction false} BitAtAnd(a: nat, b: nat, i: nat)
    ensures BitAt(And(a, b), i) == (BitAt(a, i) && BitAt(b, i))
    decreases i
  {
    if a == 0 || b == 0 {
      BitAtZero(i);
    } else if i > 0 {
      BitAtAnd(a / 2, b / 2, i - 1);
    }
  }

  lemma {:induction false} BitAtOr(a: nat, b: nat, i: nat)
    ensures BitAt(Or(a, b), i) == (BitAt(a, i) || BitAt(b, i))
    decreases i
  {
    if a == 0 && b == 0 {
      BitAtZero(i);
    } else if i > 0 {
      BitAtOr(a / 2, b / 2, i - 1);
    }
  }

  lemma {:induction false} BitAtLowByte(v: nat, i: nat)
    ensures BitAt(LowByte(v), i) == (i < 8 && BitAt(v, i))
  {
    TruncIsRemainder(v, 8);
    ByteBound();
    BitAtTrunc(v, 8, i);
  }

  lemma {:induction false} BitAtFlip(v: nat, n: nat, i: nat)
    requires v < Pow2(n) && i < n
    ensures BitAt(Pow2(n) - 1 - v, i) == !BitAt(v, i)
    decreases n
  {
    assert Pow2(n) - 1 - v == 2 * (Pow2(n - 1) - 1 - v / 2) + (1 - v % 2);
    if i > 0 { BitAtFlip(v / 2, n - 1, i - 1); }
  }

  lemma BitAtNotByte(b: Byte, i: nat)
    requires i < 8
    ensures BitAt(NotByte(b), i) == !BitAt(b, i)
  {
    ByteBound();
    BitAtFlip(b, 8, i);
  }

  // ----- sizes -----

  lemma {:induction false} TruncBound(v: nat, n: nat)
    ensures Trunc(v, n) < Pow2(n)
    ensures v < Pow2(n) ==> Trunc(v, n) == v
    decreases n
  {
    if n > 0 { TruncBound(v / 2, n - 1); }
  }

  lemma {:induction false} AndBound(a: nat, b: nat)
    ensures And(a, b) <= a && And(a, b) <= b
    decreases a
  {
    if a != 0 && b != 0 { AndBound(a / 2, b / 2); }
  }

  lemma {:induction false} OrBound(a: nat, b: nat, n: nat)
    requires a < Pow2(n) && b < Pow2(n)
    ensures Or(a, b) < Pow2(n)
    decreases n
  {
    if n > 0 && (a != 0 || b != 0) {
      OrBound(a / 2, b / 2, n - 1);
    }
  }

  lemma {:induction false} ShlBound(v: nat, k: nat, n: nat)
    requires v < Pow2(n)
    ensures Shl(v, k) < Pow2(n + k)
    decreases k
  {
    if k > 0 { ShlBound(v, k - 1, n); }
  }

  lemma {:induction false} Pow2Monotone(m: nat, n: nat)
    requires m <= n
    ensures Pow2(m) <= Pow2(n)
    decreases n
  {
    if m < n { Pow2Monotone(m, n - 1); }
  }

  lemma {:induction false} Pow2Sum(m: nat, n: nat)
    ensures Pow2(m + n) == Pow2(m) * Pow2(n)
    decreases m
  {
    if m > 0 {
      Pow2Sum(m - 1, n);
      TimesTwice(Pow2(n), Pow2(m - 1));
    }
  }

  lemma ByteBound()
    ensures Pow2(8) == 256
  {
    assert Pow2(4) == 16;
  }

  /** Words of `n` bits are determined by their bits. */
  lemma {:induction false} BitsDetermine(a: nat, b: nat, n: nat)
    requires a < Pow2(n) && b < Pow2(n)
    requires forall i: nat :: i < n ==> BitAt(a, i) == BitAt(b, i)
    ensures a == b
    decreases n
  {
    if n > 0 {
      assert BitAt(a, 0) == BitAt(b, 0);
      forall i: nat | i < n - 1 ensures BitAt(a / 2, i) == BitAt(b / 2, i) {
        assert BitAt(a, i + 1) == BitAt(b, i + 1);
      }
      BitsDetermine(a / 2, b / 2, n - 1);
    }
  }

  // ----- shifts and masks as arithmetic -----

  lemma {:induction false} ShlIsTimes(v: nat, k: nat)
    ensures Shl(v, k) == v * Pow2(k)
    decreases k
  {
    if k > 0 {
      ShlIsTimes(v, k - 1);
      assert v * Pow2(k) == 2 * (v * Pow2(k - 1));
    }
  }

  lemma TimesTwice(a: int, b: int)
    ensures a * (2 * b) == 2 * (a * b)
  {
  }

  /** `v == (v >> k << k) + (v & mask)` */
  lemma {:induction false} ShrTrunc(v: nat, k: nat)
    ensures v == Shr(v, k) * Pow2(k) + Trunc(v, k)
    ensures Trunc(v, k) < Pow2(k)
    decreases k
  {
    if k > 0 {
      ShrTrunc(v / 2, k - 1);
      TimesTwice(Shr(v / 2, k - 1), Pow2(k - 1));
    }
  }

  lemma TruncIsRemainder(v: nat, n: nat)
    ensures Trunc(v, n) == v % Pow2(n)
  {
    ShrTrunc(v, n);
    QuotientUnique(v, Shr(v, n), Trunc(v, n), Pow2(n));
  }

  lemma QuotientUnique(v: int, q: int, r: int, d: int)
    requires v == q * d + r && 0 <= r < d
    ensures v / d == q && v % d == r
  {
    var e := q - v / d;
    assert e * d == v % d - r by {
      assert v == (v / d) * d + v % d;
      assert e * d == q * d - (v / d) * d;
    }
    if e >= 1 {
      TimesMonotone(1, e, d);
    } else if e <= -1 {
      TimesMonotone(e, -1, d);
    }
  }

  lemma TruncAll(n: nat)
    ensures Trunc(Pow2(n), n) == 0
  {
    TruncIsRemainder(Pow2(n), n);
    QuotientUnique(Pow2(n), 1, 0, Pow2(n));
  }

  lemma TimesMonotone(a: int, b: int, c: int)
    requires a <= b && 0 <= c
    ensures a * c <= b * c
  {
    assert (b - a) * c >= 0;
  }

  // ----- NetBitUtil.h -----

  /** The least width, at least one, whose unsigned range holds `v`. */
  function RequiredBits(v: nat): (k: nat)
    ensures k >= 1
  {
    if v < 2 then 1 else 1 + RequiredBits(v / 2)
  }

  lemma {:induction false} RequiredBitsFit(v: nat)
    ensures v < Pow2(RequiredBits(v))
    decreases v
  {
    if v >= 2 { RequiredBitsFit(v / 2); }
  }

  lemma {:induction false} RequiredBitsLeast(v: nat, k: nat)
    requires k >= 1 && v < Pow2(k)
    ensures RequiredBits(v) <= k
    decreases k
  {
    if v >= 2 {
      assert Pow2(1) == 2;
      RequiredBitsLeast(v / 2, k - 1);
    }
  }

  // The binary search for the leading zeros.  Zero has one leading zero less
  // than its width: the last step never counts the lowest bit.

  /** `c` leading zeros in a `w`-bit word, counted up to `most`. */
  ghost predicate LeadingZeros(x: nat, c: nat, most: nat, w: nat)
  {
    c <= most < w && x < Pow2(w - c) && (c < most ==> x >= Pow2(w - c - 1))
  }

  lemma {:induction false} LeadingZerosShift(x: nat, n: nat, c: nat, most: nat, w: nat)
    requires most + n < w
    requires LeadingZeros(Shl(x, n), c, most, w)
    ensures LeadingZeros(x, n + c, n + most, w)
    decreases n
  {
    if n > 0 {
      assert Shl(x, n) == 2 * Shl(x, n - 1);
      assert Pow2(w - c) == 2 * Pow2(w - c - 1);
      assert LeadingZeros(Shl(x, n - 1), c + 1, most + 1, w) by {
        if c < most { assert Pow2(w - c - 1) == 2 * Pow2(w - c - 2); }
      }
      LeadingZerosShift(x, n - 1, c + 1, most + 1, w);
    }
  }

  lemma HalfWordConstants()
    ensures Pow2(8) == 0x100
    ensures Pow2(16) == 0x1_0000
    ensures Pow2(24) == 0x100_0000
    ensures Pow2(28) == 0x1000_0000
    ensures Pow2(30) == 0x4000_0000
    ensures Pow2(31) == 0x8000_0000
    ensures Pow2(32) == 0x1_0000_0000
  {
    ByteBound();
    Pow2Sum(8, 8);
    Pow2Sum(16, 8);
    Pow2Sum(16, 16);
    assert Pow2(30) * 4 == Pow2(32);
    assert Pow2(28) * 4 == Pow2(30);
  }

  lemma WordConstants()
    ensures Pow2(32) == 0x1_0000_0000
    ensures Pow2(48) == 0x1_0000_0000_0000
    ensures Pow2(56) == 0x100_0000_0000_0000
    ensures Pow2(60) == 0x1000_0000_0000_0000
    ensures Pow2(62) == 0x4000_0000_0000_0000
    ensures Pow2(63) == 0x8000_0000_0000_0000
    ensures Pow2(64) == 0x1_0000_0000_0000_0000
  {
    HalfWordConstants();
    Pow2Sum(32, 16);
    Pow2Sum(48, 8);
    Pow2Sum(32, 32);
    Pow2Sum(56, 4);
    assert Pow2(4) == 16;
    assert Pow2(60) * 4 == Pow2(62);
  }

  function Clz1_64(x: nat): (c: nat)
    requires x < Pow2(64)
    ensures LeadingZeros(x, c, 1, 64)
  {
    WordConstants();
    if x <= 0x7fffffffffffffff then 1 else 0
  }

  function Clz2_64(x: nat): (c: nat)
    requires x < Pow2(64)
    ensures LeadingZeros(x, c, 3, 64)
  {
    WordConstants();
    if x <= 0x3fffffffffffffff then
      ShlBound(x, 2, 62);
      LeadingZerosShift(x, 2, Clz1_64(Shl(x, 2)), 1, 64);
      2 + Clz1_64(Shl(x, 2))
    else
      Clz1_64(x)
  }

  function Clz4_64(x: nat): (c: nat)
    requires x < Pow2(64)
    ensures LeadingZeros(x, c, 7, 64)
  {
    WordConstants();
    if x <= 0xfffffffffffffff then
      ShlBound(x, 4, 60);
      LeadingZerosShift(x, 4, Clz2_64(Shl(x, 4)), 3, 64);
      4 + Clz2_64(Shl(x, 4))
    else
      Clz2_64(x)
  }

  function Clz8_64(x: nat): (c: nat)
    requires x < Pow2(64)
    ensures LeadingZeros(x, c, 15, 64)
  {
    WordConstants();
    if x <= 0xffffffffffffff then
      ShlBound(x, 8, 56);
      LeadingZerosShift(x, 8, Clz4_64(Shl(x, 8)), 7, 64);
      8 + Clz4_64(Shl(x, 8))
    else
      Clz4_64(x)
  }

  function Clz16_64(x: nat): (c: nat)
    requires x < Pow2(64)
    ensures LeadingZeros(x, c, 31, 64)
  {
    WordConstants();
    if x <= 0xffffffffffff then
      ShlBound(x, 16, 48);
      LeadingZerosShift(x, 16, Clz8_64(Shl(x, 16)), 15, 64);
      16 + Clz8_64(Shl(x, 16))
    else
      Clz8_64(x)
  }

  function Clz32_64(x: nat): (c: nat)
    requires x < Pow2(64)
    ensures LeadingZeros(x, c, 63, 64)
  {
    WordConstants();
    if x <= 0xffffffff then
      ShlBound(x, 32, 32);
      LeadingZerosShift(x, 32, Clz16_64(Shl(x, 32)), 31, 64);
      32 + Clz16_64(Shl(x, 32))
    else
      Clz16_64(x)
  }

  function Clz1_32(x: nat): (c: nat)
    requires x < Pow2(32)
    ensures LeadingZeros(x, c, 1, 32)
  {
    HalfWordConstants();
    if x <= 0x7fffffff then 1 else 0
  }

  function Clz2_32(x: nat): (c: nat)
    requires x < Pow2(32)
    ensures LeadingZeros(x, c, 3, 32)
  {
    HalfWordConstants();
    if x <= 0x3fffffff then
      ShlBound(x, 2, 30);
      LeadingZerosShift(x, 2, Clz1_32(Shl(x, 2)), 1, 32);
      2 + Clz1_32(Shl(x, 2))
    else
      Clz1_32(x)
  }

  function Clz4_32(x: nat): (c: nat)
    requires x < Pow2(32)
    ensures LeadingZeros(x, c, 7, 32)
  {
    HalfWordConstants();
    if x <= 0xfffffff then
      ShlBound(x, 4, 28);
      LeadingZerosShift(x, 4, Clz2_32(Shl(x, 4)), 3, 32);
      4 + Clz2_32(Shl(x, 4))
    else
      Clz2_32(x)
  }

  function Clz8_32(x: nat): (c: nat)
    requires x < Pow2(32)
    ensures LeadingZeros(x, c, 15, 32)
  {
    HalfWordConstants();
    if x <= 0xffffff then
      ShlBound(x, 8, 24);
      LeadingZerosShift(x, 8, Clz4_32(Shl(x, 8)), 7, 32);
      8 + Clz4_32(Shl(x, 8))
    else
      Clz4_32(x)
  }

  function Clz16_32(x: nat): (c: nat)
    requires x < Pow2(32)
    ensures LeadingZeros(x, c, 31, 32)
  {
    HalfWordConstants();
    if x <= 0xffff then
      ShlBound(x, 16, 16);
      LeadingZerosShift(x, 16, Clz8_32(Shl(x, 16)), 15, 32);
      16 + Clz8_32(Shl(x, 16))
    else
      Clz8_32(x)
  }

  /** `GetRequiredBits` of a `uint64_t` or `std::size_t` argument. */
  function GetRequiredBits64(max: nat): (k: nat)
    requires max < Pow2(64)
    ensures k == RequiredBits(max)
  {
    LeadingZerosGiveRequiredBits(max, Clz32_64(max), 64);
    64 - Clz32_64(max)
  }

  /** `GetRequiredBits` of a `uint32_t` or `int` argument: a negative one asks for all 32 bits. */
  function GetRequiredBits32(max: int): (k: nat)
    requires max < Pow2(32)
    ensures k == if max < 0 then 32 else RequiredBits(max)
  {
    if max < 0 then 32
    else
      LeadingZerosGiveRequiredBits(max, Clz16_32(max), 32);
      32 - Clz16_32(max)
  }

  lemma LeadingZerosGiveRequiredBits(x: nat, c: nat, w: nat)
    requires w > 0 && LeadingZeros(x, c, w - 1, w)
    ensures RequiredBits(x) == w - c
  {
    RequiredBitsLeast(x, w - c);
    RequiredBitsFit(x);
    if RequiredBits(x) < w - c {
      Pow2Monotone(RequiredBits(x), w - c - 1);
    }
  }

  /** The widths `GetRequiredBits` returns are enough and minimal. */
  lemma RequiredBitsCharacterized(max: nat, k: nat)
    requires k >= 1
    ensures max < Pow2(k) <==> RequiredBits(max) <= k
  {
    RequiredBitsFit(max);
    if max < Pow2(k) {
      RequiredBitsLeast(max, k);
    }
    if RequiredBits(max) <= k {
      Pow2Monotone(RequiredBits(max), k);
    }
  }

  /** A width is at least one bit. */
  lemma WidthHolds(max: nat)
    ensures 1 < Pow2(RequiredBits(max))
  {
    assert Pow2(1) == 2;
    Pow2Monotone(1, RequiredBits(max));
  }
}

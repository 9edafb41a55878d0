/** The 64-bit fixed-point product and quotient of NetReflectionFixedPoint.h, with `f`
    fractional bits. */
module FixedPoint {
  import opened BitUtil
  import opened Wrappers

  const WORD: int := 0x1_0000_0000_0000_0000
  const HALF: int := 0x8000_0000_0000_0000

  predicate Int64(v: int)
  {
    -HALF <= v < HALF
  }

  lemma ModWord(v: int)
    ensures (v % WORD - v) % WORD == 0 && (v % WORD - WORD - v) % WORD == 0
  {
  }

  /** The conversion to `int64_t`; arithmetic that overflows wraps around. */
  function ToSigned(v: int): (r: int)
    ensures Int64(r) && (r - v) % WORD == 0
    ensures Int64(v) ==> r == v
  {
    ModWord(v);
    if v % WORD < HALF then v % WORD else v % WORD - WORD
  }

  // ----- integer lemmas -----

  lemma ShiftByMultiple(v: int, k: int, d: int)
    requires d > 0
    ensures (v + k * d) % d == v % d && (v + k * d) / d == v / d + k
  {
    assert v == (v / d) * d + v % d;
    Distribute(v / d, k, d);
    QuotientUnique(v + k * d, v / d + k, v % d, d);
  }

  lemma Distribute(a: int, b: int, c: int)
    ensures (a + b) * c == a * c + b * c && c * (a + b) == c * a + c * b
  {
  }

  lemma Associate(a: int, b: int, c: int)
    ensures (a * b) * c == a * (b * c)
  {
  }

  lemma ProductBound(a: int, b: int, c: int, d: int)
    requires 0 <= a < c && 0 <= b < d
    ensures 0 <= a * b < c * d
  {
    TimesMonotone(a, c, b);
    TimesMonotone(b + 1, d, c);
    assert b * c < (b + 1) * c;
    assert b * c == c * b && d * c == c * d;
  }

  function Carry(v: int): int
  {
    (v - ToSigned(v)) / WORD
  }

  lemma SignedIs(v: int)
    ensures v == ToSigned(v) + Carry(v) * WORD
  {
    var q, r := v / WORD, v % WORD;
    if r < HALF {
      QuotientUnique(v - r, q, 0, WORD);
    } else {
      QuotientUnique(v - (r - WORD), q + 1, 0, WORD);
    }
  }

  lemma SignedMultiple(v: int, k: int)
    ensures ToSigned(v + k * WORD) == ToSigned(v)
  {
    ShiftByMultiple(v, k, WORD);
  }

  /** Close values have the same conversion only if they are equal. */
  lemma SignedClose(v: int, d: int)
    requires 0 <= d < WORD
    ensures ToSigned(v - d) == ToSigned(v) <==> d == 0
  {
    var q, r := v / WORD, v % WORD;
    if 0 < d <= r {
      QuotientUnique(v - d, q, r - d, WORD);
    } else if r < d {
      QuotientUnique(v - d, q - 1, r - d + WORD, WORD);
    }
  }

  // ----- the product -----

  /** The portable branch: the operands are split into integer and fractional parts. */
  function MultiplySplit(a: int, b: int, f: nat): int
    requires Int64(a) && Int64(b) && 1 <= f <= 63
  {
    var unit := Pow2(f);
    var xlo, xhi := a % unit, a / unit;
    var ylo, yhi := b % unit, b / unit;
    var lolo := (xlo * ylo) % WORD;
    var lohi := ToSigned(xlo * yhi);
    var hilo := ToSigned(xhi * ylo);
    var hihi := ToSigned(xhi * yhi);
    ToSigned(lolo / unit + lohi + hilo + ToSigned(hihi * unit))
  }

  /** The branch with a 128-bit product in a high and a low word. */
  function MultiplyHiLo(a: int, b: int, f: nat): int
    requires Int64(a) && Int64(b) && 1 <= f <= 63
  {
    var result := ToSigned(a * b);
    var hi := (a * b) / WORD;
    var result_bits := 64 - f;
    var low := (result / Pow2(f)) % Pow2(result_bits);
    ToSigned(Or(low, (hi * Pow2(result_bits)) % WORD))
  }

  /** The exact product, rounded down, in 64 bits. */
  function Product(a: int, b: int, f: nat): int
  {
    ToSigned((a * b) / Pow2(f))
  }

  lemma WordSplits(f: nat)
    requires f <= 64
    ensures Pow2(f) * Pow2(64 - f) == WORD
  {
    WordConstants();
    Pow2Sum(f, 64 - f);
  }

  /** (xhi u + xlo) (yhi u + ylo), divided by u. */
  lemma ExpandProduct(xhi: int, xlo: int, yhi: int, ylo: int, u: int)
    requires u > 0
    ensures ((xhi * u + xlo) * (yhi * u + ylo)) / u
         == (xhi * yhi) * u + xhi * ylo + xlo * yhi + (xlo * ylo) / u
  {
    var inner := (xhi * yhi) * u + xhi * ylo + xlo * yhi;
    calc {
      (xhi * u + xlo) * (yhi * u + ylo);
      { Distribute(xhi * u, xlo, yhi * u + ylo); }
      (xhi * u) * (yhi * u + ylo) + xlo * (yhi * u + ylo);
      { Distribute(yhi * u, ylo, xhi * u); Distribute(yhi * u, ylo, xlo); }
      (xhi * u) * (yhi * u) + (xhi * u) * ylo + xlo * (yhi * u) + xlo * ylo;
      { FourProducts(xhi, xlo, yhi, ylo, u); }
      ((xhi * yhi) * u) * u + (xhi * ylo) * u + (xlo * yhi) * u + xlo * ylo;
      { Distribute((xhi * yhi) * u, xhi * ylo, u); Distribute((xhi * yhi) * u + xhi * ylo, xlo * yhi, u); }
      inner * u + xlo * ylo;
    }
    ShiftByMultiple(xlo * ylo, inner, u);
  }

  lemma FourProducts(xhi: int, xlo: int, yhi: int, ylo: int, u: int)
    ensures (xhi * u) * (yhi * u) == ((xhi * yhi) * u) * u
    ensures (xhi * u) * ylo == (xhi * ylo) * u
    ensures xlo * (yhi * u) == (xlo * yhi) * u
  {
    Associate(xhi, u, yhi * u);
    Associate(u, yhi, u);
    Associate(xhi, yhi * u, u);
    Associate(xhi, yhi, u);
    Associate(xhi, u, ylo);
    Associate(xhi, ylo, u);
    Associate(xlo, yhi, u);
  }

  lemma FactorBounds(u: nat, v: nat)
    requires u * v == WORD
    ensures 0 < v && u <= WORD
  {
    assert v != 0;
    TimesMonotone(1, v, u);
  }

  /** Cutting the low product to 64 bits loses a multiple of 2^(64-f) after the shift. */
  lemma LowProduct(p: nat, u: nat, v: nat)
    requires u > 0 && u * v == WORD && p < u * u
    ensures p / u == (p % WORD) / u + (p / WORD) * v
    ensures 0 <= (p / WORD) * v < WORD
    ensures (p / WORD) * v == 0 <==> p < WORD
  {
    var q, r := p / WORD, p % WORD;
    assert p == q * WORD + r;
    assert q * WORD == (q * v) * u by {
      Associate(q, v, u);
    }
    ShiftByMultiple(r, q * v, u);
    if q * v >= u {
      TimesMonotone(u, q * v, u);
      assert false;
    }
    FactorBounds(u, v);
    if q > 0 {
      TimesMonotone(1, q, v);
      assert q * v > 0;
      TimesMonotone(1, q, WORD);
    }
  }

  /** What the wrapped partial products add up to. */
  lemma PartialProducts(lohi: int, hilo: int, hihi: int, u: int, low: int)
    ensures ToSigned(low + ToSigned(lohi) + ToSigned(hilo) + ToSigned(ToSigned(hihi) * u))
         == ToSigned(low + lohi + hilo + hihi * u)
  {
    SignedIs(lohi);
    SignedIs(hilo);
    SignedIs(hihi);
    SignedIs(ToSigned(hihi) * u);
    var c := Carry(lohi) + Carry(hilo) + Carry(hihi) * u + Carry(ToSigned(hihi) * u);
    assert hihi * u == ToSigned(hihi) * u + (Carry(hihi) * u) * WORD by {
      Distribute(ToSigned(hihi), Carry(hihi) * WORD, u);
      Associate(Carry(hihi), WORD, u);
      Associate(Carry(hihi), u, WORD);
    }
    assert c * WORD == Carry(lohi) * WORD + Carry(hilo) * WORD + (Carry(hihi) * u) * WORD
      + Carry(ToSigned(hihi) * u) * WORD;
    SignedMultiple(low + ToSigned(lohi) + ToSigned(hilo) + ToSigned(ToSigned(hihi) * u), c);
  }

  /** The split product is exact if and only if the product of the two fractional parts
      fits a 64-bit word. */
  lemma MultiplySplitExact(a: int, b: int, f: nat)
    requires Int64(a) && Int64(b) && 1 <= f <= 63
    ensures MultiplySplit(a, b, f) == Product(a, b, f) <==> (a % Pow2(f)) * (b % Pow2(f)) < WORD
  {
    hide Pow2, ToSigned;
    WordSplits(f);
    SplitExact(a / Pow2(f), a % Pow2(f), b / Pow2(f), b % Pow2(f), Pow2(f), Pow2(64 - f));
    SplitOperand(a, Pow2(f));
    SplitOperand(b, Pow2(f));
  }

  lemma SplitOperand(a: int, u: nat)
    requires u > 0
    ensures a == (a / u) * u + a % u && 0 <= a % u < u
  {
  }

  /** The same over the operands' parts. */
  lemma SplitExact(xhi: int, xlo: nat, yhi: int, ylo: nat, u: nat, v: nat)
    requires xlo < u && ylo < u && u * v == WORD
    ensures
      ToSigned((xlo * ylo) % WORD / u + ToSigned(xlo * yhi) + ToSigned(xhi * ylo) + ToSigned(ToSigned(xhi * yhi) * u))
        == ToSigned(((xhi * u + xlo) * (yhi * u + ylo)) / u)
      <==> xlo * ylo < WORD
  {
    hide ToSigned;
    var p := xlo * ylo;
    ProductBound(xlo, ylo, u, u);
    LowProduct(p, u, v);
    PartialProducts(xlo * yhi, xhi * ylo, xhi * yhi, u, p % WORD / u);
    ExpandProduct(xhi, xlo, yhi, ylo, u);
    SignedClose(((xhi * u + xlo) * (yhi * u + ylo)) / u, p / WORD * v);
  }

  lemma Pow2Small(f: nat)
    requires f <= 32
    ensures Pow2(f) * Pow2(f) <= WORD
  {
    WordConstants();
    Pow2Monotone(f, 32);
    TimesMonotone(Pow2(f), Pow2(32), Pow2(f));
    TimesMonotone(Pow2(f), Pow2(32), Pow2(32));
  }

  /** With up to 32 fractional bits that is always the case. */
  lemma MultiplySplitCorrect(a: int, b: int, f: nat)
    requires Int64(a) && Int64(b) && 1 <= f <= 32
    ensures MultiplySplit(a, b, f) == Product(a, b, f)
  {
    hide MultiplySplit, Product;
    Pow2Small(f);
    ProductBound(a % Pow2(f), b % Pow2(f), Pow2(f), Pow2(f));
    MultiplySplitExact(a, b, f);
  }

  lemma {:induction false} OrDisjoint(a: nat, b: nat, k: nat)
    requires a < Pow2(k)
    ensures Or(a, b * Pow2(k)) == a + b * Pow2(k)
    decreases k
  {
    if k == 0 {
      OrZero(b);
    } else {
      var h := b * Pow2(k - 1);
      assert b * Pow2(k) == 2 * h by { TimesTwice(b, Pow2(k - 1)); }
      OrDisjoint(a / 2, b, k - 1);
    }
  }

  lemma {:induction false} OrZero(b: nat)
    ensures Or(0, b * 1) == b
    decreases b
  {
    if b > 0 { OrZero(b / 2); }
  }

  /** The high word's low bits move up by `result_bits`. */
  lemma HighPart(hi: int, u: nat, v: nat)
    requires u > 0 && v > 0 && u * v == WORD
    ensures (hi * v) % WORD == (hi % u) * v
  {
    var q, r := hi / u, hi % u;
    assert hi == q * u + r;
    assert hi * v == q * WORD + r * v by {
      Distribute(q * u, r, v);
      Associate(q, u, v);
    }
    ProductBound(r, v - 1, u, v);
    TimesMonotone(r + 1, u, v);
    Distribute(r, 1, v);
    QuotientUnique(hi * v, q, r * v, WORD);
  }

  /** The product's low word, shifted and masked, keeps the bits between. */
  lemma LowPart(p: int, u: nat, v: nat)
    requires u > 0 && v > 0 && u * v == WORD
    ensures (ToSigned(p) / u) % v == (p % WORD) / u < v
  {
    var w := p % WORD;
    assert w / u < v by {
      assert w == (w / u) * u + w % u;
      if w / u >= v {
        TimesMonotone(v, w / u, u);
        assert false;
      }
    }
    QuotientUnique(w / u, 0, w / u, v);
    if w >= HALF {
      assert (-1 * v) * u == -WORD;
      ShiftByMultiple(w, -1 * v, u);
      ShiftByMultiple(w / u, -1, v);
    }
  }

  /** The branch with the 128-bit product is exact for every number of fractional bits. */
  lemma MultiplyHiLoCorrect(a: int, b: int, f: nat)
    requires Int64(a) && Int64(b) && 1 <= f <= 63
    ensures MultiplyHiLo(a, b, f) == Product(a, b, f)
  {
    var u, v, p := Pow2(f), Pow2(64 - f), a * b;
    var hi, w := p / WORD, p % WORD;
    WordSplits(f);
    LowPart(p, u, v);
    HighPart(hi, u, v);
    OrDisjoint(w / u, hi % u, 64 - f);
    ExactShift(p, u, v);
    HighSplit(hi, u, v);
    var r := w / u + (hi % u) * v;
    SignedMultiple(r, hi / u);
  }

  lemma ExactShift(p: int, u: nat, v: nat)
    requires u > 0 && u * v == WORD
    ensures p / u == (p / WORD) * v + (p % WORD) / u
  {
    var hi, w := p / WORD, p % WORD;
    assert p == hi * WORD + w;
    assert hi * WORD == (hi * v) * u by { Associate(hi, v, u); }
    ShiftByMultiple(w, hi * v, u);
  }

  lemma HighSplit(hi: int, u: nat, v: nat)
    requires u > 0 && u * v == WORD
    ensures hi * v == (hi / u) * WORD + (hi % u) * v
  {
    var q, r := hi / u, hi % u;
    assert hi == q * u + r;
    Distribute(q * u, r, v);
    Associate(q, u, v);
  }

  /** The two branches agree if and only if the split one is exact. */
  lemma MultiplyBranchesAgree(a: int, b: int, f: nat)
    requires Int64(a) && Int64(b) && 1 <= f <= 63
    ensures MultiplySplit(a, b, f) == MultiplyHiLo(a, b, f) <==> (a % Pow2(f)) * (b % Pow2(f)) < WORD
    ensures f <= 32 ==> MultiplySplit(a, b, f) == MultiplyHiLo(a, b, f)
  {
    hide MultiplySplit, MultiplyHiLo, Product;
    MultiplySplitExact(a, b, f);
    MultiplyHiLoCorrect(a, b, f);
    if f <= 32 { MultiplySplitCorrect(a, b, f); }
  }

  /** The exact product of the operands is `q` units and a fraction of one: the result is `q`,
      or what 64 bits leave of it. */
  lemma MultiplyFloor(a: int, b: int, f: nat, q: int)
    requires Int64(a) && Int64(b) && 1 <= f <= 63 && q * Pow2(f) <= a * b < (q + 1) * Pow2(f)
    ensures (MultiplyHiLo(a, b, f) - q) % WORD == 0 && (Int64(q) ==> MultiplyHiLo(a, b, f) == q)
    ensures (a % Pow2(f)) * (b % Pow2(f)) < WORD ==>
      (MultiplySplit(a, b, f) - q) % WORD == 0 && (Int64(q) ==> MultiplySplit(a, b, f) == q)
  {
    hide MultiplySplit, MultiplyHiLo, Pow2, ToSigned;
    MultiplyHiLoCorrect(a, b, f);
    MultiplySplitExact(a, b, f);
    Distribute(q, 1, Pow2(f));
    QuotientUnique(a * b, q, a * b - q * Pow2(f), Pow2(f));
  }

  /** With 33 fractional bits they differ at the largest number below one. */
  lemma BranchesDiffer()
    ensures Pow2(33) == 0x2_0000_0000
    ensures MultiplySplit(Pow2(33) - 1, Pow2(33) - 1, 33) == 0x7FFF_FFFE
    ensures MultiplyHiLo(Pow2(33) - 1, Pow2(33) - 1, 33) == Product(Pow2(33) - 1, Pow2(33) - 1, 33) == 0x1_FFFF_FFFE
  {
    hide Pow2, MultiplySplit, MultiplyHiLo;
    HalfWordConstants();
    Pow2Next(32);
    SplitAt33(Pow2(33) - 1);
    MultiplyHiLoCorrect(Pow2(33) - 1, Pow2(33) - 1, 33);
  }

  lemma Pow2Next(n: nat)
    ensures Pow2(n + 1) == 2 * Pow2(n)
  {
  }

  lemma SplitAt33(a: nat)
    requires Pow2(33) == a + 1 == 0x2_0000_0000
    ensures MultiplySplit(a, a, 33) == 0x7FFF_FFFE
  {
    hide Pow2;
    assert a % Pow2(33) == a && a / Pow2(33) == 0;
  }

  // ----- the quotient -----

  function Abs(v: int): nat
  {
    if v >= 0 then v else -v
  }

  /** x 2^f / y, rounded to the nearest integer and up at the half. */
  function Rounded(x: nat, y: nat, f: nat): nat
    requires y > 0
  {
    (2 * (x * Pow2(f)) + y) / (2 * y)
  }

  /** The error is at most half a unit of the last place. */
  lemma RoundedError(x: nat, y: nat, f: nat)
    requires y > 0
    ensures 2 * Abs(Rounded(x, y, f) * y - x * Pow2(f)) <= y
  {
    NearestMultiple(x * Pow2(f), y);
  }

  lemma NearestMultiple(m: nat, y: nat)
    requires y > 0
    ensures 2 * Abs((2 * m + y) / (2 * y) * y - m) <= y
  {
    var q, r := (2 * m + y) / (2 * y), (2 * m + y) % (2 * y);
    assert 2 * m + y == q * (2 * y) + r;
    TimesTwice(q, y);
  }

  function Quotient(a: int, b: int, f: nat): int
    requires b != 0
  {
    var rounded: int := Rounded(Abs(a), Abs(b), f);
    if (a < 0) != (b < 0) then -rounded else rounded
  }

  lemma Nearest(m: int, y: int, s: int)
    requires m >= 0 && y > 0
    ensures s == (2 * m + y) / (2 * y) <==> -y < 2 * (s * y - m) <= y
  {
    var n := 2 * m + y;
    assert n == (n / (2 * y)) * (2 * y) + n % (2 * y);
    TimesTwice(s, y);
    if -y < 2 * (s * y - m) <= y {
      QuotientUnique(n, s, y - 2 * (s * y - m), 2 * y);
    }
  }

  /** `s * y` is nearest to `m`, and above it when two multiples are. */
  predicate IsNearest(m: int, y: int, s: int)
  {
    2 * Abs(s * y - m) <= y && (2 * Abs(s * y - m) == y ==> Abs(s * y) > m)
  }

  lemma NearestTie(m: int, y: int, s: int)
    requires m >= 0 && y > 0
    ensures IsNearest(m, y, s) <==> -y < 2 * (s * y - m) <= y
  {
    if s < 0 { TimesMonotone(s, -1, y); } else { TimesMonotone(0, s, y); }
  }

  lemma SignsFlip(r: int, y: int)
    ensures (-r) * y == -(r * y) && r * (-y) == -(r * y)
  {
  }

  /** The quotient is the number whose product with the divisor is nearest to the dividend, and
      at a tie the one farther from zero: its sign follows from that. */
  lemma QuotientNearest(a: int, b: int, f: nat, r: int)
    requires b != 0
    ensures r == Quotient(a, b, f) <==>
      && 2 * Abs(r * b - a * Pow2(f)) <= Abs(b)
      && (2 * Abs(r * b - a * Pow2(f)) == Abs(b) ==> Abs(r * b) > Abs(a) * Pow2(f))
  {
    hide Pow2;
    var p, y := Pow2(f), Abs(b);
    var m := Abs(a) * p;
    var s := if (a < 0) != (b < 0) then -r else r;
    Nearest(m, y, s);
    NearestTie(m, y, s);
    SignsFlip(r, y);
    SignsFlip(r, b);
    SignsFlip(a, p);
    assert Abs(s * y - m) == Abs(r * b - a * p) && Abs(s * y) == Abs(r * b);
  }

  /** The rounded quotient of the magnitudes fits if and only if it is below half a word. */
  lemma QuotientFits(a: int, b: int, f: nat)
    requires b != 0
    ensures Rounded(Abs(a), Abs(b), f) < HALF <==> 2 * (Abs(a) * Pow2(f)) + Abs(b) < WORD * Abs(b)
  {
    hide Pow2;
    var n, d := 2 * (Abs(a) * Pow2(f)) + Abs(b), 2 * Abs(b);
    assert n == (n / d) * d + n % d;
    if n / d < HALF {
      TimesMonotone(n / d + 1, HALF, d);
      Distribute(n / d, 1, d);
    } else {
      TimesMonotone(HALF, n / d, d);
    }
  }

  /** Half a quotient, rounded up, is the quotient rounded to the nearest. */
  lemma HalfUp(n: nat, y: nat)
    requires y > 0
    ensures (n / y + 1) / 2 == (n + y) / (2 * y)
  {
    var q, r := n / y, n % y;
    var k, e := (q + 1) / 2, (q + 1) % 2;
    assert n == q * y + r;
    assert (q + 1) * y == q * y + y by { Distribute(q, 1, y); }
    assert (2 * k + e) * y == k * (2 * y) + e * y by {
      Distribute(2 * k, e, y);
      Associate(2, k, y);
      TimesTwice(k, y);
    }
    assert e * y <= y;
    QuotientUnique(n + y, k, e * y + r, 2 * y);
  }

  /** Equal fractions have equal floors. */
  lemma SameFraction(n: nat, y: nat, m: nat, d: nat)
    requires y > 0 && d > 0 && n * d == m * y
    ensures n / y == m / d
  {
    var q, r := n / y, n % y;
    assert n == q * y + r;
    assert (m - q * d) * y == r * d by {
      Distribute(q * y, r, d);
      Associate(q, y, d);
      Associate(q, d, y);
      Distribute(m - q * d, q * d, y);
    }
    FractionRest(m - q * d, r, y, d);
    QuotientUnique(m, q, m - q * d, d);
  }

  lemma FractionRest(e: int, r: nat, y: nat, d: nat)
    requires e * y == r * d && r < y && d > 0
    ensures 0 <= e < d
  {
    if e < 0 {
      TimesMonotone(e, -1, y);
    } else if e >= d {
      TimesMonotone(d, e, y);
      TimesMonotone(r + 1, y, d);
      Distribute(r, 1, d);
    }
  }

  lemma SixteenTimes(p: nat)
    ensures Pow2(p + 4) == 16 * Pow2(p)
  {
    assert Pow2(p + 4) == 2 * Pow2(p + 3) && Pow2(p + 3) == 2 * Pow2(p + 2);
    assert Pow2(p + 2) == 2 * Pow2(p + 1) && Pow2(p + 1) == 2 * Pow2(p);
  }

  /** Factors of 16 are taken out of the divider. */
  method ReduceDivider(y: nat, f: nat) returns (divider: nat, bit_pos: nat)
    requires 0 < y < HALF
    ensures 0 < divider < HALF && bit_pos <= f + 1
    ensures y * Pow2(bit_pos) == divider * Pow2(f + 1)
  {
    divider, bit_pos := y, f + 1;
    while divider % 16 == 0 && bit_pos >= 4
      invariant 0 < divider < HALF && bit_pos <= f + 1
      invariant y * Pow2(bit_pos) == divider * Pow2(f + 1)
      decreases divider
    {
      ReducedStep(y, divider / 16, bit_pos - 4, Pow2(f + 1));
      divider := divider / 16;
      bit_pos := bit_pos - 4;
    }
  }

  lemma ReducedStep(y: nat, d: nat, p: nat, unit: nat)
    requires y * Pow2(p + 4) == (16 * d) * unit
    ensures y * Pow2(p) == d * unit
  {
    SixteenTimes(p);
    Associate(16, d, unit);
    assert y * (16 * Pow2(p)) == 16 * (y * Pow2(p));
  }

  /** What has been divided and what remains, `bit_pos` binary places up; at the end the
      remainder has been doubled once too often. */
  ghost predicate Progress(x: nat, d: nat, quotient: nat, remainder: nat, bit_pos: int)
  {
    if bit_pos >= 0 then x == quotient * d + Shl(remainder, bit_pos)
    else remainder % 2 == 0 && remainder / 2 < d && x == quotient * d + remainder / 2
  }

  lemma ProgressDone(x: nat, d: nat, quotient: nat, remainder: nat, bit_pos: int)
    requires d > 0 && Progress(x, d, quotient, remainder, bit_pos) && (remainder == 0 || bit_pos < 0)
    ensures quotient == x / d
  {
    if bit_pos >= 0 { ShlIsTimes(0, bit_pos); }
    QuotientUnique(x, quotient, if bit_pos < 0 then remainder / 2 else 0, d);
  }

  lemma ProgressBound(x: nat, d: nat, quotient: nat, rest: nat)
    requires d > 0 && x == quotient * d + rest
    ensures quotient <= x / d
  {
    ShiftByMultiple(rest, quotient, d);
  }

  /** The quotient after a round. */
  function More(quotient: nat, remainder: nat, shift: nat, d: nat, pos: nat): nat
    requires d > 0
  {
    quotient + Shl(Shl(remainder, shift) / d, pos)
  }

  /** The remainder after a round, doubled. */
  function Rest(remainder: nat, shift: nat, d: nat): nat
    requires d > 0
  {
    2 * (Shl(remainder, shift) % d)
  }

  /** One round: shift, divide, add the partial quotient, double the remainder. */
  lemma ProgressStep(x: nat, d: nat, quotient: nat, remainder: nat, bit_pos: nat, shift: nat)
    requires d > 0 && shift <= bit_pos && Progress(x, d, quotient, remainder, bit_pos)
    ensures
      var pos := bit_pos - shift;
      var more := More(quotient, remainder, shift, d, pos);
      more <= x / d && Progress(x, d, more, Rest(remainder, shift, d), pos - 1)
  {
    var shifted, pos := Shl(remainder, shift), bit_pos - shift;
    var div, rest := shifted / d, shifted % d;
    ShlTwice(remainder, shift, pos);
    ShlIsTimes(shifted, pos);
    ShlIsTimes(div, pos);
    ShlIsTimes(rest, pos);
    PartialQuotient(quotient, shifted, d, Pow2(pos));
    ProgressBound(x, d, quotient + Shl(div, pos), Shl(rest, pos));
    ShlDoubled(rest, pos);
  }

  lemma {:induction false} ShlTwice(v: nat, j: nat, k: nat)
    ensures Shl(Shl(v, j), k) == Shl(v, j + k)
    decreases k
  {
    if k > 0 { ShlTwice(v, j, k - 1); }
  }

  lemma {:induction false} ShlDoubled(v: nat, k: nat)
    ensures k > 0 ==> Shl(2 * v, k - 1) == Shl(v, k)
    ensures k == 0 ==> Shl(v, k) == v
    decreases k
  {
    if k > 1 { ShlDoubled(v, k - 1); }
  }

  lemma PartialQuotient(quotient: nat, shifted: nat, d: nat, unit: nat)
    requires d > 0
    ensures quotient * d + shifted * unit == (quotient + (shifted / d) * unit) * d + (shifted % d) * unit
  {
    var div, rest := shifted / d, shifted % d;
    Distribute(div * d, rest, unit);
    Associate(div, d, unit);
    Associate(div, unit, d);
    Distribute(quotient, div * unit, d);
  }

  lemma ShiftFits(remainder: nat, shift: nat, leading: nat)
    requires LeadingZeros(remainder, leading, 63, 64) && shift <= leading
    ensures Shl(remainder, shift) < WORD
  {
    hide Pow2, LeadingZeros;
    LeadingBound(remainder, leading);
    WordIs();
    Pow2Monotone(64 - leading, 64 - shift);
    ShlBound(remainder, shift, 64 - shift);
  }

  lemma LeadingBound(x: nat, c: nat)
    requires LeadingZeros(x, c, 63, 64)
    ensures c <= 63 && x < Pow2(64 - c)
  {
  }

  lemma WordIs()
    ensures Pow2(64) == WORD
  {
    WordConstants();
  }

  /** The division loop.  As long as the whole quotient leaves room for the rounding, no
      step overflows a 64-bit word. */
  method DivideLoop(start: nat, divider: nat, bits: nat) returns (quotient: nat)
    requires start < WORD && 0 < divider < HALF && bits <= 63
    ensures quotient < WORD
    ensures start * Pow2(bits) / divider < WORD - 1 ==> quotient == start * Pow2(bits) / divider
  {
    hide Progress, Clz32_64, Pow2, Shl, More, Rest;
    WordIs();
    ghost var x := start * Pow2(bits);
    ghost var fits := x / divider < WORD - 1;
    var remainder: nat, bit_pos: int := start, bits;
    quotient := 0;
    StartProgress(x, divider, start, bits);
    while remainder != 0 && bit_pos >= 0
      invariant -1 <= bit_pos <= bits && quotient < WORD && remainder < WORD
      invariant fits ==> Progress(x, divider, quotient, remainder, bit_pos)
      decreases bit_pos + 1
    {
      var shift := Clz32_64(remainder);
      ghost var leading := shift;
      if shift > bit_pos {
        shift := bit_pos;
      }
      if fits {
        ProgressStep(x, divider, quotient, remainder, bit_pos, shift);
      }
      ShiftFits(remainder, shift, leading);
      remainder, bit_pos, quotient := DivideStep(remainder, bit_pos, quotient, divider, shift);
    }
    if fits {
      ProgressDone(x, divider, quotient, remainder, bit_pos);
    }
  }

  lemma StartProgress(x: nat, d: nat, start: nat, bits: nat)
    requires x == start * Pow2(bits)
    ensures Progress(x, d, 0, start, bits)
  {
    ShlIsTimes(start, bits);
  }

  lemma InWord(v: nat)
    requires v < WORD
    ensures v % WORD == v
  {
    QuotientUnique(v, 0, v, WORD);
  }

  lemma WrappedSum(a: nat, b: nat)
    ensures 0 <= (a + b % WORD) % WORD < WORD
    ensures a + b < WORD ==> (a + b % WORD) % WORD == a + b
  {
    if a + b < WORD {
      InWord(b);
      InWord(a + b);
    }
  }

  /** The statements of one round, each in a 64-bit word. */
  method DivideStep(remainder: nat, bit_pos: nat, quotient: nat, divider: nat, shift: nat)
    returns (remainder': nat, bit_pos': int, quotient': nat)
    requires 0 < divider < HALF && shift <= bit_pos <= 63 && quotient < WORD && Shl(remainder, shift) < WORD
    ensures remainder' < WORD && quotient' < WORD && bit_pos' == bit_pos - shift - 1
    ensures remainder' == Rest(remainder, shift, divider)
    ensures
      var more := More(quotient, remainder, shift, divider, bit_pos - shift);
      more < WORD ==> quotient' == more
  {
    hide Shl;
    remainder' := Shl(remainder, shift) % WORD;
    InWord(Shl(remainder, shift));
    bit_pos' := bit_pos - shift;
    var div := remainder' / divider;
    remainder' := remainder' % divider;
    WrappedSum(quotient, Shl(div, bit_pos'));
    quotient' := (quotient + Shl(div, bit_pos') % WORD) % WORD;
    InWord(remainder' * 2);
    remainder' := (remainder' * 2) % WORD;
    bit_pos' := bit_pos' - 1;
  }

  /** The quotient is correctly rounded if and only if it fits; dividing by zero throws.  The
      smallest number has no positive counterpart and is excluded. */
  method DivideWide(a: int, b: int, f: nat) returns (r: Option<int>)
    requires -HALF < a < HALF && -HALF < b < HALF && 1 <= f <= 62
    ensures r.None? <==> b == 0
    ensures b != 0 ==> (r.value == Quotient(a, b, f) <==> Rounded(Abs(a), Abs(b), f) < HALF)
    ensures b != 0 ==>
      (&& 2 * Abs(r.value * b - a * Pow2(f)) <= Abs(b)
       && (2 * Abs(r.value * b - a * Pow2(f)) == Abs(b) ==> Abs(r.value * b) > Abs(a) * Pow2(f))
       <==> 2 * (Abs(a) * Pow2(f)) + Abs(b) < WORD * Abs(b))
  {
    hide Pow2, Rounded, Abs;
    AbsBound(a);
    AbsBound(b);
    if b == 0 {
      return None;
    }
    var divider, bit_pos := ReduceDivider(Abs(b), f);
    var quotient := DivideLoop(Abs(a), divider, bit_pos);
    RoundingBits(Abs(a), Abs(b), f, divider, bit_pos);
    HalfInWord(quotient, Abs(a) * Pow2(bit_pos) / divider);
    quotient := (quotient + 1) % WORD;
    var result := quotient / 2;
    if (a < 0) != (b < 0) {
      result := -result;
    }
    r := Some(result);
    QuotientNearest(a, b, f, result);
    QuotientFits(a, b, f);
  }

  lemma AbsBound(a: int)
    requires -HALF < a < HALF
    ensures Abs(a) < HALF && (Abs(a) == 0 <==> a == 0)
  {
  }

  /** Half of the quotient and one, in a word, is right exactly when it is below half a word. */
  lemma HalfInWord(quotient: nat, exact: nat)
    requires quotient < WORD && (exact < WORD - 1 ==> quotient == exact)
    ensures (quotient + 1) % WORD / 2 < HALF
    ensures (quotient + 1) % WORD / 2 == (exact + 1) / 2 <==> (exact + 1) / 2 < HALF
  {
    if exact < WORD - 1 { InWord(quotient + 1); }
  }

  /** The loop computes the quotient with one more bit, which decides the rounding. */
  lemma RoundingBits(x: nat, y: nat, f: nat, d: nat, p: nat)
    requires y > 0 && d > 0 && y * Pow2(p) == d * Pow2(f + 1)
    ensures Rounded(x, y, f) == (x * Pow2(p) / d + 1) / 2
  {
    var n, m := x * Pow2(f + 1), x * Pow2(p);
    assert n * d == m * y by {
      Associate(x, Pow2(f + 1), d);
      Associate(x, Pow2(p), y);
    }
    SameFraction(n, y, m, d);
    TimesTwice(x, Pow2(f));
    HalfUp(n, y);
  }
}

/** The product of two 64-bit significands, and the error that it leaves for the digit generator. */
module GrisuProducts {
  import opened Powers
  import opened Words
  import opened Rounding
  import opened Grisu

  const HALF := 0x8000_0000_0000_0000

  /** approx * 2^-shift is within one unit of the last place of f * 2^e * 10^k. */
  predicate Approximates(approx: nat, shift: nat, f: nat, e: int, k: int) {
    Within(ValueNum(f, e, -k) * Pow(2, shift), ValueDen(e, -k), approx)
  }

  /** 10^k / 2^powerExp as a fraction. */
  function PowerNum(powerExp: int, k: int): nat { Pow(10, Max0(k)) * Pow(2, Max0(-powerExp)) }

  function PowerDen(powerExp: int, k: int): (r: nat)
    ensures r > 0
  {
    MulMono(1, Pow(10, Max0(-k)), Pow(2, Max0(powerExp)));
    Pow(10, Max0(-k)) * Pow(2, Max0(powerExp))
  }

  /** power * 2^powerExp is 10^k to the nearest unit of the significand. */
  predicate NearestPower(power: nat, powerExp: int, k: int) {
    var n, d := PowerNum(powerExp, k), PowerDen(powerExp, k);
    2 * (power * d - n) <= d && 2 * (n - power * d) <= d
  }

  /** multiply with a 128-bit product: the upper half, one more if bit 63 is set. */
  function MultiplyWide(lhs: Word64, rhs: Word64): int {
    var product: int := lhs * rhs;
    product / TWO64 + if product / HALF % 2 == 1 then 1 else 0
  }

  /** multiply on 32-bit parts; none of the sums leaves 64 bits. */
  function MultiplyParts(lhs: Word64, rhs: Word64): int {
    var a: Word, b: Word, c: Word, d: Word := lhs / B, lhs % B, rhs / B, rhs % B;
    PartProducts(a, b, c, d);
    var ac: Word64, bc: Word64, ad: Word64, bd: Word64 := a * c, b * c, a * d, b * d;
    var mid: Word64 := bd / B + ad % B + bc % B + 0x8000_0000;
    ac + ad / B + bc / B + mid / B
  }

  lemma PartProducts(a: Word, b: Word, c: Word, d: Word)
    ensures 0 <= a * c < TWO64 && 0 <= b * c < TWO64 && 0 <= a * d < TWO64 && 0 <= b * d < TWO64
  {
    SmallProduct(a, c);
    SmallProduct(b, c);
    SmallProduct(a, d);
    SmallProduct(b, d);
  }

  lemma SmallProduct(x: Word, y: Word)
    ensures 0 <= x * y <= (B - 1) * (B - 1)
  {
    MulMono(x, B - 1, y);
    MulMono(y, B - 1, B - 1);
    MulMono(0, x, y);
  }

  /** Both forms compute lhs * rhs / 2^64, rounded half up, and the result fits 64 bits. */
  lemma MultiplyRoundsHalfUp(lhs: Word64, rhs: Word64)
    ensures MultiplyWide(lhs, rhs) == MultiplyParts(lhs, rhs) == (lhs * rhs + HALF) / TWO64 < TWO64
  {
    var a: int, b: int, c: int, d: int := lhs / B, lhs % B, rhs / B, rhs % B;
    PartProducts(a, b, c, d);
    Expand(lhs, rhs, a, b, c, d);
    SumOfParts(lhs * rhs, a * c, b * c, a * d, b * d);
    ProductBelow(lhs, rhs);
  }

  lemma Expand(lhs: int, rhs: int, a: int, b: int, c: int, d: int)
    requires lhs == a * B + b && rhs == c * B + d
    ensures lhs * rhs == (a * c) * TWO64 + (b * c + a * d) * B + b * d
  {
    calc {
      lhs * rhs;
      (a * B + b) * (c * B + d);
      (a * c) * (B * B) + (b * c + a * d) * B + b * d;
    }
  }

  lemma SumOfParts(product: int, ac: int, bc: int, ad: int, bd: int)
    requires product == ac * TWO64 + (bc + ad) * B + bd && ac >= 0 && bc >= 0 && ad >= 0 && bd >= 0
    ensures ac + ad / B + bc / B + (bd / B + ad % B + bc % B + 0x8000_0000) / B == (product + HALF) / TWO64
    ensures product / TWO64 + (if product / HALF % 2 == 1 then 1 else 0) == (product + HALF) / TWO64
  {
  }

  lemma ProductBelow(lhs: Word64, rhs: Word64)
    ensures (lhs * rhs + HALF) / TWO64 < TWO64
  {
    MulMono(lhs, TWO64 - 1, rhs);
    MulMono(rhs, TWO64 - 1, TWO64 - 1);
  }

  /** x times a power c that is half a unit off at most is less than one unit off. */
  lemma ProductError(x: Word64, c: Word64, n: nat, d: nat)
    requires d > 0 && 2 * (c * d - n) <= d && 2 * (n - c * d) <= d
    ensures Within(x * n, d * TWO64, (x * c + HALF) / TWO64)
  {
    var m := (x * c + HALF) / TWO64;
    var table, rounding := n - c * d, x * c - m * TWO64;
    assert -HALF <= rounding <= HALF;
    assert x * n - m * (d * TWO64) == x * table + d * rounding by { SplitError(x, c, n, d, m); }
    ScaledError(x, d, table);
    MulMono(rounding, HALF, d);
    MulMono(-HALF, rounding, d);
  }

  lemma SplitError(x: int, c: int, n: int, d: int, m: int)
    ensures x * n - m * (d * TWO64) == x * (n - c * d) + d * (x * c - m * TWO64)
  {
  }

  lemma ScaledError(x: Word64, d: nat, table: int)
    requires d > 0 && 2 * table <= d && -2 * table <= d
    ensures 2 * (x * table) < d * TWO64 && -2 * (x * table) < d * TWO64
  {
    MulMono(2 * table, d, x);
    MulMono(-2 * table, d, x);
    MulMono(x + 1, TWO64, d);
  }

  /** Hence the product with a table entry that is rounded to nearest is the approximation that digit generation needs. */
  lemma ProductApproximates(x: Word64, c: Word64, n: nat, d: nat, shift: nat, f: nat, e: int, k: int)
    requires d > 0 && 2 * (c * d - n) <= d && 2 * (n - c * d) <= d
    requires (x * n) * ValueDen(e, -k) == (ValueNum(f, e, -k) * Pow(2, shift)) * (d * TWO64)
    ensures Approximates(MultiplyParts(x, c), shift, f, e, k)
  {
    MultiplyRoundsHalfUp(x, c);
    ProductWithin(x, c, n, d, ValueNum(f, e, -k) * Pow(2, shift), ValueDen(e, -k), MultiplyParts(x, c));
  }

  lemma ProductWithin(x: Word64, c: Word64, n: nat, d: nat, tn: int, td: int, m: int)
    requires d > 0 && 2 * (c * d - n) <= d && 2 * (n - c * d) <= d && m == (x * c + HALF) / TWO64
    requires tn >= 0 && td > 0 && (x * n) * td == tn * (d * TWO64)
    ensures m >= 0 && Within(tn, td, m)
  {
    MulMono(0, x, c);
    MulMono(0, x, n);
    ProductError(x, c, n, d);
    var xn: int, dt: int := x * n, d * TWO64;
    WithinSameValue(xn, dt, tn, td, m);
  }

  lemma WithinSameValue(tn: int, td: int, tn': int, td': int, m: int)
    requires tn >= 0 && tn' >= 0 && m >= 0 && td > 0 && td' > 0 && tn * td' == tn' * td && Within(tn, td, m)
    ensures Within(tn', td', m)
  {
    ScaledMiss(tn - m * td, td, tn' - m * td', td', tn, tn', m);
  }

  lemma ScaledMiss(x: int, td: int, x': int, td': int, tn: int, tn': int, m: int)
    requires x == tn - m * td && x' == tn' - m * td' && td > 0 && td' > 0 && tn * td' == tn' * td && -td < x < td
    ensures -td' < x' < td'
  {
    assert x * td' == x' * td by {
      assert (m * td) * td' == (m * td') * td;
    }
    MulMonoStrict(x, td, td');
    MulMonoStrict(-td, x, td');
    if x' >= td' { MulMono(td', x', td); }
    if x' <= -td' { MulMono(x', -td', td); }
  }

  /** How far a significand is from having its highest bit set. */
  function NormalShift(y: nat): nat
    requires 0 < y < TWO64
    decreases TWO64 - y
  {
    if y >= HALF then 0 else 1 + NormalShift(2 * y)
  }

  lemma {:induction false} NormalShiftIs(y: nat, s: nat)
    requires 0 < y < TWO64 && HALF <= y * Pow(2, s) < TWO64
    ensures s == NormalShift(y)
    decreases s
  {
    if s == 0 {
      assert Pow(2, 0) == 1;
    } else {
      assert Pow(2, s) == 2 * Pow(2, s - 1);
      MulAssoc(y, 2, Pow(2, s - 1));
      MulMono(1, Pow(2, s - 1), 2 * y);
      NormalShiftIs(2 * y, s - 1);
    }
  }

  /** Shifts the significand up until its highest bit is set; subnormal numbers first reach the implicit bit. */
  method Normalize(f: nat, e: int) returns (x: Word64, exp: int)
    requires 0 < f < 0x20_0000_0000_0000
    ensures x == Normalized(f) && exp == e - NormalShift(f)
  {
    var y: int := f;
    exp := e;
    ghost var shift := 0;
    assert Pow(2, 0) == 1;
    while y < 0x10_0000_0000_0000
      invariant 0 < y < 0x20_0000_0000_0000 && exp == e - shift && y == f * Pow(2, shift)
      decreases 0x20_0000_0000_0000 - y
    {
      DoubledAgain(f, shift);
      y, exp, shift := 2 * y, exp - 1, shift + 1;
    }
    ShiftedEleven(f, shift);
    x, exp := y * 0x800, exp - 11;
    NormalShiftIs(f, shift + 11);
  }

  lemma DoubledAgain(f: nat, shift: nat)
    ensures f * Pow(2, shift + 1) == 2 * (f * Pow(2, shift))
  {
  }

  lemma ShiftedEleven(f: nat, shift: nat)
    ensures f * Pow(2, shift + 11) == (f * Pow(2, shift)) * 0x800
  {
    assert Pow(2, 11) == 0x800 by { assert Pow(2, 5) == 32; PowAdd(2, 5, 6); assert Pow(2, 6) == 64; }
    PowAdd(2, shift, 11);
    MulAssoc(f, Pow(2, shift), 0x800);
  }

  /** The exponents of two on both sides of the scaled value. */
  lemma ScaledPowers(e: int, powerExp: int, s: nat, shift: nat)
    requires shift == s - e - powerExp - 64
    ensures Pow(2, s) * Pow(2, Max0(-powerExp)) * Pow(2, Max0(-e)) == Pow(2, Max0(e)) * Pow(2, shift) * Pow(2, Max0(powerExp)) * TWO64
  {
    hide Pow;
    PowThree(s, Max0(-powerExp), Max0(-e));
    PowThree(Max0(e), shift, Max0(powerExp));
    PowAdd(2, Max0(e) + shift + Max0(powerExp), 64);
    Pow2At64();
    assert s + Max0(-powerExp) + Max0(-e) == Max0(e) + shift + Max0(powerExp) + 64;
  }

  lemma PowThree(i: nat, j: nat, k: nat)
    ensures Pow(2, i) * Pow(2, j) * Pow(2, k) == Pow(2, i + j + k)
  {
    PowAdd(2, i, j);
    PowAdd(2, i + j, k);
  }

  lemma Pow2At64()
    ensures Pow(2, 64) == TWO64
  {
    Pow2At32();
    PowAdd(2, 32, 32);
  }

  lemma RegroupScaled(f: nat, s2: nat, t: nat, m2: nat, d2: nat, u: nat, e2: nat, h2: nat, p2: nat)
    requires s2 * m2 * d2 == e2 * h2 * p2 * TWO64
    ensures ((f * s2) * (t * m2)) * (d2 * u) == ((f * e2 * t) * h2) * ((u * p2) * TWO64)
  {
    calc {
      ((f * s2) * (t * m2)) * (d2 * u);
      (f * t * u) * (s2 * m2 * d2);
      (f * t * u) * (e2 * h2 * p2 * TWO64);
      ((f * e2 * t) * h2) * ((u * p2) * TWO64);
    }
  }

  /** The normalized significand times the table entry approximates the value scaled by 10^k. */
  lemma NormalizedApproximates(f: nat, e: int, s: nat, x: Word64, power: Word64, powerExp: int, k: int, shift: nat)
    requires x == f * Pow(2, s) && shift == s - e - powerExp - 64 && NearestPower(power, powerExp, k)
    ensures Approximates(MultiplyParts(x, power), shift, f, e, k)
  {
    ScaledPowers(e, powerExp, s, shift);
    assert Max0(-(-k)) == Max0(k);
    RegroupScaled(f, Pow(2, s), Pow(10, Max0(k)), Pow(2, Max0(-powerExp)), Pow(2, Max0(-e)), Pow(10, Max0(-k)),
                  Pow(2, Max0(e)), Pow(2, shift), Pow(2, Max0(powerExp)));
    ProductApproximates(x, power, PowerNum(powerExp, k), PowerDen(powerExp, k), shift, f, e, k);
  }

  /** Both highest bits set: the integral part of the product is neither zero nor above 32 bits. */
  lemma IntegralPartFits(x: Word64, power: Word64, shift: nat)
    requires x >= HALF && power >= HALF && 32 <= shift <= 60
    ensures 0 < ShiftedRight(MultiplyParts(x, power), shift) < B
  {
    MultiplyRoundsHalfUp(x, power);
    var approx := MultiplyParts(x, power);
    assert x * power >= HALF * HALF by { MulMono(HALF, x, power); MulMono(HALF, power, HALF); }
    ShiftedRightQuotient(approx, shift);
    ShiftBounds(shift);
    QuotientBetween(approx, Pow(2, shift));
  }

  lemma QuotientBetween(approx: nat, one: nat)
    requires 0x4000_0000_0000_0000 <= approx < TWO64 && B <= one <= 0x1000_0000_0000_0000
    ensures 0 < approx / one < B
  {
    var q: int := approx / one;
    if q <= 0 { MulMono(q, 0, one); }
    if q >= B { MulMono(B, q, one); }
  }

  /** The scaled value that the digit generator works on, in units of 2^-ScaledShift. */
  function Scaled(f: nat, power: Word64): (r: Word64)
    requires 0 < f < TWO64
  {
    MultiplyRoundsHalfUp(Normalized(f), power);
    MultiplyParts(Normalized(f), power)
  }

  /** The significand shifted up until its highest bit is set. */
  function Normalized(f: nat): (x: Word64)
    requires 0 < f < TWO64
    ensures x == f * Pow(2, NormalShift(f)) && x >= HALF
  {
    NormalizedFits(f);
    f * Pow(2, NormalShift(f))
  }

  function ScaledShift(f: nat, e: int, powerExp: int): int
    requires 0 < f < TWO64
  {
    NormalShift(f) - e - powerExp - 64
  }

  lemma {:induction false} NormalizedFits(y: nat)
    requires 0 < y < TWO64
    ensures HALF <= y * Pow(2, NormalShift(y)) < TWO64
    decreases TWO64 - y
  {
    if y >= HALF {
      assert Pow(2, 0) == 1;
    } else {
      NormalizedFits(2 * y);
      MulAssoc(y, 2, Pow(2, NormalShift(2 * y)));
    }
  }

  /** A table entry that is the power of ten to the nearest unit, with its highest bit set, and brings the scaled value
      into the range of the digit generator. */
  predicate FitsScale(f: nat, e: int, power: Word64, powerExp: int, k: int)
    requires 0 < f < TWO64
  {
    power >= HALF && NearestPower(power, powerExp, k) && 32 <= ScaledShift(f, e, powerExp) <= 60
  }

  /** Then the scaled value is within one unit of the true one, and its integral part is neither zero nor above 32 bits. */
  lemma ScaledApproximates(f: nat, e: int, power: Word64, powerExp: int, k: int)
    requires 0 < f < TWO64 && FitsScale(f, e, power, powerExp, k)
    ensures Approximates(Scaled(f, power), ScaledShift(f, e, powerExp), f, e, k)
    ensures 0 < ShiftedRight(Scaled(f, power), ScaledShift(f, e, powerExp)) < B
  {
    var x := Normalized(f);
    NormalizedApproximates(f, e, NormalShift(f), x, power, powerExp, k, ScaledShift(f, e, powerExp));
    IntegralPartFits(x, power, ScaledShift(f, e, powerExp));
  }
}

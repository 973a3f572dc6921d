/** The fixed-precision branch of fallback_format: Steele and White digit generation on exact integers. */
module FallbackFormats {
  import opened Powers
  import opened Words
  import opened Bigints
  import opened Rounding

  /** Both exponent and significand of the value are such that the denominator is shifted one bit too little. */
  predicate HalvedDenominator(e: int, predecessorCloser: bool) {
    e >= 0 && predecessorCloser
  }

  /** The number fallback_format really formats is Factor times the value. */
  function Factor(e: int, predecessorCloser: bool): nat {
    if HalvedDenominator(e, predecessorCloser) then 2 else 1
  }

  /** The value over 10^p, or twice the value. */
  function Printed(doubled: bool, f: nat, e: int, p: int): nat {
    if doubled then 2 * ValueNum(f, e, p) else ValueNum(f, e, p)
  }

  /** n / d == factor * value / 10^p, cross-multiplied. */
  predicate SameValue(n: nat, d: nat, factor: nat, f: nat, e: int, p: int) {
    n * ValueDen(e, p) == factor * ValueNum(f, e, p) * d
  }

  /** A numerator with the larger exponent is a multiple of twice its scale, the denominator of no such number. */
  predicate TieFree(n: nat, en: nat, d: nat, ed: nat) {
    en <= ed || (n % (2 * W(en)) == 0 && d % (2 * W(ed + 1)) != 0)
  }

  lemma NoHiddenTie(a: seq<Word>, ea: nat, d: seq<Word>, ed: nat)
    requires TieFree(Num(a, ea), ea, Num(d, ed), ed)
    ensures !HiddenTie(a, ea, d, ed)
  {
    if HiddenTie(a, ea, d, ed) {
      LeftoverZerosEqual(a, ea, d, ed);
      WAdd(ea - (ed + 1), ed + 1);
      MultipleOfFactor(Num(a, ea), W(ea - (ed + 1)), 2 * W(ed + 1), 2 * W(ea));
    }
  }

  lemma MultipleOfFactor(n: nat, a: nat, b: nat, ab: nat)
    requires a > 0 && b > 0 && ab == a * b && n % ab == 0
    ensures n % b == 0
  {
    var q := n / ab;
    assert n == ab * q == b * (a * q) by { MulAssoc(b, a, q); }
    QuotientUnique(n, b, a * q, 0);
  }

  lemma MultipleTimes(n: nat, m: nat, c: nat)
    requires m > 0 && n % m == 0
    ensures (n * c) % m == 0
  {
    var q := n / m;
    assert n * c == m * (q * c) by { MulAssoc(m, q, c); }
    QuotientUnique(n * c, m, q * c, 0);
  }

  /** Case e >= 0: the numerator carries 2^(e + shift), the denominator only 2^(exp10 + 1). */
  lemma SetupLarge(f: nat, e: nat, shift: nat, exp10: nat, n: nat, d: nat, en: nat, ed: nat)
    requires en == e / 32 && ed == exp10 / 32 && 0 < f && 1 <= shift <= 2 && n == f * Pow(2, shift) * Pow(2, e) && d == Pow(10, exp10) * Pow(2, 1)
    ensures SameValue(n, d, Pow(2, shift - 1), f, e, exp10) && n > 0 && d > 0
    ensures TieFree(n, en, d, ed)
  {
    ProductPositive(f, Pow(2, shift), Pow(2, e));
    ProductPositive(Pow(10, exp10), Pow(2, 1), 1);
    assert Pow(2, shift) == 2 * Pow(2, shift - 1);
    assert ValueDen(e, exp10) == Pow(10, exp10) && ValueNum(f, e, exp10) == f * Pow(2, e);
    SetupLargeArith(f, Pow(2, shift - 1), Pow(2, e), Pow(10, exp10));
    TwoPowerMultiple(f * Pow(2, shift - 1), e);
    assert n == f * Pow(2, shift - 1) * (2 * Pow(2, e)) by {
      Regroup4(f, Pow(2, shift - 1), Pow(2, e));
    }
    if d % (2 * W(exp10 / 32 + 1)) == 0 { TenNotDivisible(exp10, d); }
  }

  lemma ProductPositive(x: nat, y: nat, z: nat)
    requires x > 0 && y > 0 && z > 0
    ensures x * y > 0 && x * y * z > 0 && z * (x * y) > 0
  {
    MulMono(1, x, y);
    MulMono(1, x * y, z);
  }

  lemma SetupLargeArith(f: nat, s: nat, t: nat, w: nat)
    ensures (f * (2 * s) * t) * w == s * (f * t) * (w * 2)
  {
  }

  lemma Regroup4(f: nat, s: nat, t: nat)
    ensures f * (2 * s) * t == f * s * (2 * t)
  {
  }

  lemma TwoPowerMultiple(x: nat, e: nat)
    ensures (x * (2 * Pow(2, e))) % (2 * W(e / 32)) == 0
  {
    var w, r := W(e / 32), Pow(2, e % 32);
    assert Pow(2, e) == w * r by { TwoPowerSplit(e); }
    ScaledMultiple(x, w, r, Pow(2, e));
  }

  lemma ScaledMultiple(x: nat, w: nat, r: nat, t: nat)
    requires w > 0 && t == w * r
    ensures (x * (2 * t)) % (2 * w) == 0
  {
    assert x * (2 * t) == (2 * w) * (x * r);
    QuotientUnique(x * (2 * t), 2 * w, x * r, 0);
  }

  lemma TwoPowerSplit(e: nat)
    ensures Pow(2, e) == W(e / 32) * Pow(2, e % 32)
  {
    Pow2At32();
    WPow(e / 32);
    PowPow(2, 32, e / 32);
    PowAdd(2, 32 * (e / 32), e % 32);
  }

  /** 2 * 10^x has x + 1 factors of two, too few for 2 * W(x / 32 + 1). */
  lemma TenNotDivisible(x: nat, d: nat)
    requires d == Pow(10, x) * Pow(2, 1)
    ensures d % (2 * W(x / 32 + 1)) != 0
  {
    var j := 32 * (x / 32) + 32 - x;
    assert W(x / 32 + 1) == Pow(2, x) * (2 * Pow(2, j - 1)) by {
      WPow(x / 32 + 1);
      Pow2At32();
      PowPow(2, 32, x / 32 + 1);
      PowAdd(2, x, j);
    }
    assert Pow(10, x) == Pow(2, x) * Pow(5, x) by { PowMul(2, 5, x); }
    assert Pow(2, 1) == 2 * Pow(2, 0);
    FiveOdd(x);
    OddPartDecides(Pow(2, x), Pow(5, x), Pow(2, j - 1), d, 2 * W(x / 32 + 1));
  }

  lemma OddPartDecides(t: nat, odd: nat, u: nat, d: nat, m: nat)
    requires t > 0 && u > 0 && odd % 2 == 1 && d == t * odd * 2 && m == 2 * (t * (2 * u))
    ensures m > 0 && d % m != 0
  {
    assert m == (4 * t) * u;
    if d % m == 0 {
      var q := d / m;
      assert d == m * q;
      CancelTwos(t, odd, 2 * u, q);
      assert odd == 2 * (u * q) by { MulAssoc(2, u, q); }
    }
  }

  lemma CancelTwos(t: nat, five: nat, u: nat, q: nat)
    requires t > 0 && (t * five) * 2 == (2 * (t * u)) * q
    ensures five == u * q
  {
    assert t * five == t * (u * q) by { MulAssoc(t, u, q); MulAssoc(2, t * u, q); }
    MulCancel(five, u * q, t);
  }

  lemma {:induction false} FiveOdd(x: nat)
    ensures Pow(5, x) % 2 == 1
  {
    if x > 0 { FiveOdd(x - 1); }
  }

  /** Case e < 0 and exp10 < 0: the denominator is a power of two. */
  lemma SetupSmall(f: nat, e: int, shift: nat, exp10: int, n: nat, d: nat, en: nat, ed: nat)
    requires 0 < f && 1 <= shift <= 2 && e < 0 && exp10 < 0
    requires n == Pow(10, -exp10) * (f * Pow(2, shift)) && d == Pow(2, shift - e)
    ensures SameValue(n, d, 1, f, e, exp10) && n > 0 && d > 0
    ensures en == (-exp10) / 32 && ed == (shift - e) / 32 ==> TieFree(n, en, d, ed)
  {
    ProductPositive(f, Pow(2, shift), Pow(10, -exp10));
    PowAdd(2, shift, -e);
    SetupSmallArith(f, Pow(10, -exp10), Pow(2, shift), Pow(2, -e));
    PowMul(2, 5, -exp10);
    assert Pow(2, shift) == 2 * Pow(2, shift - 1);
    TwoPowerMultiple(Pow(5, -exp10) * f * Pow(2, shift - 1), -exp10);
    assert n == Pow(5, -exp10) * f * Pow(2, shift - 1) * (2 * Pow(2, -exp10)) by {
      Regroup5(Pow(2, -exp10), Pow(5, -exp10), f, Pow(2, shift - 1));
    }
    TwoNotDivisible(shift - e);
  }

  lemma SetupSmallArith(f: nat, t: nat, s: nat, u: nat)
    ensures (t * (f * s)) * (u * 1) == 1 * (f * 1 * t) * (s * u)
  {
  }

  lemma Regroup5(t: nat, v: nat, f: nat, s: nat)
    ensures (t * v) * (f * (2 * s)) == v * f * s * (2 * t)
  {
  }

  lemma TwoNotDivisible(x: nat)
    ensures Pow(2, x) % (2 * W(x / 32 + 1)) != 0
  {
    var w, r := W(x / 32), Pow(2, x % 32);
    assert Pow(2, x) == w * r by { TwoPowerSplit(x); }
    assert r < B by { PowMono(2, x % 32, 31); PowAdd(2, 31, 1); Pow2At32(); }
    MulMono(r, B, w);
    assert 0 < Pow(2, x) <= W(x / 32 + 1);
    QuotientUnique(Pow(2, x), 2 * W(x / 32 + 1), 0, Pow(2, x));
  }

  /** Case e < 0 <= exp10: the numerator has exponent zero. */
  lemma SetupMiddle(f: nat, e: int, shift: nat, exp10: nat, n: nat, d: nat)
    requires 0 < f && 1 <= shift <= 2 && e < 0
    requires n == f * Pow(2, shift) && d == Pow(10, exp10) * Pow(2, shift - e)
    ensures SameValue(n, d, 1, f, e, exp10) && n > 0 && d > 0
  {
    ProductPositive(f, Pow(2, shift), 1);
    ProductPositive(Pow(10, exp10), Pow(2, shift - e), 1);
    PowAdd(2, shift, -e);
    SetupMiddleArith(f, Pow(10, exp10), Pow(2, shift), Pow(2, -e));
  }

  lemma SetupMiddleArith(f: nat, t: nat, s: nat, u: nat)
    ensures (f * s) * (u * t) == 1 * (f * 1 * 1) * (t * (s * u))
  {
  }

  /** numerator / denominator == Factor * value / 10^exp10. */
  method SetUp(f: nat, e: int, predecessorCloser: bool, exp10: int) returns (numerator: Bigint, denominator: Bigint)
    requires 0 < f < 0x4000_0000_0000_0000 && -0x8000_0000 < exp10 < 0x8000_0000 && (e >= 0 ==> exp10 >= 0)
    ensures fresh(numerator) && fresh(denominator) && numerator != denominator
    ensures TopNonzero(numerator.bigits) && TopNonzero(denominator.bigits)
    ensures SameValue(numerator.Value(), denominator.Value(), Factor(e, predecessorCloser), f, e, exp10)
    ensures TieFree(numerator.Value(), numerator.exp, denominator.Value(), denominator.exp)
  {
    numerator := new Bigint();
    denominator := new Bigint();
    var shift := if predecessorCloser then 2 else 1;
    assert Pow(2, 1) == 2 && Pow(2, 2) == 4 by { assert Pow(2, 0) == 1; }
    var significand: Word64 := f * Pow(2, shift);
    if e >= 0 {
      numerator.Assign(significand);
      numerator.ShiftLeft(e);
      denominator.AssignPow10(exp10);
      denominator.ShiftLeft(1);
      SetupLarge(f, e, shift, exp10, numerator.Value(), denominator.Value(), numerator.exp, denominator.exp);
    } else if exp10 < 0 {
      numerator.AssignPow10(-exp10);
      numerator.Multiply64(significand);
      denominator.Assign(1);
      denominator.ShiftLeft(shift - e);
      SetupSmall(f, e, shift, exp10, numerator.Value(), denominator.Value(), numerator.exp, denominator.exp);
    } else {
      numerator.Assign(significand);
      denominator.AssignPow10(exp10);
      denominator.ShiftLeft(shift - e);
      SetupMiddle(f, e, shift, exp10, numerator.Value(), denominator.Value());
    }
    PositiveTop(numerator.bigits, numerator.exp);
    PositiveTop(denominator.bigits, denominator.exp);
  }

  /** What the digit loop keeps of numerator and denominator. */
  ghost predicate Ready(numerator: Bigint, denominator: Bigint)
    reads numerator, denominator
  {
    && numerator != denominator && TopNonzero(denominator.bigits) && Trimmed(numerator.bigits)
    && (numerator.NumBigits() > denominator.NumBigits() ==> TopNonzero(numerator.bigits))
    && TieFree(numerator.Value(), numerator.exp, denominator.Value(), denominator.exp)
  }

  /** One digit: the exact quotient, leaving the remainder. */
  method TakeDigit(numerator: Bigint, denominator: Bigint) returns (digit: nat)
    requires Ready(numerator, denominator) && numerator.Value() < 20 * denominator.Value()
    modifies numerator
    ensures Ready(numerator, denominator)
    ensures old(numerator.Value()) == digit * denominator.Value() + numerator.Value()
    ensures numerator.Value() < denominator.Value() && numerator.NumBigits() <= denominator.NumBigits()
  {
    NumAbove(denominator.bigits, denominator.exp);
    NoHiddenTie(numerator.bigits, numerator.exp, denominator.bigits, denominator.exp);
    digit := numerator.DivModAssign(denominator);
  }

  method TimesTen(numerator: Bigint, denominator: Bigint)
    requires Ready(numerator, denominator) && numerator.NumBigits() <= denominator.NumBigits()
    modifies numerator
    ensures Ready(numerator, denominator) && numerator.Value() == 10 * old(numerator.Value())
  {
    ghost var was := numerator.bigits;
    numerator.Multiply32(10);
    if numerator.exp > denominator.exp {
      MultipleTimes(old(numerator.Value()), 2 * W(numerator.exp), 10);
    }
    if !TopNonzero(was) { ZeroStaysZero(was, numerator.bigits, numerator.exp); }
    if TopNonzero(was) { PositiveValue(was, numerator.exp); PositiveTop(numerator.bigits, numerator.exp); }
  }

  lemma PositiveValue(s: seq<Word>, e: nat)
    requires TopNonzero(s)
    ensures Num(s, e) > 0
  {
    NumAbove(s, e);
  }

  lemma ZeroStaysZero(was: seq<Word>, now: seq<Word>, e: nat)
    requires Trimmed(was) && !TopNonzero(was) && Trimmed(now) && Num(now, e) == Num(was, e) * 10
    ensures now == [0]
  {
    NumProduct(was, e);
    ValOne(0);
    if TopNonzero(now) { NumAbove(now, e); }
  }

  /** The same fraction seen from position p + k. */
  lemma SameValueMoved(n: nat, d: nat, factor: nat, f: nat, e: int, p: int, k: int)
    requires SameValue(n, d, factor, f, e, p)
    ensures SameValue(n * Pow(10, Max0(-k)), d * Pow(10, Max0(k)), factor, f, e, p + k)
  {
    MovePosition(f, e, p, k);
    MovedArith(n, d, factor, ValueNum(f, e, p), ValueDen(e, p), ValueNum(f, e, p + k), ValueDen(e, p + k),
               Pow(10, Max0(-k)), Pow(10, Max0(k)));
  }

  lemma MovedArith(n: nat, d: nat, c: nat, vn: nat, vd: nat, wn: nat, wd: nat, up: nat, down: nat)
    requires vd > 0 && n * vd == c * vn * d && (vn * up) * wd == wn * (vd * down)
    ensures (n * up) * wd == c * wn * (d * down)
  {
    calc {
      ((n * up) * wd) * vd;
      (n * vd) * (up * wd);
      (c * vn * d) * (up * wd);
      (c * d) * ((vn * up) * wd);
      (c * d) * (wn * (vd * down));
      (c * wn * (d * down)) * vd;
    }
    MulCancel((n * up) * wd, c * wn * (d * down), vd);
  }

  lemma CrossCompare(n: nat, d: nat, n': nat, d': nat)
    requires d > 0 && d' > 0 && n * d' == n' * d
    ensures n' < d' <==> n < d
  {
    if n < d { MulMonoStrict(n, d, d'); } else { MulMono(d, n, d'); }
    if n' < d' { MulMonoStrict(n', d', d); } else { MulMono(d', n', d); }
  }

  lemma BelowTwenty(n: nat, d: nat, factor: nat, f: nat, e: int, p: int)
    requires d > 0 && factor <= 2 && SameValue(n, d, factor, f, e, p)
    requires ValueNum(f, e, p + 1) < ValueDen(e, p + 1)
    ensures n < 20 * d
  {
    SameValueMoved(n, d, factor, f, e, p, 1);
    assert Pow(10, 0) == 1 && Pow(10, 1) == 10 * Pow(10, 0);
    var v, w := ValueNum(f, e, p + 1), ValueDen(e, p + 1);
    MulMono(factor, 2, v);
    CrossCompare2(n, 10 * d, factor * v, w);
  }

  lemma CrossCompare2(n: nat, d: nat, n': nat, d': nat)
    requires d > 0 && d' > 0 && n * d' == n' * d && n' < 2 * d'
    ensures n < 2 * d
  {
    if n >= 2 * d { MulMono(2 * d, n, d'); MulMonoStrict(n', 2 * d', d); }
  }

  lemma LargeHasExponent(f: nat, e: int, exp10: int)
    requires f > 0 && ValueNum(f, e, exp10 + 1) < ValueDen(e, exp10 + 1)
    ensures e >= 0 ==> exp10 >= 0
  {
    if e >= 0 && exp10 < 0 { ProductPositive(f, Pow(2, e), Pow(10, Max0(-exp10 - 1))); }
  }

  lemma DigitBelow(digit: nat, d: nat, r: nat, n: nat)
    requires n == digit * d + r && n < 20 * d
    ensures digit < 20 && (n < 10 * d ==> digit < 10)
  {
    if digit >= 20 { MulMono(20, digit, d); }
    if digit >= 10 { MulMono(10, digit, d); }
  }

  /** n, k decimal places on. */
  function Moved(n: nat, k: nat): nat {
    MulMono(0, n, Pow(10, k));
    n * Pow(10, k)
  }

  /** i digits are out: n0 * 10^i == 10 * (their value) * d + n. */
  ghost predicate DigitsTaken(n0: nat, d: nat, digits: seq<char>, n: nat) {
    n0 * Pow(10, |digits|) == 10 * DecVal(digits) * d + n
  }

  lemma DigitTaken(n0: nat, d: nat, digits: seq<char>, n: nat, digit: nat, r: nat, c: char)
    requires DigitsTaken(n0, d, digits, n) && n == digit * d + r && c as int == '0' as int + digit
    ensures DigitsTaken(n0, d, digits + [c], 10 * r)
    ensures n0 * Pow(10, |digits|) == DecVal(digits + [c]) * d + r
  {
    DecValAppend(digits, c);
    var t, v := Pow(10, |digits|), DecVal(digits);
    DigitArith(n0, t, v, d, digit, r);
    assert Pow(10, |digits + [c]|) == 10 * t && DecVal(digits + [c]) == 10 * v + digit;
  }

  lemma DigitArith(n0: int, t: int, v: int, d: int, digit: int, r: int)
    requires n0 * t == 10 * v * d + (digit * d + r)
    ensures n0 * t == (10 * v + digit) * d + r
    ensures n0 * (10 * t) == 10 * (10 * v + digit) * d + 10 * r
  {
    assert n0 * (10 * t) == 10 * (n0 * t);
  }

  /** Digits, the first of which may stand for more than nine. */
  predicate DigitsFrom(s: seq<char>, first: nat) {
    forall i :: 0 <= i < |s| ==> '0' <= s[i] && s[i] as int <= '0' as int + if i == 0 then first else 9
  }

  lemma DigitsFromAppend(s: seq<char>, digit: nat)
    requires DigitsFrom(s, 19) && digit < 20 && (|s| > 0 ==> digit < 10)
    ensures DigitsFrom(s + [(('0' as int) + digit) as char], 19)
  {
  }

  /** A number that rounds up from a last nine to one with ten in front of |t| more digits: the carry leaves '1' for
      the ten and raises the exponent. That is right for an exact ten only, which comes from nines alone. */
  predicate TenInFront(n: nat, d: nat, t: nat)
    requires d > 0
  {
    var q := HalfEven(n, d);
    q * d > n && q % 10 == 0 && 10 * t <= q < 11 * t
  }

  /** The carry keeps the value, except that ten in front becomes one with the exponent raised. */
  method PropagateCarry(digits: seq<char>, exp10In: int) returns (buf: seq<char>, exp10: int)
    requires |digits| > 0 && digits[|digits| - 1] as int == '0' as int + 10
    requires DigitsFrom(digits[..|digits| - 1], 19)
    ensures |buf| == |digits|
    ensures var t, v := Pow(10, |digits| - 1), DecVal(digits);
      && exp10 == exp10In + (if 10 * t <= v < 11 * t then 1 else 0)
      && DecVal(buf) == v - (if 10 * t <= v < 11 * t then 9 * t else 0)
      && (AllDigits(buf) <==> v < 11 * t)
  {
    buf, exp10 := digits, exp10In;
    assert forall k :: 0 <= k < |digits| - 1 ==> digits[k] == digits[..|digits| - 1][k];
    var overflow := (('0' as int) + 10) as char;
    var i := |digits| - 1;
    while i > 0 && buf[i] == overflow
      invariant 0 <= i < |digits| == |buf|
      invariant forall k :: 0 <= k < i ==> '0' <= buf[k] && buf[k] as int <= '0' as int + (if k == 0 then 19 else 9)
      invariant '0' <= buf[i] && buf[i] as int <= '0' as int + (if i == 0 then 20 else 10)
      invariant forall k :: i < k < |buf| ==> buf[k] == '0'
      invariant DecVal(buf) == DecVal(digits)
    {
      CarryKeepsValue(buf, i);
      buf := buf[i := '0'];
      buf := buf[i - 1 := ((buf[i - 1] as int) + 1) as char];
      i := i - 1;
    }
    TenFirst(buf);
    if buf[0] == overflow {
      TenRewritten(buf);
      buf := buf[0 := '1'];
      exp10 := exp10 + 1;
    }
  }

  lemma TenRewritten(s: seq<char>)
    requires |s| > 0 && s[0] as int == '0' as int + 10 && forall k :: 0 < k < |s| ==> '0' <= s[k] <= '9'
    ensures DecVal(s[0 := '1']) == DecVal(s) - 9 * Pow(10, |s| - 1) && AllDigits(s[0 := '1'])
  {
    DecValUpdate(s, 0, '1');
  }

  lemma TenFirst(s: seq<char>)
    requires |s| > 0 && '0' <= s[0] && forall k :: 0 < k < |s| ==> '0' <= s[k] <= '9'
    ensures var t, v := Pow(10, |s| - 1), DecVal(s);
      && (s[0] as int <= '0' as int + 10 <==> v < 11 * t)
      && (s[0] <= '9' <==> v < 10 * t) && (AllDigits(s) <==> v < 10 * t)
  {
    FirstDecides(s, s[0] as int - '0' as int, Pow(10, |s| - 1), DecVal(s));
    assert AllDigits(s) <==> s[0] <= '9';
  }

  lemma FirstDecides(s: seq<char>, c: int, t: int, v: int)
    requires |s| > 0 && (forall k :: 0 < k < |s| ==> '0' <= s[k] <= '9')
    requires c == s[0] as int - '0' as int && t == Pow(10, |s| - 1) && v == DecVal(s)
    ensures (c <= 10 <==> v < 11 * t) && (c <= 9 <==> v < 10 * t)
  {
    assert AllDigits(s[1..]);
    DecValFirst(s);
    FirstIs(c, t, v);
  }

  lemma FirstIs(c: int, t: int, v: int)
    requires t > 0 && c * t <= v < (c + 1) * t
    ensures (c <= 10 <==> v < 11 * t) && (c <= 9 <==> v < 10 * t)
  {
    if c <= 10 { MulMono(c + 1, 11, t); } else { MulMono(11, c, t); }
    if c <= 9 { MulMono(c + 1, 10, t); } else { MulMono(10, c, t); }
  }

  /** numDigits == 0: one character, '1' exactly above one half. */
  method RoundToNothing(numerator: Bigint, denominator: Bigint) returns (buf: seq<char>)
    requires TopNonzero(denominator.bigits) && TopNonzero(numerator.bigits) && numerator != denominator
    modifies denominator
    ensures buf == if 2 * numerator.Value() > 10 * old(denominator.Value()) then "1" else "0"
  {
    ghost var n, d := numerator.Value(), denominator.Value();
    NumAbove(denominator.bigits, denominator.exp);
    denominator.Multiply32(10);
    PositiveTop(denominator.bigits, denominator.exp);
    var order := Bigint.AddCompare(numerator, numerator, denominator);
    buf := [if order > 0 then '1' else '0'];
  }

  /** All digits but the last; a first digit above nine is possible only if the numerator is too large. */
  method LeadingDigits(numerator: Bigint, denominator: Bigint, count: nat) returns (buf: seq<char>)
    requires Ready(numerator, denominator) && numerator.Value() < 20 * denominator.Value()
    modifies numerator
    ensures Ready(numerator, denominator) && |buf| == count
    ensures numerator.Value() < 20 * denominator.Value()
    ensures count > 0 || old(numerator.Value() < 10 * denominator.Value()) ==> numerator.Value() < 10 * denominator.Value()
    ensures DigitsTaken(old(numerator.Value()), denominator.Value(), buf, numerator.Value()) && DigitsFrom(buf, 19)
  {
    ghost var n0, d := numerator.Value(), denominator.Value();
    buf := [];
    var i := 0;
    while i < count
      invariant 0 <= i <= count && |buf| == i && Ready(numerator, denominator)
      invariant numerator.Value() < 20 * d && (i > 0 || n0 < 10 * d ==> numerator.Value() < 10 * d)
      invariant DigitsTaken(n0, d, buf, numerator.Value()) && DigitsFrom(buf, 19)
    {
      ghost var n := numerator.Value();
      var digit := TakeDigit(numerator, denominator);
      DigitBelow(digit, d, numerator.Value(), n);
      DigitTaken(n0, d, buf, n, digit, numerator.Value(), (('0' as int) + digit) as char);
      DigitsFromAppend(buf, digit);
      buf := buf + [(('0' as int) + digit) as char];
      TimesTen(numerator, denominator);
      i := i + 1;
    }
  }

  /** The characters stand for n / d rounded, unless a ten in front of |t| more became one; then they are digits still. */
  predicate Generated(buf: seq<char>, bump: int, n: nat, d: nat, t: nat)
    requires d > 0
  {
    && bump == (if TenInFront(n, d, t) then 1 else 0)
    && DecVal(buf) == HalfEven(n, d) - (if TenInFront(n, d, t) then 9 * t else 0)
    && (AllDigits(buf) <==> HalfEven(n, d) < 10 * t || TenInFront(n, d, t))
  }

  /** numDigits > 0: the characters stand for numerator / denominator rounded, unless a ten in front became one. */
  method GenerateDigits(numerator: Bigint, denominator: Bigint, numDigits: nat, exp10In: int)
    returns (buf: seq<char>, exp10: int)
    requires Ready(numerator, denominator) && numDigits > 0 && 0 < denominator.Value()
    requires numerator.Value() < 20 * denominator.Value()
    modifies numerator
    ensures |buf| == numDigits
    ensures Generated(buf, exp10 - exp10In, Moved(old(numerator.Value()), numDigits - 1), denominator.Value(),
                      Pow(10, numDigits - 1))
  {
    ghost var n0, d := numerator.Value(), denominator.Value();
    buf := LeadingDigits(numerator, denominator, numDigits - 1);
    ghost var n := numerator.Value();
    var digit := TakeDigit(numerator, denominator);
    DigitBelow(digit, d, numerator.Value(), n);
    var result := Bigint.AddCompare(numerator, numerator, denominator);
    var up := result > 0 || (result == 0 && digit % 2 != 0);
    LastDigit(n0, d, buf, n, digit, numerator.Value(), up, (('0' as int) + digit + if up then 1 else 0) as char);
    buf, exp10 := WriteLast(buf, digit, up, exp10In, Moved(n0, numDigits - 1), d);
  }

  /** The last character, with the carry if a nine is rounded up. */
  method WriteLast(prefix: seq<char>, digit: nat, up: bool, exp10In: int, ghost n: nat, ghost d: nat)
    returns (buf: seq<char>, exp10: int)
    requires d > 0 && digit < 20 && (|prefix| > 0 ==> digit < 10) && DigitsFrom(prefix, 19)
    requires var t, v := Pow(10, |prefix|), DecVal(prefix + [(('0' as int) + digit + if up then 1 else 0) as char]);
      v == HalfEven(n, d) && (TenInFront(n, d, t) <==> up && digit == 9 && 10 * t <= v < 11 * t)
    ensures |buf| == |prefix| + 1 && Generated(buf, exp10 - exp10In, n, d, Pow(10, |prefix|))
  {
    exp10 := exp10In;
    buf := prefix + [(('0' as int) + digit + if up then 1 else 0) as char];
    if up && digit == 9 {
      ghost var v := DecVal(buf);
      assert buf[..|buf| - 1] == prefix;
      buf, exp10 := PropagateCarry(buf, exp10);
      CarryGenerated(buf, exp10 - exp10In, v, n, d, Pow(10, |prefix|));
      return;
    }
    TenFirst(buf);
    PlainGenerated(buf, n, d, Pow(10, |prefix|));
  }

  lemma CarryGenerated(buf: seq<char>, bump: int, v: int, n: nat, d: nat, t: nat)
    requires d > 0 && v == HalfEven(n, d) && (TenInFront(n, d, t) <==> 10 * t <= v < 11 * t)
    requires bump == (if 10 * t <= v < 11 * t then 1 else 0) && (AllDigits(buf) <==> v < 11 * t)
    requires DecVal(buf) == v - (if 10 * t <= v < 11 * t then 9 * t else 0)
    ensures Generated(buf, bump, n, d, t)
  {
  }

  lemma PlainGenerated(buf: seq<char>, n: nat, d: nat, t: nat)
    requires d > 0 && DecVal(buf) == HalfEven(n, d) && !TenInFront(n, d, t) && (AllDigits(buf) <==> DecVal(buf) < 10 * t)
    ensures Generated(buf, 0, n, d, t)
  {
  }

  /** The characters with the last one rounded are the value rounded, and a ten comes in front of zeros and digits
      exactly if a last nine is rounded up. */
  lemma LastDigit(n0: nat, d: nat, prefix: seq<char>, n: nat, digit: nat, r: nat, up: bool, last: char)
    requires d > 0 && DigitsTaken(n0, d, prefix, n) && n == digit * d + r && r < d && digit < 20
    requires (|prefix| > 0 ==> digit < 10) && (up <==> 2 * r > d || (2 * r == d && digit % 2 != 0))
    requires last as int == '0' as int + digit + if up then 1 else 0
    ensures var m, t, v := Moved(n0, |prefix|), Pow(10, |prefix|), DecVal(prefix + [last]);
      v == HalfEven(m, d) && (TenInFront(m, d, t) <==> up && digit == 9 && 10 * t <= v < 11 * t)
  {
    LastTaken(n0, d, prefix, n, digit, r);
    DecValAppend(prefix, last);
    LastRounded(Moved(n0, |prefix|), d, DecVal(prefix), digit, r, up, Pow(10, |prefix|));
  }

  lemma LastTaken(n0: nat, d: nat, prefix: seq<char>, n: nat, digit: nat, r: nat)
    requires DigitsTaken(n0, d, prefix, n) && n == digit * d + r && digit < 20
    ensures Moved(n0, |prefix|) == (10 * DecVal(prefix) + digit) * d + r
    ensures |prefix| == 0 ==> DecVal(prefix) == 0 && Pow(10, |prefix|) == 1
  {
    var c := (('0' as int) + digit) as char;
    DigitTaken(n0, d, prefix, n, digit, r, c);
    DecValAppend(prefix, c);
  }

  lemma LastRounded(m: nat, d: nat, w: int, digit: nat, r: nat, up: bool, t: nat)
    requires d > 0 && r < d && m == (10 * w + digit) * d + r && (up <==> 2 * r > d || (2 * r == d && digit % 2 != 0))
    requires digit < 20 && (digit < 10 || (w == 0 && t == 1))
    ensures var v := 10 * w + digit + if up then 1 else 0;
      v == HalfEven(m, d) && (TenInFront(m, d, t) <==> up && digit == 9 && 10 * t <= v < 11 * t)
  {
    var v: int := 10 * w + digit;
    SameParity(v, w, digit);
    RoundByRemainder(m, d, v, r);
    HalfEvenIs(m, d, if up then v + 1 else v);
    assert (v + 1) * d == v * d + d;
    LastNine(w, digit, up);
  }

  lemma LastNine(v: int, digit: nat, up: bool)
    ensures digit < 10 && up ==> ((10 * v + digit + 1) % 10 == 0 <==> digit == 9)
  {
  }

  lemma SameParity(v: int, w: int, digit: int)
    requires v == 10 * w + digit
    ensures v % 2 == digit % 2
  {
    assert v == digit + 2 * (5 * w);
  }

  /** The number that is printed with numDigits characters, in units of the last of them: the rounding of the value or
      its double, with a ten in front read as one of the next position. */
  function Output(doubled: bool, f: nat, e: int, p: int, numDigits: nat): int {
    var n, d := Printed(doubled, f, e, p), ValueDen(e, p);
    if numDigits == 0 then if 2 * n > d then 1 else 0
    else if OutputRaised(doubled, f, e, p, numDigits) then 10 * (HalfEven(n, d) - 9 * Pow(10, numDigits - 1))
    else HalfEven(n, d)
  }

  /** The exponent is one higher. */
  predicate OutputRaised(doubled: bool, f: nat, e: int, p: int, numDigits: nat) {
    numDigits > 0 && TenInFront(Printed(doubled, f, e, p), ValueDen(e, p), Pow(10, numDigits - 1))
  }

  /** All characters are digits. */
  predicate OutputIsDigits(doubled: bool, f: nat, e: int, p: int, numDigits: nat) {
    var n, d := Printed(doubled, f, e, p), ValueDen(e, p);
    numDigits == 0 || HalfEven(n, d) < 10 * Pow(10, numDigits - 1) || OutputRaised(doubled, f, e, p, numDigits)
  }

  method FallbackFormat(f: nat, e: int, predecessorCloser: bool, numDigits: nat, exp10In: int)
    returns (buf: seq<char>, exp10: int)
    requires 0 < f < 0x4000_0000_0000_0000 && -0x8000_0000 < exp10In < 0x8000_0000
    requires ValueNum(f, e, exp10In + 1) < ValueDen(e, exp10In + 1)
    ensures |buf| == if numDigits == 0 then 1 else numDigits
    ensures var doubled, p := HalvedDenominator(e, predecessorCloser), exp10In + 1 - numDigits;
      && exp10 == p + (if OutputRaised(doubled, f, e, p, numDigits) then 1 else 0)
      && DecVal(buf) * (if exp10 == p then 1 else 10) == Output(doubled, f, e, p, numDigits)
      && (AllDigits(buf) <==> OutputIsDigits(doubled, f, e, p, numDigits))
  {
    ghost var doubled, c := HalvedDenominator(e, predecessorCloser), Factor(e, predecessorCloser);
    LargeHasExponent(f, e, exp10In);
    var numerator, denominator := SetUp(f, e, predecessorCloser, exp10In);
    ghost var n0, d := numerator.Value(), denominator.Value();
    NumAbove(denominator.bigits, denominator.exp);
    exp10 := exp10In - (numDigits - 1);
    if numDigits == 0 {
      buf := RoundToNothing(numerator, denominator);
      NothingMoved(n0, d, doubled, f, e, exp10In);
      OneCharacter(buf);
      return;
    }
    BelowTwenty(n0, d, c, f, e, exp10In);
    DigitsMoved(n0, d, doubled, f, e, exp10In, numDigits - 1);
    buf, exp10 := GenerateDigits(numerator, denominator, numDigits, exp10);
  }

  lemma OneCharacter(buf: seq<char>)
    requires buf == "0" || buf == "1"
    ensures DecVal(buf) == (if buf == "1" then 1 else 0) && AllDigits(buf)
  {
    assert buf == [] + [buf[0]];
    DecValAppend([], buf[0]);
  }

  /** numerator / denominator, k places on, is what is printed, k places on. */
  lemma DigitsMoved(n0: nat, d: nat, doubled: bool, f: nat, e: int, exp10: int, k: nat)
    requires d > 0 && SameValue(n0, d, if doubled then 2 else 1, f, e, exp10)
    ensures var n, n', d' := Moved(n0, k), Printed(doubled, f, e, exp10 - k), ValueDen(e, exp10 - k);
      HalfEven(n, d) == HalfEven(n', d') && (TenInFront(n, d, Pow(10, k)) <==> TenInFront(n', d', Pow(10, k)))
  {
    var back: int := 0 - k as int;
    SameValueMoved(n0, d, if doubled then 2 else 1, f, e, exp10, back);
    assert Max0(0 - back) == k && Max0(back) == 0 && Pow(10, 0) == 1;
    SameTen(Moved(n0, k), d, Printed(doubled, f, e, exp10 - k), ValueDen(e, exp10 - k), Pow(10, k));
  }

  lemma SameTen(n: nat, d: nat, n': nat, d': nat, t: nat)
    requires d > 0 && d' > 0 && n * d' == n' * d
    ensures HalfEven(n, d) == HalfEven(n', d') && (TenInFront(n, d, t) <==> TenInFront(n', d', t))
  {
    SameHalfEven(n, d, n', d');
    AboveSame(n, d, n', d', HalfEven(n, d));
  }

  lemma AboveSame(n: nat, d: nat, n': nat, d': nat, q: nat)
    requires d > 0 && d' > 0 && n * d' == n' * d
    ensures q * d > n <==> q * d' > n'
  {
    MulSwap(q, d, 1, d');
    if q * d > n { MulMonoStrict(n, q * d, d'); } else { MulMono(q * d, n, d'); }
    if q * d' > n' { MulMonoStrict(n', q * d', d); } else { MulMono(q * d', n', d); }
    assert (q * d) * d' == (q * d') * d;
  }

  lemma NothingMoved(n0: nat, d: nat, doubled: bool, f: nat, e: int, exp10: int)
    requires d > 0 && SameValue(n0, d, if doubled then 2 else 1, f, e, exp10)
    ensures 2 * n0 > 10 * d <==> 2 * Printed(doubled, f, e, exp10 + 1) > ValueDen(e, exp10 + 1)
  {
    SameValueMoved(n0, d, if doubled then 2 else 1, f, e, exp10, 1);
    assert Pow(10, 0) == 1 && Pow(10, 1) == 10 * Pow(10, 0);
    HalfCompared(n0, 10 * d, Printed(doubled, f, e, exp10 + 1), ValueDen(e, exp10 + 1));
  }

  lemma HalfCompared(n: nat, d: nat, n': nat, d': nat)
    requires d > 0 && d' > 0 && n * d' == n' * d
    ensures 2 * n > d <==> 2 * n' > d'
  {
    if n == 0 || n' == 0 { MulCancel(n', 0, d); } else { CrossCompare(d, 2 * n, d', 2 * n'); }
  }

  /** Doubling goes unnoticed: the value is next to nothing, or just above one half, in units of the last character. */
  predicate DoublingHidden(v: nat, d: nat, numDigits: nat) {
    4 * v <= d || (d < 2 * v && (numDigits == 0 || 4 * v < 3 * d))
  }

  /** The output is the value, rounded, exactly if the denominator was not halved or the doubling does not show. */
  lemma ExactUnlessHalved(f: nat, e: int, predecessorCloser: bool, numDigits: nat, exp10In: int)
    requires 0 < f && ValueNum(f, e, exp10In + 1) < ValueDen(e, exp10In + 1)
    ensures var doubled, p := HalvedDenominator(e, predecessorCloser), exp10In + 1 - numDigits;
      var v, d := ValueNum(f, e, p), ValueDen(e, p);
      OutputIsDigits(doubled, f, e, p, numDigits) && RoundedHalfEven(v, d, Output(doubled, f, e, p, numDigits))
      <==> !doubled || DoublingHidden(v, d, numDigits)
  {
    var doubled, p := HalvedDenominator(e, predecessorCloser), exp10In + 1 - numDigits;
    var v: int, d: int := ValueNum(f, e, p), ValueDen(e, p);
    BelowMany(f, e, p, numDigits);
    if numDigits == 0 {
      NothingRight(v, d, doubled);
    } else {
      assert Pow(10, numDigits) == 10 * Pow(10, numDigits - 1);
      if doubled { DoubledRight(v, d, Pow(10, numDigits - 1)); } else { PlainRight(v, d, Pow(10, numDigits - 1)); }
    }
  }

  /** A value below 10^(p + k) is below 10^k units of position p. */
  lemma BelowMany(f: nat, e: int, p: int, k: nat)
    requires ValueNum(f, e, p + k) < ValueDen(e, p + k)
    ensures ValueNum(f, e, p) < Pow(10, k) * ValueDen(e, p)
  {
    MovePosition(f, e, p, k);
    assert Max0(0 - k as int) == 0 && Max0(k) == k && Pow(10, 0) == 1;
    BelowManyArith(ValueNum(f, e, p), ValueDen(e, p), Pow(10, k), ValueNum(f, e, p + k), ValueDen(e, p + k));
  }

  lemma BelowManyArith(n: nat, d: nat, t: nat, n': nat, d': nat)
    requires d > 0 && t > 0 && n' < d' && n * d' == n' * (d * t)
    ensures n < t * d
  {
    MulMono(1, t, d);
    CrossCompare(n, d * t, n', d');
  }

  lemma NothingRight(v: nat, d: nat, doubled: bool)
    requires d > 0 && v < d
    ensures RoundedHalfEven(v, d, if 2 * (if doubled then 2 * v else v) > d then 1 else 0)
       <==> !doubled || DoublingHidden(v, d, 0)
  {
  }

  lemma PlainRight(v: nat, d: nat, t: nat)
    requires d > 0 && t > 0 && v < 10 * t * d
    ensures HalfEven(v, d) < 10 * t || TenInFront(v, d, t)
    ensures TenInFront(v, d, t) ==> HalfEven(v, d) == 10 * (HalfEven(v, d) - 9 * t)
  {
    RoundingBounds(v, d, 10 * t, HalfEven(v, d));
  }

  lemma DoubledRight(v: nat, d: nat, t: nat)
    requires d > 0 && t > 0 && v < 10 * t * d
    ensures var q := HalfEven(2 * v, d);
      (q < 10 * t || TenInFront(2 * v, d, t)) && RoundedHalfEven(v, d, if TenInFront(2 * v, d, t) then 10 * (q - 9 * t) else q)
      <==> DoublingHidden(v, d, 1)
  {
    if 2 * v < 10 * t * d {
      PlainRight(2 * v, d, t);
      DoublingSame(v, d, HalfEven(2 * v, d));
    } else {
      NeverRight(v, d, t, HalfEven(2 * v, d));
    }
  }

  /** A double with a digit too many: no digit in front, or a number far above the value. */
  lemma NeverRight(v: nat, d: nat, t: nat, q: int)
    requires d > 0 && t > 0 && 10 * t * d <= 2 * v && q == HalfEven(2 * v, d)
    ensures q >= 10 * t && !DoublingHidden(v, d, 1)
    ensures TenInFront(2 * v, d, t) ==> !RoundedHalfEven(v, d, 10 * (q - 9 * t))
  {
    RoundingBounds(2 * v, d, 10 * t, q);
    assert 10 * d <= 2 * v by { MulMono(10, 10 * t, d); }
    if TenInFront(2 * v, d, t) { TooLarge(v, d, t, q); }
  }

  lemma DoublingSame(v: nat, d: nat, q: int)
    requires d > 0 && RoundedHalfEven(2 * v, d, q)
    ensures RoundedHalfEven(v, d, q) <==> DoublingHidden(v, d, 1)
  {
    RoundingBounds(2 * v, d, 0, q);
    RoundingBounds(2 * v, d, 1, q);
    if q >= 2 { MulMono(2, q, d); }
  }

  lemma TooLarge(v: nat, d: nat, t: nat, q: int)
    requires d > 0 && t > 0 && 2 * v < q * d + d && 10 * t <= q < 11 * t
    ensures 2 * (10 * (q - 9 * t) * d - v) > d
  {
    assert q * d + d <= 11 * (t * d) by { MulMono(q + 1, 11 * t, d); }
    assert (10 * (q - 9 * t)) * d >= 10 * (t * d) by { MulMono(10 * t, 10 * (q - 9 * t), d); }
    MulMono(1, t, d);
  }

  lemma ExamplePowers()
    ensures Pow(2, 0) == 1 && Pow(2, 1) == 2 && Pow(2, 50) == 0x4_0000_0000_0000 && Pow(10, 0) == 1
    ensures Pow(10, 11) == 1000_0000_0000 && Pow(10, 15) == 1000_0000_0000_0000 && Pow(10, 16) == 1_0000_0000_0000_0000
    ensures Pow(10, 19) == 1000_0000_0000_0000_0000 && Pow(10, 31) == 1000_0000_0000_0000_0000_0000_0000_0000
  {
    assert Pow(2, 5) == 32;
    assert Pow(2, 10) == 0x400 by { PowAdd(2, 5, 5); }
    assert Pow(2, 20) == 0x10_0000 by { PowAdd(2, 10, 10); }
    assert Pow(2, 40) == 0x100_0000_0000 by { PowAdd(2, 20, 20); }
    PowAdd(2, 40, 10);
    assert Pow(10, 3) == 1000;
    assert Pow(10, 4) == 10000;
    assert Pow(10, 8) == 1_0000_0000 by { PowAdd(10, 4, 4); }
    assert Pow(10, 11) == 1000_0000_0000 by { PowAdd(10, 8, 3); }
    assert Pow(10, 15) == 1000_0000_0000_0000 by { PowAdd(10, 11, 4); }
    assert Pow(10, 16) == 1_0000_0000_0000_0000;
    assert Pow(10, 19) == 1000_0000_0000_0000_0000 by { PowAdd(10, 15, 4); }
    assert Pow(10, 27) == 1000_0000_0000_0000_0000_0000_0000 by { PowAdd(10, 19, 8); }
    PowAdd(10, 27, 4);
  }

  lemma ExampleOutput()
    ensures OutputRaised(true, 0x10_0000_0000_0000, 50, 11, 20)
    ensures Output(true, 0x10_0000_0000_0000, 50, 11, 20) == 10 * 11412048018258352120
  {
    ExamplePowers();
    assert Printed(true, 0x10_0000_0000_0000, 50, 11) == 0x80_0000_0000_0000_0000_0000_0000;
    assert ValueDen(50, 11) == 1000_0000_0000;
    HalfEvenIs(0x80_0000_0000_0000_0000_0000_0000, 1000_0000_0000, 101412048018258352120);
  }

  /** Three powers of two, whose predecessors are closer. 2^52 with sixteen digits: twice the value comes out. 2^53 with
      sixteen: the double has seventeen digits and the first character is no digit. 2^102 with twenty: all digits, and
      neither the value nor its double. */
  method HalvedDenominatorExample() returns (first: seq<char>, second: seq<char>, third: seq<char>, exp10: int)
    ensures AllDigits(first) && DecVal(first) == 2 * 0x10_0000_0000_0000
    ensures !AllDigits(second) && DecVal(second) == 2 * 0x20_0000_0000_0000 && |second| == 16
    ensures AllDigits(third) && |third| == 20 && DecVal(third) == 11412048018258352120 && exp10 == 12
  {
    ExamplePowers();
    first, exp10 := FallbackFormat(0x10_0000_0000_0000, 0, true, 16, 15);
    second, exp10 := FallbackFormat(0x10_0000_0000_0000, 1, true, 16, 15);
    third, exp10 := FallbackFormat(0x10_0000_0000_0000, 50, true, 20, 30);
    ExampleOutput();
  }
}

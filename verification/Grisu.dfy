/** Grisu digit generation with error tracking, and the fixed-precision handler that decides the rounding. */
module Grisu {
  import opened Powers
  import opened Rounding
  import opened Words


  datatype RoundDirection = Unknown | RoundUp | RoundDown
  datatype DigitsResult = More | Done | Error

  /** Whether a number with this remainder, known up to error, rounds up or down; every operation fits 64 bits. */
  function GetRoundDirection(divisor: Word64, remainder: Word64, error: Word64): (r: RoundDirection)
    requires remainder < divisor && error < divisor && error < divisor - error
    ensures r == RoundDown <==> 2 * (remainder + error) <= divisor
    ensures r == RoundUp <==> 2 * (remainder + error) > divisor && 2 * (remainder - error) >= divisor
  {
    var rest: Word64 := divisor - remainder;
    if remainder <= rest && (error * 2) as Word64 <= (divisor - remainder * 2) as Word64 then RoundDown
    else if remainder >= error && ((remainder - error) as Word64) >= (divisor - (remainder - error)) as Word64 then RoundUp
    else Unknown
  }

  /** The error is small enough to tell on which side of one half the remainder is. */
  predicate Decides(divisor: int, remainder: int, error: int) {
    error < divisor - error && (2 * (remainder + error) <= divisor || 2 * (remainder - error) >= divisor)
  }

  /** The true value tn / td lies strictly within one unit of the approximation f. */
  predicate Within(tn: nat, td: nat, f: nat) {
    td > 0 && tn - f * td < td && f * td - tn < td
  }

  /** Every true value within one unit of f, over one * 10^exp, rounds to q, and none is half way. */
  ghost predicate Decided(f: nat, one: nat, exp: int, q: int) {
    forall tn: nat, td: nat :: Within(tn, td, f) ==>
      RoundedHalfEven(tn * Pow(10, Max0(-exp)), td * (one * Pow(10, Max0(exp))), q)
  }

  /** f * 10^k == digits * unit + remainder, with the error grown to 10^k: a direction decides for every true value. */
  lemma DirectionDecides(f: nat, one: nat, exp: int, digits: int, remainder: nat, up: bool)
    requires one > 0
    requires var unit, k := one * Pow(10, Max0(exp)), Pow(10, Max0(-exp));
      && f * k == digits * unit + remainder && remainder < unit && 2 * k < unit
      && if up then 2 * (remainder - k) >= unit else 2 * (remainder + k) <= unit
    ensures Decided(f, one, exp, if up then digits + 1 else digits)
  {
    var unit, k := one * Pow(10, Max0(exp)), Pow(10, Max0(-exp));
    forall tn: nat, td: nat | Within(tn, td, f)
      ensures RoundedHalfEven(tn * k, td * unit, if up then digits + 1 else digits)
    {
      TrueRemainder(tn, td, f, k, digits, unit, remainder);
      ScaledHalf(tn * k - digits * (td * unit), td, remainder, k, unit, up);
      assert (digits + 1) * (td * unit) == digits * (td * unit) + td * unit;
    }
  }

  lemma TrueRemainder(tn: nat, td: nat, f: nat, k: nat, digits: int, unit: nat, r: nat)
    requires Within(tn, td, f) && k > 0 && f * k == digits * unit + r
    ensures -(k * td) < tn * k - digits * (td * unit) - r * td < k * td
  {
    MulMonoStrict(tn - f * td, td, k);
    MulMonoStrict(f * td - tn, td, k);
    calc {
      (tn - f * td) * k;
      tn * k - (f * k) * td;
      tn * k - (digits * unit + r) * td;
      tn * k - digits * (td * unit) - r * td;
    }
  }

  lemma ScaledHalf(rho: int, td: nat, r: nat, k: nat, unit: nat, up: bool)
    requires td > 0 && -(k * td) < rho - r * td < k * td && 2 * k < unit && r < unit
    requires if up then 2 * (r - k) >= unit else 2 * (r + k) <= unit
    ensures !up ==> 2 * rho < td * unit && 2 * (-rho) < td * unit
    ensures up ==> 2 * (rho - td * unit) < td * unit && 2 * (td * unit - rho) < td * unit
  {
    MulDistrib(td, r, k);
    var minus: int := 0 - k as int;
    MulDistrib(td, r, minus);
    MulMono(2 * k, unit, td);
    MulMono(r, unit, td);
    if up { MulMono(unit, 2 * (r - k), td); } else { MulMono(2 * (r + k), unit, td); }
  }

  /** The fixed precision digit handler; buf holds the digits written so far. */
  class FixedHandler {
    var buf: seq<char>
    var precision: int
    var exp10: int
    const isFixed: bool

    constructor (precision: int, exp10: int, isFixed: bool)
      ensures this.buf == [] && this.precision == precision && this.exp10 == exp10 && this.isFixed == isFixed
    {
      this.buf, this.precision, this.exp10, this.isFixed := [], precision, exp10, isFixed;
    }

    /** Fixed formats count precision from the decimal point: a precision used up by leading zeros ends here. */
    method OnStart(divisor: Word64, remainder: Word64, error: Word64, exp: int) returns (r: DigitsResult)
      requires remainder < divisor && error < divisor - error && buf == []
      modifies this`buf, this`precision
      ensures precision == if isFixed then old(precision) + exp + exp10 else old(precision)
      ensures r == More ==> buf == [] && (isFixed ==> precision > 0)
      ensures r == Done ==> isFixed && precision <= 0 && (precision < 0 ==> buf == [])
      ensures r == Error ==> isFixed && precision == 0 && buf == []
      ensures r == Error <==> isFixed && precision == 0 && 2 * (remainder + error) > divisor && 2 * (remainder - error) < divisor
      ensures r == More <==> !isFixed || precision > 0
      ensures r == Done && precision == 0 ==>
        (buf == "1" && 2 * (remainder - error) >= divisor) || (buf == "0" && 2 * (remainder + error) <= divisor)
    {
      if !isFixed { return More; }
      precision := precision + exp + exp10;
      if precision > 0 { return More; }
      if precision < 0 { return Done; }
      var dir := GetRoundDirection(divisor, remainder, error);
      if dir == Unknown { return Error; }
      buf := buf + [if dir == RoundUp then '1' else '0'];
      return Done;
    }

    /** One more digit; on the last one the tracked error decides between the two roundings or gives up. */
    method OnDigit(digit: char, divisor: Word64, remainder: Word64, error: Word64, integral: bool)
      returns (r: DigitsResult, ghost up: bool)
      requires remainder < divisor && AllDigits(buf) && '0' <= digit <= '9'
      requires integral ==> error == 1 && divisor > 2
      modifies this`buf, this`exp10
      ensures AllDigits(buf) && (r != Done ==> buf == old(buf) + [digit] && exp10 == old(exp10))
      ensures r == More <==> |old(buf)| + 1 < precision && (integral || error < remainder)
      ensures r == Error <==>
        (!integral && error >= remainder) || (|old(buf)| + 1 >= precision && !Decides(divisor, remainder, error))
      ensures r == Done ==> |old(buf)| + 1 >= precision && error < divisor - error
      ensures r == Done ==> if up then 2 * (remainder - error) >= divisor else 2 * (remainder + error) <= divisor
      ensures r == Done ==> (exp10 == old(exp10) || (!isFixed && exp10 == old(exp10) + 1))
      ensures r == Done ==> |buf| == |old(buf)| + 1 || (isFixed && |buf| == |old(buf)| + 2)
      ensures r == Done ==>
        DecVal(buf) * (if exp10 == old(exp10) then 1 else 10) == DecVal(old(buf) + [digit]) + (if up then 1 else 0)
    {
      up := false;
      buf := buf + [digit];
      if !integral && error >= remainder { return Error, up; }
      if |buf| < precision { return More, up; }
      if !integral && (error >= divisor || error >= divisor - error) { return Error, up; }
      var dir := GetRoundDirection(divisor, remainder, error);
      if dir != RoundUp {
        return if dir == RoundDown then Done else Error, up;
      }
      up := true;
      IncrementLast();
      return Done, up;
    }

    /** Adds one to the last digit and carries; a carry out of the first digit lengthens the number or moves exp10. */
    method IncrementLast()
      requires AllDigits(buf) && |buf| > 0
      modifies this`buf, this`exp10
      ensures AllDigits(buf) && (exp10 == old(exp10) || (!isFixed && exp10 == old(exp10) + 1))
      ensures |buf| == |old(buf)| || (isFixed && |buf| == |old(buf)| + 1)
      ensures DecVal(old(buf)) + 1 == DecVal(buf) * (if exp10 == old(exp10) then 1 else 10)
    {
      ghost var was := buf;
      var last := |buf| - 1;
      DecValUpdate(buf, last, ((buf[last] as int) + 1) as char);
      buf := buf[last := ((buf[last] as int) + 1) as char];
      CarryNines(DecVal(was) + 1);
      if buf[0] > '9' {
        CarryOut(buf);
        buf := buf[0 := '1'];
        if isFixed {
          buf := buf + ['0'];
        } else {
          exp10 := exp10 + 1;
        }
      }
    }

    /** The loop that moves a ten in the last place up, over all nines. */
    method CarryNines(ghost value: int)
      requires |buf| > 0 && DecVal(buf) == value && AllDigits(buf[..|buf| - 1])
      requires '0' <= buf[|buf| - 1] && buf[|buf| - 1] as int <= '0' as int + 10
      modifies this`buf
      ensures |buf| == |old(buf)| && DecVal(buf) == value
      ensures AllDigits(buf) || (buf[0] as int == '0' as int + 10 && forall k :: 0 < k < |buf| ==> buf[k] == '0')
    {
      var i := |buf| - 1;
      assert forall k :: 0 <= k < i ==> buf[k] == buf[..i][k];
      while i > 0 && buf[i] > '9'
        invariant 0 <= i < |buf| == |old(buf)|
        invariant forall k :: 0 <= k < i ==> '0' <= buf[k] <= '9'
        invariant '0' <= buf[i] && buf[i] as int <= '0' as int + 10
        invariant forall k :: i < k < |buf| ==> buf[k] == '0'
        invariant DecVal(buf) == value
      {
        CarryKeepsValue(buf, i);
        buf := buf[i := '0'];
        buf := buf[i - 1 := ((buf[i - 1] as int) + 1) as char];
        i := i - 1;
      }
    }
  }

  function DigitChar(d: nat): (c: char)
    requires d < 10
    ensures '0' <= c <= '9' && c as int == '0' as int + d
  {
    (('0' as int) + d) as char
  }

  /** Number of decimal digits. */
  function CountDigits(n: nat): (k: nat)
    requires n > 0
    ensures k > 0 && Pow(10, k - 1) <= n < Pow(10, k)
  {
    if n < 10 then assert Pow(10, 1) == 10 * Pow(10, 0); 1 else 1 + CountDigits(n / 10)
  }

  lemma AtMostTenDigits(n: nat)
    requires 0 < n < 0x1_0000_0000
    ensures CountDigits(n) <= 10
  {
    var k := CountDigits(n);
    assert Pow(10, 5) == 100000;
    PowAdd(10, 5, 5);
    if k > 10 { PowMono(10, 10, k - 1); }
  }

  /** A value below 10^kappa, seen from beyond the next position, rounds to zero. */
  lemma LeadingZerosDecided(f: nat, one: nat, kappa: nat, position: int)
    requires f < Pow(10, kappa) * one && position > kappa && one > 0
    ensures Decided(f, one, position, 0)
  {
    PowMono(10, kappa + 1, position);
    var t, u := Pow(10, kappa) * one, one * Pow(10, position);
    assert 10 * t <= u by { MulMono(10 * Pow(10, kappa), Pow(10, position), one); }
    forall tn: nat, td: nat | Within(tn, td, f)
      ensures RoundedHalfEven(tn * Pow(10, Max0(-position)), td * u, 0)
    {
      BelowTenth(tn, td, f, t, u);
    }
  }

  lemma BelowTenth(tn: nat, td: nat, f: nat, t: nat, u: nat)
    requires Within(tn, td, f) && f < t && 10 * t <= u
    ensures 2 * tn < td * u
  {
    MulMono(f + 1, t, td);
    MulMono(10 * t, u, td);
  }

  /** Rounding to one digit at position kappa, on tenths of the value with ten units of error. */
  lemma StartDecides(f: nat, one: nat, kappa: nat, up: bool)
    requires kappa > 0 && one > 4 && f < Pow(10, kappa) * one
    requires var tenth := Pow(10, kappa - 1) * one; if up then 2 * (f / 10 - 10) >= tenth else 2 * (f / 10 + 10) <= tenth
    ensures Decided(f, one, kappa, if up then 1 else 0)
  {
    var unit := one * Pow(10, kappa);
    assert unit == 10 * (Pow(10, kappa - 1) * one);
    MulMono(1, Pow(10, kappa), one);
    DirectionDecides(f, one, kappa, 0, f, up);
  }

  /** The state of the integral loop: the digits so far, and what is left of the value. */
  ghost predicate IntegralState(f: nat, one: nat, exp: nat, digits: seq<char>, integral: nat, fractional: nat) {
    && AllDigits(digits) && integral < Pow(10, exp) && fractional < one
    && f == DecVal(digits) * (one * Pow(10, exp)) + integral * one + fractional
  }

  lemma IntegralStep(f: nat, one: nat, exp: nat, digits: seq<char>, integral: nat, fractional: nat,
                     q: nat, rest: nat)
    requires IntegralState(f, one, exp + 1, digits, integral, fractional) && one > 0
    requires integral == q * Pow(10, exp) + rest && rest < Pow(10, exp)
    ensures q < 10 && IntegralState(f, one, exp, digits + [DigitChar(q)], rest, fractional)
    ensures var remainder, unit := rest * one + fractional, one * Pow(10, exp);
      0 <= remainder < unit && f == DecVal(digits + [DigitChar(q)]) * unit + remainder
  {
    var t := Pow(10, exp);
    assert Pow(10, exp + 1) == 10 * t;
    DigitBelowTen(q, t, rest);
    DecValAppend(digits, DigitChar(q));
    IntegralArith(DecVal(digits), one, t, integral, q, rest);
    LowPartBelow(rest, t, one, fractional);
  }

  lemma DigitBelowTen(q: nat, t: nat, rest: nat)
    requires q * t + rest < 10 * t
    ensures q < 10
  {
    if q >= 10 { MulMono(10, q, t); }
  }

  lemma LowPartBelow(rest: nat, t: nat, one: nat, fractional: nat)
    requires rest < t && fractional < one
    ensures 0 <= rest * one && rest * one + fractional < one * t
  {
    MulMono(rest + 1, t, one);
    MulMono(0, rest, one);
  }

  lemma IntegralArith(v: int, one: int, t: int, integral: int, q: int, r: int)
    requires integral == q * t + r
    ensures v * (one * (10 * t)) + integral * one == (10 * v + q) * (one * t) + r * one
  {
    calc {
      integral * one;
      q * (one * t) + r * one;
    }
    assert v * (one * (10 * t)) == (10 * v) * (one * t);
  }

  /** The state of the fractional loop after k = -exp fractional digits. */
  ghost predicate FractionalState(f: nat, one: nat, k: nat, digits: seq<char>, fractional: nat) {
    AllDigits(digits) && fractional < one && f * Pow(10, k) == DecVal(digits) * one + fractional
  }

  lemma FractionalStep(f: nat, one: nat, k: nat, digits: seq<char>, fractional: nat, q: nat, rest: nat)
    requires FractionalState(f, one, k, digits, fractional)
    requires fractional * 10 == q * one + rest && rest < one
    ensures q < 10 && FractionalState(f, one, k + 1, digits + [DigitChar(q)], rest)
  {
    DigitBelowTen(q, one, rest);
    DecValAppend(digits, DigitChar(q));
    FractionalArith(f, Pow(10, k), DecVal(digits), one, fractional, q, rest);
  }

  lemma FractionRest(f: nat, one: nat, k: nat, digits: seq<char>, fractional: nat)
    requires FractionalState(f, one, k, digits, fractional)
    ensures f * Pow(10, k) % one == fractional
  {
    QuotientUnique(f * Pow(10, k), one, DecVal(digits), fractional);
  }

  lemma FractionalArith(f: int, t: int, v: int, one: int, fractional: int, q: int, rest: int)
    requires f * t == v * one + fractional && fractional * 10 == q * one + rest
    ensures f * (10 * t) == (10 * v + q) * one + rest
  {
    assert f * (10 * t) == 10 * (f * t);
  }

  /** x == quotient * divisor + rest */
  method DivMod(x: Word64, divisor: Word64) returns (quotient: Word64, rest: Word64)
    requires divisor > 0
    ensures x == quotient * divisor + rest && rest < divisor && quotient == x / divisor
  {
    ghost var q := x / divisor;
    if q > 0 { MulMono(1, divisor, q); }
    quotient, rest := x / divisor, x % divisor;
  }

  /** Whether generating precision digits of a number with kappa integral digits ends without a decision: in front of
      all digits, at a digit of the integral part, or in the fractional part. */
  predicate GivesUp(f: nat, one: nat, kappa: nat, isFixed: bool, precision: int)
    requires kappa > 0 && one > 0
  {
    if isFixed && precision <= 0 then precision == 0 && !Decides(Pow(10, kappa - 1) * one, f / 10, 10)
    else
      var places := if precision > 1 then precision else 1;
      if places <= kappa then IntegralUndecided(f, one, kappa - places) else FractionGivesUp(f, one, 1, places - kappa)
  }

  /** At position exp of the integral part, what is left is too close to one half. */
  predicate IntegralUndecided(f: nat, one: nat, exp: nat)
    requires one > 0
  {
    ProductAtLeastOne(one, Pow(10, exp));
    !Decides(one * Pow(10, exp), f % (one * Pow(10, exp)), 1)
  }

  lemma ProductAtLeastOne(x: nat, y: nat)
    requires x > 0 && y > 0
    ensures x * y > 0
  {
    MulMono(1, x, y);
  }

  /** From the fractional digit k to the last: the error outgrows what is left, or does not decide at the end. */
  predicate FractionGivesUp(f: nat, one: nat, k: nat, last: nat)
    requires 0 < k <= last && one > 0
    decreases last - k
  {
    var rest := f * Pow(10, k) % one;
    Pow(10, k) >= rest || (if k < last then FractionGivesUp(f, one, k + 1, last) else !Decides(one, rest, Pow(10, k)))
  }

  /** What every way out of the digit generator promises. */
  ghost predicate Outcome(r: DigitsResult, f: nat, one: nat, kappa: nat, exp: int, digits: seq<char>,
                          isFixed: bool, precision: int, bumped: bool)
    requires kappa > 0 && one > 0
  {
    var places := if isFixed || precision > 1 then precision else 1;
    && AllDigits(digits) && r != More && (r == Error <==> GivesUp(f, one, kappa, isFixed, precision))
    && (r == Error ==> exp == kappa - |digits|)
    && (r == Done ==> exp == (if places < 0 then kappa else kappa - places) && (places < 0 ==> digits == []))
    && (r == Done ==> Decided(f, one, kappa - places, DecVal(digits) * if bumped then 10 else 1))
  }

  /** The last digit was taken at position exp and the error allowed a direction. */
  lemma DigitOutcome(f: nat, one: nat, kappa: nat, exp: int, before: seq<char>, c: char, remainder: nat, up: bool,
                     digits: seq<char>, isFixed: bool, precision: int, bumped: bool)
    requires one > 0 && kappa > 0 && AllDigits(digits) && |before| + 1 == kappa - exp && |before| + 1 >= precision
    requires |before| > 0 ==> |before| < precision
    requires (isFixed ==> precision > 0) && !GivesUp(f, one, kappa, isFixed, precision)
    requires f * Pow(10, Max0(-exp)) == DecVal(before + [c]) * (one * Pow(10, Max0(exp))) + remainder
    requires remainder < one * Pow(10, Max0(exp)) && 2 * Pow(10, Max0(-exp)) < one * Pow(10, Max0(exp))
    requires var k, unit := Pow(10, Max0(-exp)), one * Pow(10, Max0(exp));
      if up then 2 * (remainder - k) >= unit else 2 * (remainder + k) <= unit
    requires DecVal(digits) * (if bumped then 10 else 1) == DecVal(before + [c]) + (if up then 1 else 0)
    ensures Outcome(Done, f, one, kappa, exp, digits, isFixed, precision, bumped)
  {
    DirectionDecides(f, one, exp, DecVal(before + [c]), remainder, up);
  }

  /** The last digit, with exp integral digits still to come. */
  lemma IntegralOutcome(r: DigitsResult, f: nat, one: nat, kappa: nat, exp: int, before: seq<char>, c: char, unit: int,
                        remainder: int, up: bool, digits: seq<char>, isFixed: bool, precision: int, bumped: bool)
    requires one > 0 && kappa > exp >= 0 && AllDigits(digits) && |before| + 1 == kappa - exp && |before| + 1 >= precision
    requires (|before| > 0 ==> |before| < precision) && (isFixed ==> precision > 0)
    requires unit == one * Pow(10, exp) > 2 && f == DecVal(before + [c]) * unit + remainder && 0 <= remainder < unit
    requires if r == Error then !Decides(unit, remainder, 1) && |digits| == |before| + 1
      else r == Done && Decides(unit, remainder, 1)
    requires r == Done ==> if up then 2 * (remainder - 1) >= unit else 2 * (remainder + 1) <= unit
    requires r == Done ==> DecVal(digits) * (if bumped then 10 else 1) == DecVal(before + [c]) + (if up then 1 else 0)
    ensures Outcome(r, f, one, kappa, exp, digits, isFixed, precision, bumped)
  {
    IntegralGivesUp(f, one, kappa, exp, DecVal(before + [c]), unit, remainder, isFixed, precision);
    if r == Done {
      IntegralDone(f, one, kappa, exp, before, c, unit, remainder, up, digits, isFixed, precision, bumped);
    }
  }

  lemma IntegralDone(f: nat, one: nat, kappa: nat, exp: int, before: seq<char>, c: char, unit: int, remainder: int,
                     up: bool, digits: seq<char>, isFixed: bool, precision: int, bumped: bool)
    requires one > 0 && kappa > exp >= 0 && AllDigits(digits) && |before| + 1 == kappa - exp && |before| + 1 >= precision
    requires (|before| > 0 ==> |before| < precision) && (isFixed ==> precision > 0)
    requires unit == one * Pow(10, exp) > 2 && f == DecVal(before + [c]) * unit + remainder && 0 <= remainder < unit
    requires !GivesUp(f, one, kappa, isFixed, precision)
    requires if up then 2 * (remainder - 1) >= unit else 2 * (remainder + 1) <= unit
    requires DecVal(digits) * (if bumped then 10 else 1) == DecVal(before + [c]) + (if up then 1 else 0)
    ensures Outcome(Done, f, one, kappa, exp, digits, isFixed, precision, bumped)
  {
    hide GivesUp, Outcome, DecVal;
    assert Max0(-exp) == 0 && Max0(exp) == exp && Pow(10, 0) == 1;
    DigitOutcome(f, one, kappa, exp, before, c, remainder, up, digits, isFixed, precision, bumped);
  }

  lemma IntegralGivesUp(f: nat, one: nat, kappa: nat, exp: nat, v: int, unit: int, remainder: int,
                        isFixed: bool, precision: int)
    requires one > 0 && kappa > exp && (isFixed ==> precision > 0) && kappa - exp == (if precision > 1 then precision else 1)
    requires unit == one * Pow(10, exp) && f == v * unit + remainder && 0 <= remainder < unit
    ensures GivesUp(f, one, kappa, isFixed, precision) <==> !Decides(unit, remainder, 1)
  {
    QuotientUnique(f, unit, v, remainder);
  }

  /** The last digit, after -exp fractional ones. */
  lemma FractionalOutcome(f: nat, one: nat, kappa: nat, exp: int, before: seq<char>, c: char, fractional: nat, up: bool,
                          digits: seq<char>, isFixed: bool, precision: int, bumped: bool)
    requires exp < 0 && one > 0 && kappa > 0 && AllDigits(digits) && |before| + 1 == kappa - exp
    requires 0 < |before| < precision <= |before| + 1 && !GivesUp(f, one, kappa, isFixed, precision)
    requires FractionalState(f, one, -exp, before + [c], fractional) && 2 * Pow(10, -exp) < one
    requires if up then 2 * (fractional - Pow(10, -exp)) >= one else 2 * (fractional + Pow(10, -exp)) <= one
    requires DecVal(digits) * (if bumped then 10 else 1) == DecVal(before + [c]) + (if up then 1 else 0)
    ensures Outcome(Done, f, one, kappa, exp, digits, isFixed, precision, bumped)
  {
    assert Max0(-exp) == -exp && Max0(exp) == 0 && Pow(10, 0) == 1;
    DigitOutcome(f, one, kappa, exp, before, c, fractional, up, digits, isFixed, precision, bumped);
  }

  lemma OneDigitValue(c: char)
    ensures DecVal([c]) == c as int - '0' as int
  {
    DecValAppend([], c);
    assert [] + [c] == [c];
  }

  /** The value was decided, or found to be leading zeros only, before any digit; or it could not be decided. */
  lemma StartOutcome(r: DigitsResult, f: nat, one: nat, kappa: nat, digits: seq<char>, precision: int)
    requires kappa > 0 && one > 4 && f < Pow(10, kappa) * one && precision <= 0 && f / 10 < Pow(10, kappa - 1) * one
    requires 20 < Pow(10, kappa - 1) * one && r != More && (precision < 0 ==> digits == [] && r == Done)
    requires precision == 0 ==> var tenth := Pow(10, kappa - 1) * one;
      if r == Error then digits == [] && 2 * (f / 10 + 10) > tenth && 2 * (f / 10 - 10) < tenth
      else (digits == "1" && 2 * (f / 10 - 10) >= tenth) || (digits == "0" && 2 * (f / 10 + 10) <= tenth)
    ensures Outcome(r, f, one, kappa, kappa, digits, true, precision, false)
  {
    if precision < 0 {
      LeadingZerosDecided(f, one, kappa, kappa - precision);
    } else if r == Done {
      OneDigitValue(digits[0]);
      assert digits == [digits[0]];
      StartDecides(f, one, kappa, digits == "1");
    }
  }

  /** Grisu digit generation of f * 2^-shift. Done means decided for every true value within one unit of f. */
  method GenDigits(f: Word64, shift: nat, handler: FixedHandler) returns (r: DigitsResult, exp: int, ghost kappa: nat)
    requires 32 <= shift <= 60 && 0 < ShiftedRight(f, shift) < 0x1_0000_0000 && handler.buf == []
    modifies handler
    ensures kappa == CountDigits(ShiftedRight(f, shift)) <= 10
    ensures Pow(10, kappa - 1) * Pow(2, shift) <= f < Pow(10, kappa) * Pow(2, shift)
    ensures handler.precision == old(handler.precision) + if handler.isFixed then kappa + old(handler.exp10) else 0
    ensures r == Error && handler.isFixed ==> handler.precision >= 0
    ensures handler.exp10 == old(handler.exp10) || (r == Done && !handler.isFixed && handler.exp10 == old(handler.exp10) + 1)
    ensures Outcome(r, f, Pow(2, shift), kappa, exp, handler.buf, handler.isFixed, handler.precision,
                    handler.exp10 != old(handler.exp10))
  {
    var one := Pow(2, shift);
    ShiftBounds(shift);
    var integral, fractional := DivMod(f, one);
    ShiftedRightQuotient(f, shift);
    kappa := CountDigits(integral);
    exp := CountDigits(integral);
    StartState(f, one, integral, fractional, kappa);
    AtMostTenDigits(integral);
    r := handler.OnStart(Pow(10, exp - 1) * one, f / 10, 10, exp);
    if r != More {
      StartOutcome(r, f, one, kappa, handler.buf, handler.precision);
      return;
    }
    r, exp, integral := IntegralDigits(f, one, exp, integral, fractional, handler);
    if r != More { return; }
    r, exp := FractionalDigits(f, one, kappa, fractional, handler);
  }

  /** Digits of the integral part: at most ten. */
  method IntegralDigits(ghost f: Word64, one: Word64, kappa: nat, integralIn: Word64, fractional: Word64, handler: FixedHandler)
    returns (r: DigitsResult, exp: int, integral: Word64)
    requires 0x1_0000_0000 <= one <= 0x1000_0000_0000_0000 && kappa > 0 && Pow(10, kappa - 1) * one <= f
    requires handler.buf == [] && IntegralState(f, one, kappa, [], integralIn, fractional)
    requires handler.isFixed ==> handler.precision > 0
    modifies handler`buf, handler`exp10
    ensures r == More ==> exp == 0 && integral == 0 && handler.exp10 == old(handler.exp10)
    ensures r == More ==> |handler.buf| == kappa < handler.precision && IntegralState(f, one, 0, handler.buf, 0, fractional)
    ensures r != More ==> Outcome(r, f, one, kappa, exp, handler.buf, handler.isFixed, handler.precision,
                                  handler.exp10 != old(handler.exp10))
    ensures handler.exp10 == old(handler.exp10) || (r == Done && !handler.isFixed && handler.exp10 == old(handler.exp10) + 1)
  {
    exp, integral := kappa, integralIn;
    r := More;
    while exp > 0
      invariant 0 <= exp <= kappa && |handler.buf| == kappa - exp
      invariant IntegralState(f, one, exp, handler.buf, integral, fractional)
      invariant handler.exp10 == old(handler.exp10) && r == More
      invariant |handler.buf| > 0 ==> |handler.buf| < handler.precision
      decreases exp
    {
      exp := exp - 1;
      r, integral := IntegralDigit(f, one, kappa, exp, integral, fractional, handler);
      if r != More { return; }
    }
  }

  /** The digit at position exp. */
  method IntegralDigit(ghost f: Word64, one: Word64, ghost kappa: nat, exp: nat, integralIn: Word64, fractional: Word64,
                       handler: FixedHandler)
    returns (r: DigitsResult, integral: Word64)
    requires 0x1_0000_0000 <= one <= 0x1000_0000_0000_0000 && exp < kappa && Pow(10, kappa - 1) * one <= f
    requires |handler.buf| == kappa - exp - 1 && IntegralState(f, one, exp + 1, handler.buf, integralIn, fractional)
    requires (|handler.buf| > 0 ==> |handler.buf| < handler.precision) && (handler.isFixed ==> handler.precision > 0)
    modifies handler`buf, handler`exp10
    ensures r == More ==> handler.exp10 == old(handler.exp10) && |handler.buf| == kappa - exp < handler.precision
    ensures r == More ==> IntegralState(f, one, exp, handler.buf, integral, fractional)
    ensures r != More ==> Outcome(r, f, one, kappa, exp, handler.buf, handler.isFixed, handler.precision,
                                  handler.exp10 != old(handler.exp10))
    ensures handler.exp10 == old(handler.exp10) || (r == Done && !handler.isFixed && handler.exp10 == old(handler.exp10) + 1)
  {
    ghost var before := handler.buf;
    UnitFits(f, one, exp, kappa);
    var digit, rest := DivMod(integralIn, Pow(10, exp));
    IntegralStep(f, one, exp, before, integralIn, fractional, digit, rest);
    integral := rest;
    var divisor: Word64, remainder: Word64 := one * Pow(10, exp), integral * one + fractional;
    ghost var up;
    r, up := handler.OnDigit(DigitChar(digit), divisor, remainder, 1, true);
    if r != More {
      IntegralOutcome(r, f, one, kappa, exp, before, DigitChar(digit), divisor, remainder, up,
                      handler.buf, handler.isFixed, handler.precision, handler.exp10 != old(handler.exp10));
    }
  }

  lemma UnitFits(f: nat, one: nat, exp: nat, kappa: nat)
    requires exp < kappa && Pow(10, kappa - 1) * one <= f && one > 0
    ensures one <= one * Pow(10, exp) <= f && Pow(10, exp) <= f
  {
    PowMono(10, exp, kappa - 1);
    MulMono(Pow(10, exp), Pow(10, kappa - 1), one);
    MulMono(1, Pow(10, exp), one);
    MulMono(1, one, Pow(10, exp));
  }

  /** Digits of the fractional part: the error grows tenfold with every digit. */
  method FractionalDigits(ghost f: Word64, one: Word64, ghost kappa: nat, fractionalIn: Word64, handler: FixedHandler)
    returns (r: DigitsResult, exp: int)
    requires 0x1_0000_0000 <= one <= 0x1000_0000_0000_0000
    requires 0 < |handler.buf| == kappa < handler.precision && IntegralState(f, one, 0, handler.buf, 0, fractionalIn)
    modifies handler`buf, handler`exp10
    ensures Outcome(r, f, one, kappa, exp, handler.buf, handler.isFixed, handler.precision,
                    handler.exp10 != old(handler.exp10))
    ensures handler.exp10 == old(handler.exp10) || (r == Done && !handler.isFixed && handler.exp10 == old(handler.exp10) + 1)
  {
    exp := 0;
    var fractional, error := fractionalIn, 1;
    r := More;
    while true
      invariant exp <= 0 && |handler.buf| == kappa - exp < handler.precision
      invariant FractionalState(f, one, -exp, handler.buf, fractional) && 0 < error == Pow(10, -exp) < one
      invariant FractionToCome(f, one, kappa, 1 - exp, handler.isFixed, handler.precision)
      invariant handler.exp10 == old(handler.exp10)
      decreases handler.precision - |handler.buf|
    {
      exp := exp - 1;
      r, fractional, error := FractionalDigit(f, one, kappa, exp, fractional, error, handler);
      if r != More { return; }
    }
  }

  /** Nothing is decided before the fractional digit k. */
  predicate FractionToCome(f: nat, one: nat, kappa: nat, k: int, isFixed: bool, precision: int) {
    && one > 0 && 0 < kappa && 0 < k <= precision - kappa
    && (GivesUp(f, one, kappa, isFixed, precision) <==> FractionGivesUp(f, one, k, precision - kappa))
  }

  /** The fractional digit at position exp. */
  method FractionalDigit(ghost f: Word64, one: Word64, ghost kappa: nat, ghost exp: int, fractionalIn: Word64,
                         errorIn: Word64, handler: FixedHandler)
    returns (r: DigitsResult, fractional: Word64, error: Word64)
    requires 0x1_0000_0000 <= one <= 0x1000_0000_0000_0000 && exp < 0 && kappa > 0
    requires |handler.buf| == kappa - exp - 1 < handler.precision
    requires FractionalState(f, one, -exp - 1, handler.buf, fractionalIn) && errorIn == Pow(10, -exp - 1) < one
    requires FractionToCome(f, one, kappa, -exp, handler.isFixed, handler.precision)
    modifies handler`buf, handler`exp10
    ensures r == More ==> handler.exp10 == old(handler.exp10) && |handler.buf| == kappa - exp < handler.precision
    ensures r == More ==> FractionalState(f, one, -exp, handler.buf, fractional) && error == Pow(10, -exp) < one
    ensures r == More ==> FractionToCome(f, one, kappa, 1 - exp, handler.isFixed, handler.precision)
    ensures r != More ==> Outcome(r, f, one, kappa, exp, handler.buf, handler.isFixed, handler.precision,
                                  handler.exp10 != old(handler.exp10))
    ensures handler.exp10 == old(handler.exp10) || (r == Done && !handler.isFixed && handler.exp10 == old(handler.exp10) + 1)
  {
    ghost var before := handler.buf;
    var digit, rest := DivMod(fractionalIn * 10, one);
    FractionalStep(f, one, -exp - 1, before, fractionalIn, digit, rest);
    fractional, error := rest, errorIn * 10;
    FractionRest(f, one, -exp, before + [DigitChar(digit)], fractional);
    ghost var up;
    r, up := handler.OnDigit(DigitChar(digit), one, fractional, error, false);
    if r == Done {
      FractionalOutcome(f, one, kappa, exp, before, DigitChar(digit), fractional, up,
                        handler.buf, handler.isFixed, handler.precision, handler.exp10 != old(handler.exp10));
    }
  }

  lemma StartState(f: nat, one: nat, integral: nat, fractional: nat, kappa: nat)
    requires f == integral * one + fractional && fractional < one
    requires kappa > 0 && Pow(10, kappa - 1) <= integral < Pow(10, kappa)
    ensures IntegralState(f, one, kappa, [], integral, fractional)
    ensures one <= Pow(10, kappa - 1) * one <= f < Pow(10, kappa) * one
    ensures f / 10 < Pow(10, kappa - 1) * one
  {
    var t := Pow(10, kappa - 1);
    assert Pow(10, kappa) == 10 * t;
    MulMono(1, t, one);
    LeadingDigitBounds(f, one, t, integral, fractional);
    assert DecVal([]) * (one * Pow(10, kappa)) == 0;
  }

  lemma LeadingDigitBounds(f: nat, one: nat, t: nat, integral: nat, fractional: nat)
    requires f == integral * one + fractional && fractional < one && t <= integral < 10 * t
    ensures t * one <= f < (10 * t) * one && f / 10 < t * one
  {
    MulMono(t, integral, one);
    MulMono(integral + 1, 10 * t, one);
    MulAssoc(10, t, one);
  }

  lemma ShiftBounds(shift: nat)
    requires 32 <= shift <= 60
    ensures 0x1_0000_0000 <= Pow(2, shift) <= 0x1000_0000_0000_0000
  {
    assert Pow(2, 4) == 16;
    assert Pow(2, 8) == 0x100 by { PowAdd(2, 4, 4); }
    assert Pow(2, 12) == 0x1000 by { PowAdd(2, 8, 4); }
    assert Pow(2, 16) == 0x1_0000 by { PowAdd(2, 8, 8); }
    assert Pow(2, 28) == 0x1000_0000 by { PowAdd(2, 16, 12); }
    assert Pow(2, 32) == 0x1_0000_0000 by { PowAdd(2, 16, 16); }
    assert Pow(2, 60) == 0x1000_0000_0000_0000 by { PowAdd(2, 32, 28); }
    PowMono(2, 32, shift);
    PowMono(2, shift, 60);
  }
}

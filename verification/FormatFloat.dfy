/** format_float for a given precision: Grisu first, exact digit generation when the tracked error cannot decide. */
module FormatFloats {
  import opened Powers
  import opened Rounding
  import opened Words
  import opened Grisu
  import opened GrisuProducts
  import opened FallbackFormats

  /** All digits, and times 10^exp they are the value rounded half to even at position p. */
  ghost predicate Prints(digits: seq<char>, exp: int, f: nat, e: int, p: int) {
    && AllDigits(digits) && (exp < p ==> DecVal(digits) == 0)
    && RoundedHalfEven(ValueNum(f, e, p), ValueDen(e, p), DecVal(digits) * Pow(10, Max0(exp - p)))
  }

  /** What Grisu decided for every nearby value it decided for this one. */
  lemma DecidedPrints(approx: nat, shift: nat, f: nat, e: int, k: int, x: int, q: int)
    requires Approximates(approx, shift, f, e, k) && Decided(approx, Pow(2, shift), x, q)
    ensures RoundedHalfEven(ValueNum(f, e, x - k), ValueDen(e, x - k), q)
  {
    hide ValueNum, ValueDen;
    var one, n, d := Pow(2, shift), ValueNum(f, e, -k), ValueDen(e, -k);
    var up, down := Pow(10, Max0(-x)), Pow(10, Max0(x));
    assert Within(n * one, d, approx);
    assert RoundedHalfEven((n * one) * up, d * (one * down), q);
    MovePosition(f, e, -k, x);
    WithUnit(n, d, one, up, down, ValueNum(f, e, -k + x), ValueDen(e, -k + x));
    PositiveProduct(d, one, down);
    SameRatio((n * one) * up, d * (one * down), ValueNum(f, e, -k + x), ValueDen(e, -k + x), q);
    assert -k + x == x - k;
  }

  lemma PositiveProduct(x: nat, y: nat, z: nat)
    requires x > 0 && y > 0 && z > 0
    ensures x * (y * z) > 0
  {
    MulMono(1, y, z);
    MulMono(1, y * z, x);
  }

  lemma WithUnit(n: nat, d: nat, one: nat, up: nat, down: nat, n': nat, d': nat)
    requires (n * up) * d' == n' * (d * down)
    ensures ((n * one) * up) * d' == n' * (d * (one * down))
  {
    calc {
      ((n * one) * up) * d';
      one * ((n * up) * d');
      one * (n' * (d * down));
      n' * (d * (one * down));
    }
  }

  /** The value is below 10^(kappa - k) because its approximation is. */
  lemma BelowPower(approx: nat, shift: nat, f: nat, e: int, k: int, kappa: nat)
    requires Approximates(approx, shift, f, e, k) && approx < Pow(10, kappa) * Pow(2, shift)
    ensures ValueNum(f, e, kappa - k) < ValueDen(e, kappa - k)
  {
    MovedUp(f, e, -k, kappa);
    assert -k + kappa == kappa - k;
    BelowMoved(ValueNum(f, e, -k), Pow(2, shift), ValueDen(e, -k), approx, Pow(10, kappa),
               ValueNum(f, e, kappa - k), ValueDen(e, kappa - k));
  }

  lemma BelowMoved(n: nat, one: nat, d: nat, approx: nat, t: nat, n': nat, d': nat)
    requires one > 0 && d > 0 && t > 0 && n * one - approx * d < d && approx < t * one
    requires d' > 0 && n * d' == n' * (d * t)
    ensures n' < d'
  {
    BelowUnits(n, one, d, approx, t);
    CrossCompare(n, d * t, n', d');
  }

  lemma MovedUp(f: nat, e: int, p: int, k: nat)
    ensures ValueNum(f, e, p) * ValueDen(e, p + k) == ValueNum(f, e, p + k) * (ValueDen(e, p) * Pow(10, k))
  {
    MovePosition(f, e, p, k);
    assert Max0(k) == k && Pow(10, Max0(0 - k as int)) == 1;
  }

  lemma BelowUnits(n: nat, one: nat, d: nat, approx: nat, t: nat)
    requires one > 0 && d > 0 && t > 0 && n * one - approx * d < d && approx < t * one
    ensures n < d * t && d * t > 0
  {
    MulMono(approx + 1, t * one, d);
    assert n * one < (d * t) * one;
    if n >= d * t { MulMono(d * t, n, one); }
    MulMono(1, t, d);
  }

  /** Dropping a final zero and raising the exponent keeps the number. */
  lemma ZeroDropped(digits: seq<char>, exp: int, f: nat, e: int, p: int)
    requires |digits| > 0 && digits[|digits| - 1] == '0' && Prints(digits, exp, f, e, p)
    ensures Prints(digits[..|digits| - 1], exp + 1, f, e, p)
  {
    var v := DecVal(digits[..|digits| - 1]);
    assert DecVal(digits) == 10 * v;
    if exp >= p { MulAssoc(v, 10, Pow(10, exp - p)); }
  }

  /** Grisu's digits, when it is done, print the value. */
  lemma GrisuPrints(approx: nat, shift: nat, f: nat, e: int, k: int, kappa: nat, exp: int, digits: seq<char>,
                    isFixed: bool, precision: int, bumped: bool, printedExp: int, position: int)
    requires Approximates(approx, shift, f, e, k) && printedExp == exp - k + if bumped then 1 else 0
    requires position == kappa - k - (if isFixed || precision > 1 then precision else 1) && kappa > 0
    requires Outcome(Done, approx, Pow(2, shift), kappa, exp, digits, isFixed, precision, bumped)
    ensures Prints(digits, printedExp, f, e, position)
  {
    var places := if isFixed || precision > 1 then precision else 1;
    DecidedPrints(approx, shift, f, e, k, kappa - places, DecVal(digits) * if bumped then 10 else 1);
    assert kappa - places - k == kappa - k - places && Pow(10, 0) == 1 && Pow(10, 1) == 10 * Pow(10, 0);
  }

  /** Precision is cut to the most digits a double can have; fixed formats count it from the decimal point. */
  function DigitsWanted(precision: nat, isFixed: bool, kappa: nat, cachedExp10: int): int {
    (if precision > 767 then 767 else precision) + if isFixed then kappa - cachedExp10 else 0
  }

  /** Where the output is rounded: without a fixed point Grisu prints one digit at least, the exact generator may
      print none. */
  function OutputPosition(wanted: int, isFixed: bool, top: int, exact: bool): int {
    top - if !isFixed && wanted == 0 && !exact then 1 else wanted
  }

  /** The output prints the value; or it is the number that the exact generator prints with the denominator halved. */
  ghost predicate Formats(buf: seq<char>, exp: int, f: nat, e: int, predecessorCloser: bool, wanted: int, position: int,
                          exact: bool)
  {
    if exact && HalvedDenominator(e, predecessorCloser) then
      && wanted >= 0 && exp >= position
      && DecVal(buf) * Pow(10, exp - position) == Output(true, f, e, position, wanted)
      && (AllDigits(buf) <==> OutputIsDigits(true, f, e, position, wanted))
    else Prints(buf, exp, f, e, position)
  }

  lemma FormatsWithoutZero(buf: seq<char>, exp: int, f: nat, e: int, predecessorCloser: bool, wanted: int, position: int,
                           exact: bool)
    requires |buf| > 0 && buf[|buf| - 1] == '0'
    requires Formats(buf, exp, f, e, predecessorCloser, wanted, position, exact)
    ensures Formats(buf[..|buf| - 1], exp + 1, f, e, predecessorCloser, wanted, position, exact)
  {
    if exact && HalvedDenominator(e, predecessorCloser) {
      assert AllDigits(buf) <==> AllDigits(buf[..|buf| - 1]);
      MulAssoc(DecVal(buf[..|buf| - 1]), 10, Pow(10, exp - position));
    } else {
      ZeroDropped(buf, exp, f, e, position);
    }
  }

  predicate Right(f: nat, e: int, predecessorCloser: bool, wanted: int, position: int, exact: bool) {
    exact && HalvedDenominator(e, predecessorCloser) ==>
      wanted >= 0 && DoublingHidden(ValueNum(f, e, position), ValueDen(e, position), wanted)
  }

  /** The number printed is the value rounded exactly if Grisu decided it, or no denominator was halved, or the
      doubling does not show. */
  lemma FormatsRight(buf: seq<char>, exp: int, f: nat, e: int, predecessorCloser: bool, wanted: int, position: int,
                     exact: bool)
    requires Formats(buf, exp, f, e, predecessorCloser, wanted, position, exact) && 0 < f
    requires exact ==> ValueNum(f, e, position + wanted) < ValueDen(e, position + wanted)
    ensures Prints(buf, exp, f, e, position) <==> Right(f, e, predecessorCloser, wanted, position, exact)
  {
    if exact && HalvedDenominator(e, predecessorCloser) {
      ExactUnlessHalved(f, e, predecessorCloser, wanted, position + wanted - 1);
      assert position + wanted - 1 + 1 - wanted == position;
    }
  }

  /** The exact generator, in these terms. */
  method ExactOutput(f: nat, e: int, predecessorCloser: bool, wanted: nat, start: int) returns (buf: seq<char>, exp: int)
    requires 0 < f < 0x4000_0000_0000_0000 && -0x8000_0000 < start < 0x8000_0000
    requires ValueNum(f, e, start + 1) < ValueDen(e, start + 1)
    ensures Formats(buf, exp, f, e, predecessorCloser, wanted, start + 1 - wanted, true)
  {
    buf, exp := FallbackFormat(f, e, predecessorCloser, wanted, start);
    assert Pow(10, 0) == 1 && Pow(10, 1) == 10 * Pow(10, 0);
    if !HalvedDenominator(e, predecessorCloser) { ExactUnlessHalved(f, e, predecessorCloser, wanted, start); }
  }

  /** The number printed with this many places down to position, and exactly when it is the value rounded there. */
  ghost predicate FormattedAt(buf: seq<char>, exp: int, f: nat, e: int, predecessorCloser: bool, isFixed: bool,
                              approx: nat, shift: nat, places: int, position: int)
    requires ShiftedRight(approx, shift) > 0
  {
    var exact := GivesUp(approx, Pow(2, shift), CountDigits(ShiftedRight(approx, shift)), isFixed, places);
    && Formats(buf, exp, f, e, predecessorCloser, places, position, exact)
    && (Prints(buf, exp, f, e, position) <==> Right(f, e, predecessorCloser, places, position, exact))
  }

  /** The same, for what is wanted of a precision; all decided by the scaled value. */
  ghost predicate Formatted(buf: seq<char>, exp: int, f: nat, e: int, predecessorCloser: bool, precision: nat, isFixed: bool,
                            approx: nat, shift: nat, cachedExp10: int)
    requires ShiftedRight(approx, shift) > 0
  {
    var kappa := CountDigits(ShiftedRight(approx, shift));
    var wanted := DigitsWanted(precision, isFixed, kappa, cachedExp10);
    var exact := GivesUp(approx, Pow(2, shift), kappa, isFixed, wanted);
    FormattedAt(buf, exp, f, e, predecessorCloser, isFixed, approx, shift, wanted,
                OutputPosition(wanted, isFixed, kappa - cachedExp10, exact))
  }

  /** The first decimal digit of the value is just below position lead: 10^(lead - 1) <= value < 10^lead. */
  predicate LeadsAt(f: nat, e: int, lead: int) {
    ValueNum(f, e, lead) < ValueDen(e, lead) && ValueDen(e, lead - 1) <= ValueNum(f, e, lead - 1)
  }

  /** The product with the cached power has been rounded up onto the power of ten above the value. */
  predicate OnPower(approx: nat, shift: nat, cachedExp10: int, lead: int) {
    lead + cachedExp10 >= 0 && approx == Pow(10, lead + cachedExp10) * Pow(2, shift)
  }

  /** What is below one unit of a position is below one unit of every higher one. */
  lemma {:induction false} BelowHigher(f: nat, e: int, p: int, q: int)
    requires p <= q && ValueNum(f, e, p) < ValueDen(e, p)
    ensures ValueNum(f, e, q) < ValueDen(e, q)
    decreases q - p
  {
    if p < q {
      OneHigher(f, e, p + 1);
      BelowTenth(ValueNum(f, e, p), ValueDen(e, p), ValueNum(f, e, p + 1), ValueDen(e, p + 1));
      BelowHigher(f, e, p + 1, q);
    }
  }

  lemma BelowTenth(n: nat, d: nat, n': nat, d': nat)
    requires n < d && d' > 0 && n * d' == n' * (d * 10)
    ensures n' < d'
  {
    CrossCompare(n, d * 10, n', d');
  }

  /** A value below a power of ten that its approximation reaches: the approximation is that power, and the value is more
      than a tenth of it. */
  lemma JustBelow(n: nat, d: nat, one: nat, approx: nat, t: nat)
    requires d > 0 && one > 1 && t > 0 && Within(n * one, d, approx) && t * one <= approx && n < d * t
    ensures approx == t * one && 10 * n >= d * t
  {
    OntoPower(n, d, one, approx, t);
    if 10 * n < d * t { TooSmall(n, d, one, t); }
  }

  lemma OntoPower(n: nat, d: nat, one: nat, approx: nat, t: nat)
    requires d > 0 && one > 1 && approx * d - n * one < d && t * one <= approx && n < d * t
    ensures approx == t * one
  {
    MulMono(n + 1, d * t, one);
    assert n * one + one <= (t * one) * d;
    if approx > t * one { MulMono(t * one + 1, approx, d); }
  }

  lemma TooSmall(n: nat, d: nat, one: nat, t: nat)
    requires d > 0 && one > 1 && t > 0 && 10 * n < d * t
    ensures t * one * d - n * one >= d
  {
    var x := d * t;
    MulMono(1, t, d);
    MulMono(2, one, 9 * x);
    assert 10 * (t * one * d - n * one) == (10 * x - 10 * n) * one;
    MulMono(9 * x, 10 * x - 10 * n, one);
  }

  lemma LeadBelow(f: nat, e: int, approx: nat, shift: nat, k: int, kappa: nat)
    requires kappa > 0 && shift > 0 && Approximates(approx, shift, f, e, k)
    requires Pow(10, kappa - 1) * Pow(2, shift) <= approx && ValueNum(f, e, kappa - k - 1) < ValueDen(e, kappa - k - 1)
    ensures approx == Pow(10, kappa - 1) * Pow(2, shift) && ValueNum(f, e, kappa - k - 2) >= ValueDen(e, kappa - k - 2)
  {
    var n, d, t := ValueNum(f, e, -k), ValueDen(e, -k), Pow(10, kappa - 1);
    MovedUp(f, e, -k, kappa - 1);
    assert -k + (kappa - 1) == kappa - k - 1;
    MulMono(1, t, d);
    CrossCompare(n, d * t, ValueNum(f, e, kappa - k - 1), ValueDen(e, kappa - k - 1));
    assert Pow(2, shift) == 2 * Pow(2, shift - 1);
    JustBelow(n, d, Pow(2, shift), approx, t);
    OneHigher(f, e, kappa - k - 1);
    AtLeastTenth(n, d * t, ValueNum(f, e, kappa - k - 1), ValueDen(e, kappa - k - 1),
                 ValueNum(f, e, kappa - k - 2), ValueDen(e, kappa - k - 2));
  }

  lemma AtLeastTenth(n: nat, d: nat, n': nat, d': nat, n'': nat, d'': nat)
    requires d > 0 && d' > 0 && d'' > 0 && 10 * n >= d && n * d' == n' * d && n'' * d' == n' * (d'' * 10)
    ensures n'' >= d''
  {
    if n'' < d'' {
      CrossCompare(n'', d'' * 10, n', d');
      CrossCompare(n, d, n', d');
      MulMono(d, 10 * n, d');
      MulMonoStrict(n'', d'', d');
      assert d * d' <= 10 * (n' * d);
      assert (n' * 10) * d >= d' * d;
      assert d'' * (n' * 10) < d'' * d';
      if n' * 10 >= d' { MulMono(d', n' * 10, d''); } else { MulMonoStrict(n' * 10, d', d); }
    }
  }

  /** The digits that Grisu sees are those of the value, but for a product that was rounded up onto a power of ten. */
  lemma LeadSeen(f: nat, e: int, approx: nat, shift: nat, cachedExp10: int, lead: int)
    requires ShiftedRight(approx, shift) > 0 && shift > 0 && Approximates(approx, shift, f, e, cachedExp10)
    requires LeadsAt(f, e, lead)
    ensures CountDigits(ShiftedRight(approx, shift)) - cachedExp10
         == lead + if OnPower(approx, shift, cachedExp10, lead) then 1 else 0
  {
    var kappa := CountDigits(ShiftedRight(approx, shift));
    var top := kappa - cachedExp10;
    BelowTop(f, e, approx, shift, cachedExp10);
    ApproxBetween(approx, shift, kappa);
    if top < lead { BelowHigher(f, e, top, lead - 1); }
    if lead < top {
      BelowHigher(f, e, lead, top - 1);
      LeadBelow(f, e, approx, shift, cachedExp10, kappa);
      if lead < top - 1 { BelowHigher(f, e, lead, top - 2); }
    }
  }

  lemma BelowMultiple(x: nat, one: nat, t: nat)
    requires one > 0 && x / one < t
    ensures x < t * one
  {
    MulMono(x / one + 1, t, one);
  }

  lemma NotBelowMultiple(x: nat, one: nat, t: nat)
    requires one > 0 && t <= x / one
    ensures t * one <= x
  {
    MulMono(t, x / one, one);
  }

  lemma ApproxBetween(approx: nat, shift: nat, kappa: nat)
    requires ShiftedRight(approx, shift) > 0 && kappa == CountDigits(ShiftedRight(approx, shift))
    ensures Pow(10, kappa - 1) * Pow(2, shift) <= approx < Pow(10, kappa) * Pow(2, shift)
  {
    ShiftedRightQuotient(approx, shift);
    BelowMultiple(approx, Pow(2, shift), Pow(10, kappa));
    NotBelowMultiple(approx, Pow(2, shift), Pow(10, kappa - 1));
  }

  /** A fixed format rounds at a position that does not depend on the value. */
  ghost predicate FixedAt(buf: seq<char>, exp: int, f: nat, e: int, predecessorCloser: bool, approx: nat, shift: nat,
                          cachedExp10: int, position: int)
    requires ShiftedRight(approx, shift) > 0
  {
    var top := CountDigits(ShiftedRight(approx, shift)) - cachedExp10;
    FormattedAt(buf, exp, f, e, predecessorCloser, true, approx, shift, top - position, position)
  }

  /** The others round so many digits below the first digit of the value, or one higher where the product hides it. */
  ghost predicate GeneralAt(buf: seq<char>, exp: int, f: nat, e: int, predecessorCloser: bool, approx: nat, shift: nat,
                            cachedExp10: int, lead: int, digits: nat)
    requires ShiftedRight(approx, shift) > 0
  {
    FormattedAt(buf, exp, f, e, predecessorCloser, false, approx, shift, digits,
                lead + (if OnPower(approx, shift, cachedExp10, lead) then 1 else 0) - digits)
  }

  /** Where the output is rounded, for every format and precision but the general one of zero. */
  ghost predicate Positioned(buf: seq<char>, exp: int, f: nat, e: int, predecessorCloser: bool, precision: nat, isFixed: bool,
                             approx: nat, shift: nat, cachedExp10: int)
    requires ShiftedRight(approx, shift) > 0
  {
    && (isFixed && precision <= 767 ==> FixedAt(buf, exp, f, e, predecessorCloser, approx, shift, cachedExp10, -(precision as int)))
    && (isFixed && precision > 767 ==> FixedAt(buf, exp, f, e, predecessorCloser, approx, shift, cachedExp10, -767))
    && (forall lead :: !isFixed && 0 < precision && LeadsAt(f, e, lead) ==>
          GeneralAt(buf, exp, f, e, predecessorCloser, approx, shift, cachedExp10, lead,
                    if precision <= 767 then precision else 767))
  }

  lemma FormattedPositioned(buf: seq<char>, exp: int, f: nat, e: int, predecessorCloser: bool, precision: nat, isFixed: bool,
                            approx: nat, shift: nat, cachedExp10: int)
    requires ShiftedRight(approx, shift) > 0 && shift > 0 && Approximates(approx, shift, f, e, cachedExp10)
    requires Formatted(buf, exp, f, e, predecessorCloser, precision, isFixed, approx, shift, cachedExp10)
    ensures Positioned(buf, exp, f, e, predecessorCloser, precision, isFixed, approx, shift, cachedExp10)
    ensures isFixed && precision <= 767 && !HalvedDenominator(e, predecessorCloser) ==> Prints(buf, exp, f, e, -(precision as int))
  {
    hide LeadsAt, Formats, GivesUp;
    forall lead | !isFixed && 0 < precision && LeadsAt(f, e, lead)
      ensures GeneralAt(buf, exp, f, e, predecessorCloser, approx, shift, cachedExp10, lead,
                        if precision <= 767 then precision else 767)
    {
      FormattedGeneral(buf, exp, f, e, predecessorCloser, precision, approx, shift, cachedExp10, lead);
    }
  }

  lemma FormattedGeneral(buf: seq<char>, exp: int, f: nat, e: int, predecessorCloser: bool, precision: nat,
                         approx: nat, shift: nat, cachedExp10: int, lead: int)
    requires ShiftedRight(approx, shift) > 0 && shift > 0 && Approximates(approx, shift, f, e, cachedExp10)
    requires precision > 0 && LeadsAt(f, e, lead)
    requires Formatted(buf, exp, f, e, predecessorCloser, precision, false, approx, shift, cachedExp10)
    ensures GeneralAt(buf, exp, f, e, predecessorCloser, approx, shift, cachedExp10, lead,
                      if precision <= 767 then precision else 767)
  {
    LeadSeen(f, e, approx, shift, cachedExp10, lead);
  }

  lemma FormattedBy(buf: seq<char>, exp: int, f: nat, e: int, predecessorCloser: bool, precision: nat, isFixed: bool,
                    approx: nat, shift: nat, cachedExp10: int, kappa: nat, wanted: int, exact: bool)
    requires ShiftedRight(approx, shift) > 0 && kappa == CountDigits(ShiftedRight(approx, shift)) && 0 < f
    requires wanted == DigitsWanted(precision, isFixed, kappa, cachedExp10)
    requires exact == GivesUp(approx, Pow(2, shift), kappa, isFixed, wanted)
    requires ValueNum(f, e, kappa - cachedExp10) < ValueDen(e, kappa - cachedExp10)
    requires Formats(buf, exp, f, e, predecessorCloser, wanted, OutputPosition(wanted, isFixed, kappa - cachedExp10, exact), exact)
    ensures Formatted(buf, exp, f, e, predecessorCloser, precision, isFixed, approx, shift, cachedExp10)
  {
    FormatsRight(buf, exp, f, e, predecessorCloser, wanted, OutputPosition(wanted, isFixed, kappa - cachedExp10, exact), exact);
  }

  lemma FormattedWithoutZero(buf: seq<char>, exp: int, f: nat, e: int, predecessorCloser: bool, precision: nat, isFixed: bool,
                             approx: nat, shift: nat, cachedExp10: int)
    requires ShiftedRight(approx, shift) > 0 && |buf| > 0 && buf[|buf| - 1] == '0' && 0 < f
    requires Formatted(buf, exp, f, e, predecessorCloser, precision, isFixed, approx, shift, cachedExp10)
    ensures Formatted(buf[..|buf| - 1], exp + 1, f, e, predecessorCloser, precision, isFixed, approx, shift, cachedExp10)
  {
    var kappa := CountDigits(ShiftedRight(approx, shift));
    var wanted := DigitsWanted(precision, isFixed, kappa, cachedExp10);
    var exact := GivesUp(approx, Pow(2, shift), kappa, isFixed, wanted);
    var position := OutputPosition(wanted, isFixed, kappa - cachedExp10, exact);
    FormatsWithoutZero(buf, exp, f, e, predecessorCloser, wanted, position, exact);
    if exact && HalvedDenominator(e, predecessorCloser) {
      PrintedOutput(buf, exp, f, e, wanted, position);
      PrintedOutput(buf[..|buf| - 1], exp + 1, f, e, wanted, position);
    }
  }

  /** Printing the value depends on the number printed only. */
  lemma PrintedOutput(buf: seq<char>, exp: int, f: nat, e: int, wanted: nat, position: int)
    requires exp >= position && DecVal(buf) * Pow(10, exp - position) == Output(true, f, e, position, wanted)
    requires AllDigits(buf) <==> OutputIsDigits(true, f, e, position, wanted)
    ensures Prints(buf, exp, f, e, position) == (OutputIsDigits(true, f, e, position, wanted)
      && RoundedHalfEven(ValueNum(f, e, position), ValueDen(e, position), Output(true, f, e, position, wanted)))
  {
  }

  /** The digits before trailing zeros are dropped. */
  method GenerateOutput(f: nat, e: int, predecessorCloser: bool, precisionIn: nat, isFixed: bool,
                        approx: Word64, shift: nat, cachedExp10: int)
    returns (buf: seq<char>, exp: int)
    requires 0 < f < 0x4000_0000_0000_0000 && -400 < cachedExp10 < 400
    requires 32 <= shift <= 60 && 0 < ShiftedRight(approx, shift) < 0x1_0000_0000
    requires Approximates(approx, shift, f, e, cachedExp10)
    ensures Formatted(buf, exp, f, e, predecessorCloser, precisionIn, isFixed, approx, shift, cachedExp10)
    ensures Positioned(buf, exp, f, e, predecessorCloser, precisionIn, isFixed, approx, shift, cachedExp10)
  {
    hide Formatted, Positioned;
    var precision: int := if precisionIn > 767 then 767 else precisionIn;
    var handler := new FixedHandler(precision, -cachedExp10, isFixed);
    var r, exp0, kappa := GenDigits(approx, shift, handler);
    buf, exp := handler.buf, exp0 + handler.exp10;
    BelowPower(approx, shift, f, e, cachedExp10, kappa);
    if r == Error {
      var start := exp0 + |handler.buf| - cachedExp10 - 1;
      assert start + 1 == kappa - cachedExp10;
      buf, exp := ExactOutput(f, e, predecessorCloser, handler.precision, start);
    } else {
      GrisuPrints(approx, shift, f, e, cachedExp10, kappa, exp0, buf, isFixed, handler.precision,
                  handler.exp10 != -cachedExp10, exp, OutputPosition(handler.precision, isFixed, kappa - cachedExp10, false));
    }
    FormattedBy(buf, exp, f, e, predecessorCloser, precisionIn, isFixed, approx, shift, cachedExp10,
                kappa, handler.precision, r == Error);
    FormattedPositioned(buf, exp, f, e, predecessorCloser, precisionIn, isFixed, approx, shift, cachedExp10);
  }

  /** format_float with a precision, for the table entry that the value's exponent selects. */
  method FormatFloat(f: nat, e: int, predecessorCloser: bool, precision: nat, isFixed: bool, showpoint: bool,
                     power: Word64, powerExp: int, cachedExp10: int)
    returns (buf: seq<char>, exp: int)
    requires 0 < f < 0x20_0000_0000_0000 && -400 < cachedExp10 < 400 && FitsScale(f, e, power, powerExp, cachedExp10)
    ensures ShiftedRight(Scaled(f, power), ScaledShift(f, e, powerExp)) > 0
    ensures Formatted(buf, exp, f, e, predecessorCloser, precision, isFixed, Scaled(f, power), ScaledShift(f, e, powerExp),
                      cachedExp10)
    ensures Positioned(buf, exp, f, e, predecessorCloser, precision, isFixed, Scaled(f, power), ScaledShift(f, e, powerExp),
                       cachedExp10)
    ensures isFixed && precision <= 767 && !HalvedDenominator(e, predecessorCloser) ==> Prints(buf, exp, f, e, -(precision as int))
    ensures !isFixed && precision == 0 ==>
      OneDigitExactly(buf, exp, f, e, Scaled(f, power), ScaledShift(f, e, powerExp), cachedExp10)
    ensures !isFixed && !showpoint ==> |buf| == 0 || buf[|buf| - 1] != '0'
  {
    hide Formatted, Positioned, OneDigitExactly;
    var x, normalExp := Normalize(f, e);
    ScaledApproximates(f, e, power, powerExp, cachedExp10);
    buf, exp := GenerateOutput(f, e, predecessorCloser, precision, isFixed, MultiplyParts(x, power),
                               -(normalExp + powerExp + 64), cachedExp10);
    if !isFixed && !showpoint {
      while |buf| > 0 && buf[|buf| - 1] == '0'
        invariant Formatted(buf, exp, f, e, predecessorCloser, precision, isFixed, Scaled(f, power),
                            ScaledShift(f, e, powerExp), cachedExp10)
        decreases |buf|
      {
        FormattedWithoutZero(buf, exp, f, e, predecessorCloser, precision, isFixed, Scaled(f, power),
                             ScaledShift(f, e, powerExp), cachedExp10);
        buf, exp := buf[..|buf| - 1], exp + 1;
      }
    }
    FormattedPositioned(buf, exp, f, e, predecessorCloser, precision, isFixed, Scaled(f, power), ScaledShift(f, e, powerExp),
                        cachedExp10);
    if !isFixed && precision == 0 {
      BelowTop(f, e, Scaled(f, power), ScaledShift(f, e, powerExp), cachedExp10);
      PrecisionZeroExactly(buf, exp, f, e, predecessorCloser, Scaled(f, power), ScaledShift(f, e, powerExp), cachedExp10);
    }
  }

  lemma BelowTop(f: nat, e: int, approx: nat, shift: nat, cachedExp10: int)
    requires ShiftedRight(approx, shift) > 0 && Approximates(approx, shift, f, e, cachedExp10)
    ensures var top := CountDigits(ShiftedRight(approx, shift)) - cachedExp10; ValueNum(f, e, top) < ValueDen(e, top)
  {
    var kappa := CountDigits(ShiftedRight(approx, shift));
    ApproxBetween(approx, shift, kappa);
    BelowPower(approx, shift, f, e, cachedExp10, kappa);
  }

  /** The output for precision zero is the value rounded to one digit exactly if Grisu decides, or the value rounds up to
      ten of that digit, or is next to nothing. */
  ghost predicate OneDigitExactly(buf: seq<char>, exp: int, f: nat, e: int, approx: nat, shift: nat, cachedExp10: int)
    requires ShiftedRight(approx, shift) > 0
  {
    var kappa := CountDigits(ShiftedRight(approx, shift));
    var first := kappa - cachedExp10 - 1;
    Prints(buf, exp, f, e, first)
    <==> !GivesUp(approx, Pow(2, shift), kappa, false, 0) || TenOrNothing(ValueNum(f, e, first), ValueDen(e, first))
  }

  /** At least nine and a half, or at most one half. */
  predicate TenOrNothing(n: nat, d: nat) { 2 * n >= 19 * d || 2 * n <= d }

  /** Whether the denominator is halved or not. */
  lemma PrecisionZeroExactly(buf: seq<char>, exp: int, f: nat, e: int, predecessorCloser: bool, approx: nat, shift: nat,
                             cachedExp10: int)
    requires ShiftedRight(approx, shift) > 0
    requires Formatted(buf, exp, f, e, predecessorCloser, 0, false, approx, shift, cachedExp10)
    requires var top := CountDigits(ShiftedRight(approx, shift)) - cachedExp10; ValueNum(f, e, top) < ValueDen(e, top)
    ensures OneDigitExactly(buf, exp, f, e, approx, shift, cachedExp10)
  {
    var kappa := CountDigits(ShiftedRight(approx, shift));
    var top := kappa - cachedExp10;
    if GivesUp(approx, Pow(2, shift), kappa, false, 0) {
      if HalvedDenominator(e, predecessorCloser) {
        DoubledOneHigher(buf, exp, f, e, top);
      } else {
        PlainOneHigher(buf, exp, f, e, top);
      }
    }
  }

  /** Digits that are the number q at position top are ten times q one position lower. */
  lemma OneLower(buf: seq<char>, exp: int, f: nat, e: int, top: int, q: int)
    requires AllDigits(buf) && (exp < top ==> DecVal(buf) == 0) && DecVal(buf) * Pow(10, Max0(exp - top)) == q
    ensures Prints(buf, exp, f, e, top - 1) <==> 10 * q == HalfEven(ValueNum(f, e, top - 1), ValueDen(e, top - 1))
  {
    hide ValueNum, ValueDen;
    var n, d := ValueNum(f, e, top - 1), ValueDen(e, top - 1);
    if exp >= top {
      assert Pow(10, Max0(exp - (top - 1))) == 10 * Pow(10, Max0(exp - top));
      MulSwap(DecVal(buf), 10, Pow(10, Max0(exp - top)), 1);
    }
    assert DecVal(buf) * Pow(10, Max0(exp - (top - 1))) == 10 * q;
    if RoundedHalfEven(n, d, 10 * q) { HalfEvenIs(n, d, 10 * q); }
  }

  lemma PlainOneHigher(buf: seq<char>, exp: int, f: nat, e: int, top: int)
    requires Prints(buf, exp, f, e, top) && ValueNum(f, e, top) < ValueDen(e, top)
    ensures Prints(buf, exp, f, e, top - 1) <==> TenOrNothing(ValueNum(f, e, top - 1), ValueDen(e, top - 1))
  {
    var q := HalfEven(ValueNum(f, e, top), ValueDen(e, top));
    HalfEvenIs(ValueNum(f, e, top), ValueDen(e, top), DecVal(buf) * Pow(10, Max0(exp - top)));
    OneLower(buf, exp, f, e, top, q);
    NoDigitAgreesWithOne(f, e, top);
  }

  lemma DoubledOneHigher(buf: seq<char>, exp: int, f: nat, e: int, top: int)
    requires exp >= top && DecVal(buf) * Pow(10, exp - top) == Output(true, f, e, top, 0)
    requires AllDigits(buf) && ValueNum(f, e, top) < ValueDen(e, top)
    ensures Prints(buf, exp, f, e, top - 1) <==> TenOrNothing(ValueNum(f, e, top - 1), ValueDen(e, top - 1))
  {
    OneLower(buf, exp, f, e, top, Output(true, f, e, top, 0));
    OneHigher(f, e, top);
    DoubledDigit(ValueNum(f, e, top - 1), ValueDen(e, top - 1), ValueNum(f, e, top), ValueDen(e, top));
  }

  lemma OneHigher(f: nat, e: int, top: int)
    ensures ValueNum(f, e, top - 1) * ValueDen(e, top) == ValueNum(f, e, top) * (ValueDen(e, top - 1) * 10)
  {
    MovePosition(f, e, top - 1, 1);
    assert top - 1 + 1 == top && Max0(-1) == 0 && Max0(1) == 1 && Pow(10, 0) == 1 && Pow(10, 1) == 10 * Pow(10, 0);
  }

  lemma DoubledDigit(n: nat, d: nat, n': nat, d': nat)
    requires d > 0 && n' < d' && n * d' == n' * (d * 10)
    ensures 10 * (if 4 * n' > d' then 1 else 0) == HalfEven(n, d) <==> TenOrNothing(n, d)
  {
    CrossCompare(n, d * 10, n', d');
    if n' > 0 { CrossCompare(d * 10, 4 * n, d', 4 * n'); } else { MulCancel(n, 0, d'); }
    FirstOrLast(n, d, HalfEven(n, d));
  }

  /** Precision zero without a fixed point: Grisu rounds to one digit, at position top - 1, and the exact generator to
      none, at position top. Both print the same number exactly for values that round up to ten, or next to nothing. */
  lemma NoDigitAgreesWithOne(f: nat, e: int, top: int)
    requires ValueNum(f, e, top) < ValueDen(e, top)
    ensures var n, d := ValueNum(f, e, top - 1), ValueDen(e, top - 1);
      10 * HalfEven(ValueNum(f, e, top), ValueDen(e, top)) == HalfEven(n, d) <==> TenOrNothing(n, d)
  {
    OneHigher(f, e, top);
    NoDigit(ValueNum(f, e, top - 1), ValueDen(e, top - 1), ValueNum(f, e, top), ValueDen(e, top));
  }

  lemma NoDigit(n: nat, d: nat, n': nat, d': nat)
    requires d > 0 && n' < d' && n * d' == n' * (d * 10)
    ensures 10 * HalfEven(n', d') == HalfEven(n, d) <==> TenOrNothing(n, d)
  {
    CrossCompare(n, d * 10, n', d');
    SameHalfEven(n, d * 10, n', d');
    HalfEvenIs(n, d * 10, if 2 * n > d * 10 then 1 else 0);
    FirstOrLast(n, d, HalfEven(n, d));
  }

  lemma FirstOrLast(n: nat, d: nat, q: int)
    requires d > 0 && n < 10 * d && RoundedHalfEven(n, d, q)
    ensures (q == 0 <==> 2 * n <= d) && (q == 10 <==> 2 * n >= 19 * d) && 0 <= q <= 10
  {
    RoundingBounds(n, d, 0, q);
    RoundingBounds(n, d, 10, q);
    if q >= 1 { MulMono(1, q, d); }
    if q <= 9 { MulMono(q, 9, d); }
  }

  lemma ExampleScale()
    ensures Pow(2, 47) == 0x8000_0000_0000 && Pow(2, 50) == 0x4_0000_0000_0000 && Pow(2, 0) == 1 && Pow(2, 1) == 2
    ensures Pow(2, 11) == 0x800 && Pow(2, 60) == 0x1000_0000_0000_0000 && Pow(10, 4) == 10000 && Pow(10, 0) == 1
    ensures NearestPower(0x9C40_0000_0000_0000, -50, 4)
  {
    assert Pow(2, 11) == 0x800 by { assert Pow(2, 5) == 32 && Pow(2, 6) == 64; PowAdd(2, 5, 6); }
    assert Pow(2, 22) == 0x40_0000 by { PowAdd(2, 11, 11); }
    assert Pow(2, 44) == 0x1000_0000_0000 by { PowAdd(2, 22, 22); }
    assert Pow(2, 47) == 0x8000_0000_0000 by { PowAdd(2, 44, 3); }
    assert Pow(2, 50) == 0x4_0000_0000_0000 by { PowAdd(2, 47, 3); }
    assert Pow(2, 60) == 0x1000_0000_0000_0000 by { assert Pow(2, 10) == 0x400; PowAdd(2, 50, 10); }
    assert Pow(10, 4) == 10000;
  }

  /** 4.5 and 4.4 with the table's entry for 10^4. */
  lemma ExampleScaled()
    ensures Scaled(9, 0x9C40_0000_0000_0000) == 45000 * 0x8000_0000_0000 && NormalShift(9) == 60
    ensures 44000 * 0x8000_0000_0000 <= Scaled(4953959590107546, 0x9C40_0000_0000_0000) < 44001 * 0x8000_0000_0000
    ensures NormalShift(4953959590107546) == 11
  {
    ExampleScale();
    NormalShiftIs(9, 60);
    NormalShiftIs(4953959590107546, 11);
    MultiplyRoundsHalfUp(9 * 0x1000_0000_0000_0000, 0x9C40_0000_0000_0000);
    MultiplyRoundsHalfUp(4953959590107546 * 0x800, 0x9C40_0000_0000_0000);
  }

  lemma NothingPrinted(buf: seq<char>, exp: int, f: nat, e: int, p: int)
    requires Prints(buf, exp, f, e, p) && HalfEven(ValueNum(f, e, p), ValueDen(e, p)) == 0
    requires |buf| == 0 || buf[|buf| - 1] != '0'
    ensures buf == ""
  {
    HalfEvenIs(ValueNum(f, e, p), ValueDen(e, p), DecVal(buf) * Pow(10, Max0(exp - p)));
    MulCancel(DecVal(buf), 0, Pow(10, Max0(exp - p)));
    if |buf| > 0 {
      DecValBounds(buf[..|buf| - 1]);
    }
  }

  lemma ExampleDigits(approx: nat, q: nat)
    requires q * 0x8000_0000_0000 <= approx < (q + 1) * 0x8000_0000_0000 && 10000 <= q < 100000
    ensures ShiftedRight(approx, 47) == q && CountDigits(q) == 5
  {
    ExampleScale();
    ShiftedRightQuotient(approx, 47);
    QuotientUnique(approx, 0x8000_0000_0000, q, approx - q * 0x8000_0000_0000);
    CountDigitsIs(q, 5);
  }

  lemma CountDigitsIs(n: nat, k: nat)
    requires k > 0 && Pow(10, k - 1) <= n < Pow(10, k)
    ensures CountDigits(n) == k
  {
    var c := CountDigits(n);
    if c < k { PowMono(10, c, k - 1); } else if c > k { PowMono(10, k, c - 1); }
  }

  lemma FormattedPrints(buf: seq<char>, exp: int, f: nat, e: int, precision: nat, approx: nat, shift: nat,
                        cachedExp10: int, kappa: nat, exact: bool)
    requires ShiftedRight(approx, shift) > 0 && kappa == CountDigits(ShiftedRight(approx, shift)) && precision <= 767
    requires Formatted(buf, exp, f, e, false, precision, false, approx, shift, cachedExp10)
    requires exact == GivesUp(approx, Pow(2, shift), kappa, false, precision)
    ensures Prints(buf, exp, f, e, OutputPosition(precision, false, kappa - cachedExp10, exact))
  {
  }

  lemma ExampleRounded()
    ensures ValueNum(9, -1, 1) == 9 && ValueDen(-1, 1) == 20 && HalfEven(9, 20) == 0
  {
    ExampleScale();
    assert Pow(10, 1) == 10;
    HalfEvenIs(9, 20, 0);
  }

  /** 4.5 is too close to the middle for Grisu, 4.4 is not. */
  lemma ExampleDecisions(approx: nat)
    requires 44000 * 0x8000_0000_0000 <= approx < 44001 * 0x8000_0000_0000
    ensures GivesUp(45000 * 0x8000_0000_0000, Pow(2, 47), 5, false, 0)
    ensures !GivesUp(approx, Pow(2, 47), 5, false, 0)
  {
    ExampleScale();
    var unit := 0x8000_0000_0000 * 10000;
    QuotientUnique(45000 * 0x8000_0000_0000, unit, 4, 5000 * 0x8000_0000_0000);
    QuotientUnique(approx, unit, 4, approx - 4 * unit);
  }

  /** 4.5 to precision zero in the general format: Grisu cannot decide between four and five, and the exact generator
      rounds 0.45 tens to nothing, so that no digit is left. */
  method PrecisionZeroExample() returns (buf: seq<char>, exp: int)
    ensures buf == ""
  {
    ExampleScale();
    ExampleScaled();
    ExampleDigits(45000 * 0x8000_0000_0000, 45000);
    ExampleDecisions(44000 * 0x8000_0000_0000);
    ExampleRounded();
    buf, exp := FormatFloat(9, -1, false, 0, false, false, 0x9C40_0000_0000_0000, -50, 4);
    FormattedPrints(buf, exp, 9, -1, 0, 45000 * 0x8000_0000_0000, 47, 4, 5, true);
    NothingPrinted(buf, exp, 9, -1, 1);
  }

  /** 4.4 prints its one digit. */
  method PrecisionZeroDecided() returns (buf: seq<char>, exp: int)
    ensures Prints(buf, exp, 4953959590107546, -50, 0)
  {
    ExampleScale();
    ExampleScaled();
    ExampleDigits(Scaled(4953959590107546, 0x9C40_0000_0000_0000), 44000);
    ExampleDecisions(Scaled(4953959590107546, 0x9C40_0000_0000_0000));
    buf, exp := FormatFloat(4953959590107546, -50, false, 0, false, false, 0x9C40_0000_0000_0000, -50, 4);
    FormattedPrints(buf, exp, 4953959590107546, -50, 0, Scaled(4953959590107546, 0x9C40_0000_0000_0000), 47, 4, 5, false);
  }

  lemma HalvedScale()
    ensures NearestPower(0x8CBC_CC09_6F50_88CC, -103, -12) && Pow(10, 12) == 1_0000_0000_0000 && Pow(10, 15) == 1000_0000_0000_0000
  {
    ExampleScale();
    assert Pow(2, 53) == 0x20_0000_0000_0000 by { assert Pow(2, 3) == 8; PowAdd(2, 50, 3); }
    assert Pow(2, 103) == 0x80_0000_0000_0000_0000_0000_0000 by { PowAdd(2, 50, 53); }
    assert Pow(10, 8) == 1_0000_0000 by { PowAdd(10, 4, 4); }
    assert Pow(10, 12) == 1_0000_0000_0000 by { PowAdd(10, 8, 4); }
    assert Pow(10, 15) == 1000_0000_0000_0000 by { assert Pow(10, 3) == 1000; PowAdd(10, 12, 3); }
  }

  /** 2^52 with the table's entry for 10^-12: 4503.599627370496. */
  lemma HalvedScaled()
    ensures Scaled(0x10_0000_0000_0000, 0x8CBC_CC09_6F50_88CC) == 0x465E_6604_B7A8_4466
    ensures NormalShift(0x10_0000_0000_0000) == 11
    ensures ShiftedRight(0x465E_6604_B7A8_4466, 50) == 4503 && CountDigits(4503) == 4
  {
    ExampleScale();
    NormalShiftIs(0x10_0000_0000_0000, 11);
    MultiplyRoundsHalfUp(0x8000_0000_0000_0000, 0x8CBC_CC09_6F50_88CC);
    ShiftedRightQuotient(0x465E_6604_B7A8_4466, 50);
    QuotientUnique(0x465E_6604_B7A8_4466, 0x4_0000_0000_0000, 4503, 0x465E_6604_B7A8_4466 - 4503 * 0x4_0000_0000_0000);
    assert Pow(10, 3) == 1000;
    CountDigitsIs(4503, 4);
  }

  lemma {:induction false} GivesUpBefore(f: nat, one: nat, k: nat, last: nat)
    requires one > 0 && 0 < k <= last && FractionGivesUp(f, one, last, last)
    ensures FractionGivesUp(f, one, k, last)
    decreases last - k
  {
    if k < last { GivesUpBefore(f, one, k + 1, last); }
  }

  /** At the sixteenth digit the error is larger than what is left. */
  lemma HalvedGivesUp()
    ensures GivesUp(0x465E_6604_B7A8_4466, Pow(2, 50), 4, true, 16)
  {
    ExampleScale();
    HalvedScale();
    var n := 0x465E_6604_B7A8_4466 * 1_0000_0000_0000;
    QuotientUnique(n, 0x4_0000_0000_0000, 4503599627370496, 13187178496);
    GivesUpBefore(0x465E_6604_B7A8_4466, Pow(2, 50), 1, 12);
  }

  lemma HalvedDigits()
    ensures Output(true, 0x10_0000_0000_0000, 0, 0, 16) == 9007199254740992
    ensures OutputIsDigits(true, 0x10_0000_0000_0000, 0, 0, 16)
  {
    ExampleScale();
    HalvedScale();
    assert Printed(true, 0x10_0000_0000_0000, 0, 0) == 9007199254740992 && ValueDen(0, 0) == 1;
    HalfEvenIs(9007199254740992, 1, 9007199254740992);
  }

  /** 2^52 in the fixed format with precision zero comes out as twice its value. */
  method HalvedOutputExample() returns (buf: seq<char>, exp: int)
    ensures AllDigits(buf) && exp >= 0 && DecVal(buf) * Pow(10, exp) == 2 * 0x10_0000_0000_0000
  {
    HalvedScale();
    HalvedScaled();
    HalvedGivesUp();
    HalvedDigits();
    buf, exp := FormatFloat(0x10_0000_0000_0000, 0, true, 0, true, true, 0x8CBC_CC09_6F50_88CC, -103, -12);
  }
}

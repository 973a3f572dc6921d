/** Exact decimal rounding: half-even rounding of fractions, binary values at a decimal position, digit strings. */
module Rounding {
  import opened Powers

  /** q is n / d rounded to the nearest integer, ties to the even one. */
  predicate RoundedHalfEven(n: int, d: int, q: int) {
    && 2 * (n - q * d) <= d && 2 * (q * d - n) <= d
    && (2 * (n - q * d) == d || 2 * (q * d - n) == d ==> q % 2 == 0)
  }

  /** Every fraction has at most one such rounding. */
  lemma RoundedHalfEvenUnique(n: nat, d: nat, p: int, q: int)
    requires d > 0 && RoundedHalfEven(n, d, p) && RoundedHalfEven(n, d, q)
    ensures p == q
  {
    if p < q { RoundingsAdjacent(n, d, p, q); } else if q < p { RoundingsAdjacent(n, d, q, p); }
  }

  /** Two nearest integers of one fraction are neighbours, and the fraction lies half way. */
  lemma RoundingsAdjacent(n: nat, d: nat, p: int, q: int)
    requires d > 0 && p < q && 2 * (n - p * d) <= d && 2 * (q * d - n) <= d
    ensures q == p + 1 && 2 * (n - p * d) == d && 2 * (q * d - n) == d
  {
    assert (q - p) * d == q * d - p * d;
    if q - p > 1 { MulMono(2, q - p, d); }
  }

  /** Every fraction has one: the quotient, or the next number by twice the remainder. */
  lemma RoundByRemainder(n: int, d: int, q: int, r: int)
    requires 0 <= r < d && n == q * d + r
    ensures RoundedHalfEven(n, d, if 2 * r > d || (2 * r == d && q % 2 != 0) then q + 1 else q)
  {
    assert (q + 1) * d == q * d + d;
  }

  /** n / d rounded half to even. */
  function HalfEven(n: nat, d: nat): (q: nat)
    requires d > 0
    ensures RoundedHalfEven(n, d, q)
  {
    RoundByRemainder(n, d, n / d, n % d);
    if 2 * (n % d) > d || (2 * (n % d) == d && n / d % 2 != 0) then n / d + 1 else n / d
  }

  lemma HalfEvenIs(n: nat, d: nat, q: int)
    requires d > 0 && RoundedHalfEven(n, d, q)
    ensures q == HalfEven(n, d)
  {
    RoundedHalfEvenUnique(n, d, q, HalfEven(n, d));
  }

  lemma SameHalfEven(n: nat, d: nat, n': nat, d': nat)
    requires d > 0 && d' > 0 && n * d' == n' * d
    ensures HalfEven(n, d) == HalfEven(n', d')
  {
    SameRatio(n, d, n', d', HalfEven(n, d));
    HalfEvenIs(n', d', HalfEven(n, d));
  }

  /** Rounding does not cross an integer. */
  lemma RoundingBounds(n: int, d: nat, k: int, q: int)
    requires d > 0 && 2 * (n - q * d) <= d && 2 * (q * d - n) <= d
    ensures (n <= k * d ==> q <= k) && (n >= k * d ==> q >= k)
  {
    if q > k {
      assert q * d >= k * d + d by { MulMono(k + 1, q, d); }
    } else if q < k {
      assert k * d >= q * d + d by { MulMono(q + 1, k, d); }
    }
  }

  /** Rounding depends on the value of the fraction only. */
  lemma SameRatio(n: nat, d: nat, n': nat, d': nat, q: int)
    requires d > 0 && d' > 0 && n * d' == n' * d && RoundedHalfEven(n, d, q)
    ensures RoundedHalfEven(n', d', q)
  {
    ScaleDifference(n - q * d, n' - q * d', d, d', n, n', q);
    HalfCompare(n - q * d, d, n' - q * d', d');
    HalfCompare(q * d - n, d, q * d' - n', d');
  }

  lemma ScaleDifference(x: int, x': int, d: nat, d': nat, n: int, n': int, q: int)
    requires n * d' == n' * d && x == n - q * d && x' == n' - q * d'
    ensures x * d' == x' * d && (-x) * d' == (-x') * d
  {
    assert (q * d) * d' == (q * d') * d;
  }

  lemma HalfCompare(x: int, d: nat, x': int, d': nat)
    requires d > 0 && d' > 0 && x * d' == x' * d
    ensures 2 * x <= d ==> 2 * x' <= d'
    ensures 2 * x' == d' ==> 2 * x == d
  {
    if 2 * x <= d { MulMono(2 * x, d, d'); if 2 * x' > d' { MulMonoStrict(d', 2 * x', d); } }
    if 2 * x' == d' { MulCancel(2 * x, d, d'); }
  }

  function Max0(x: int): nat { if x > 0 then x else 0 }

  /** f * 2^e / 10^p as a fraction of natural numbers. */
  function ValueNum(f: nat, e: int, p: int): nat { f * Pow(2, Max0(e)) * Pow(10, Max0(-p)) }

  function ValueDen(e: int, p: int): (r: nat)
    ensures r > 0
  {
    MulMono(1, Pow(2, Max0(-e)), Pow(10, Max0(p)));
    Pow(2, Max0(-e)) * Pow(10, Max0(p))
  }

  /** 10^(p + k) against 10^p * 10^k, the negative exponents moved to the other side. */
  lemma SignedPowers(p: int, k: int)
    ensures Pow(10, Max0(-p)) * Pow(10, Max0(-k)) * Pow(10, Max0(p + k))
         == Pow(10, Max0(p)) * Pow(10, Max0(k)) * Pow(10, Max0(-p - k))
  {
    PowAdd(10, Max0(-p), Max0(-k));
    PowAdd(10, Max0(p), Max0(k));
    PowAdd(10, Max0(-p) + Max0(-k), Max0(p + k));
    PowAdd(10, Max0(p) + Max0(k), Max0(-p - k));
    assert Max0(-p) + Max0(-k) + Max0(p + k) == Max0(p) + Max0(k) + Max0(-p - k);
  }

  /** Moving the position by k scales the fraction by 10^-k. */
  lemma MovePosition(f: nat, e: int, p: int, k: int)
    ensures (ValueNum(f, e, p) * Pow(10, Max0(-k))) * ValueDen(e, p + k) == ValueNum(f, e, p + k) * (ValueDen(e, p) * Pow(10, Max0(k)))
  {
    SignedPowers(p, k);
    RegroupSix(f * Pow(2, Max0(e)), Pow(10, Max0(-p)), Pow(10, Max0(-k)), Pow(2, Max0(-e)), Pow(10, Max0(p + k)),
               Pow(10, Max0(-p - k)), Pow(10, Max0(p)), Pow(10, Max0(k)));
  }

  lemma RegroupSix(a: nat, b: nat, c: nat, d: nat, x: nat, y: nat, z: nat, w: nat)
    requires b * c * x == z * w * y
    ensures ((a * b) * c) * (d * x) == (a * y) * ((d * z) * w)
  {
    calc {
      ((a * b) * c) * (d * x);
      (a * d) * (b * c * x);
      (a * d) * (z * w * y);
      (a * y) * ((d * z) * w);
    }
  }

  /** Decimal value of a string of digit characters; '0' + 10 counts as ten. */
  function DecVal(s: seq<char>): int {
    if |s| == 0 then 0 else 10 * DecVal(s[..|s| - 1]) + (s[|s| - 1] as int - '0' as int)
  }

  predicate AllDigits(s: seq<char>) {
    forall i :: 0 <= i < |s| ==> '0' <= s[i] <= '9'
  }

  lemma DecValAppend(s: seq<char>, c: char)
    ensures DecVal(s + [c]) == 10 * DecVal(s) + (c as int - '0' as int)
  {
    assert (s + [c])[..|s|] == s;
  }

  /** Changing the character at i by delta moves the value by delta * 10^(distance from the end). */
  lemma {:induction false} DecValUpdate(s: seq<char>, i: nat, c: char)
    requires i < |s|
    ensures DecVal(s[i := c]) == DecVal(s) + (c as int - s[i] as int) * Pow(10, |s| - 1 - i)
  {
    var n := |s| - 1;
    var t := s[i := c];
    if i == n {
      assert t[..n] == s[..n];
    } else {
      assert t[..n] == s[..n][i := c];
      DecValUpdate(s[..n], i, c);
      MulAssoc(c as int - s[i] as int, 10, Pow(10, n - 1 - i));
    }
  }

  /** Moving ten units of position i into position i - 1 keeps the value. */
  lemma CarryKeepsValue(s: seq<char>, i: nat)
    requires 0 < i < |s| && s[i] as int == '0' as int + 10 && s[i - 1] as int < '0' as int + 20
    ensures DecVal(s[i := '0'][i - 1 := ((s[i - 1] as int) + 1) as char]) == DecVal(s)
  {
    var t := s[i := '0'];
    DecValUpdate(s, i, '0');
    DecValUpdate(t, i - 1, ((s[i - 1] as int) + 1) as char);
  }

  lemma {:induction false} DecValBounds(s: seq<char>)
    requires AllDigits(s)
    ensures 0 <= DecVal(s) < Pow(10, |s|)
  {
    if |s| > 0 { DecValBounds(s[..|s| - 1]); }
  }

  /** With digits behind it, the first character alone decides the value up to its own unit. */
  lemma {:induction false} DecValFirst(s: seq<char>)
    requires |s| > 0 && AllDigits(s[1..])
    ensures var c: int, t: int := s[0] as int - '0' as int, Pow(10, |s| - 1);
      c * t <= DecVal(s) < (c + 1) * t
  {
    var n := |s| - 1;
    if n == 0 {
      assert DecVal(s[..0]) == 0 && Pow(10, 0) == 1;
    } else {
      assert s[..n][1..] == s[1..][..n - 1] && s[1..][n - 1] == s[n];
      DecValFirst(s[..n]);
      FirstBounds(s[0] as int - '0' as int, Pow(10, n - 1), DecVal(s[..n]), s[n] as int - '0' as int);
    }
  }

  lemma FirstBounds(c: int, t: int, v: int, last: int)
    requires c * t <= v < (c + 1) * t && 0 <= last < 10
    ensures c * (10 * t) <= 10 * v + last < (c + 1) * (10 * t)
  {
    assert c * (10 * t) == 10 * (c * t) && (c + 1) * (10 * t) == 10 * ((c + 1) * t);
  }

  lemma {:induction false} DecValLeading(s: seq<char>)
    requires |s| > 0 && forall i :: 0 < i < |s| ==> s[i] == '0'
    ensures DecVal(s) == (s[0] as int - '0' as int) * Pow(10, |s| - 1)
  {
    if |s| > 1 {
      DecValLeading(s[..|s| - 1]);
      MulAssoc(s[0] as int - '0' as int, 10, Pow(10, |s| - 2));
    }
  }

  /** Ten in the first position and zeros after it: ten times the number with '1' in front. */
  lemma CarryOut(s: seq<char>)
    requires |s| > 0 && s[0] as int == '0' as int + 10 && forall i :: 0 < i < |s| ==> s[i] == '0'
    ensures DecVal(s) == 10 * DecVal(s[0 := '1']) == DecVal(s[0 := '1'] + ['0'])
    ensures AllDigits(s[0 := '1'])
  {
    DecValLeading(s);
    DecValLeading(s[0 := '1']);
    DecValAppend(s[0 := '1'], '0');
  }
}

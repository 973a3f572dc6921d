/** The variable-length integer of fmt: words with a shared exponent, value = sum of words[i] * B^(i + exp). */
module Bigints {
  import opened Powers
  import opened Words

  function Sign(x: int): (r: int)
  {
    if x > 0 then 1 else if x < 0 then -1 else 0
  }

  /** x * B^n, written without a product of two unknowns. */
  function Lift(x: nat, n: nat): nat {
    if n == 0 then x else B * Lift(x, n - 1)
  }

  lemma {:induction false} LiftProduct(x: nat, n: nat)
    ensures Lift(x, n) == W(n) * x
  {
    if n > 0 {
      LiftProduct(x, n - 1);
      MulAssoc(B, W(n - 1), x);
    }
  }

  /** Value of the words s scaled by B^exp. */
  function Num(s: seq<Word>, exp: nat): nat {
    if exp == 0 then Val(s) else B * Num(s, exp - 1)
  }

  lemma {:induction false} NumProduct(s: seq<Word>, exp: nat)
    ensures Num(s, exp) == Val(s) * W(exp)
  {
    if exp > 0 {
      NumProduct(s, exp - 1);
      MulAssoc(B, Val(s), W(exp - 1));
    }
  }

  predicate TopNonzero(s: seq<Word>) {
    |s| > 0 && s[|s| - 1] != 0
  }

  /** What every operation leaves behind: no leading zero word, except for zero itself. */
  predicate Trimmed(s: seq<Word>) {
    TopNonzero(s) || s == [0]
  }

  /** s without its leading zero words; the lowest word stays. */
  function Trim(s: seq<Word>): (r: seq<Word>)
    requires |s| > 0
    ensures Trimmed(r) && r <= s && Val(r) == Val(s)
  {
    var n := |s| - 1;
    if n > 0 && s[n] == 0 then
      assert s[..n + 1] == s;
      ValPrefix(s, n);
      Trim(s[..n])
    else
      assert n == 0 ==> s == [s[0]];
      s
  }

  /** The operand whose word span is longer really has a nonzero word up there. */
  predicate SpanHonest(a: seq<Word>, ea: nat, b: seq<Word>, eb: nat) {
    && (|a| + ea > |b| + eb ==> TopNonzero(a))
    && (|b| + eb > |a| + ea ==> TopNonzero(b))
  }

  /** Equal span, the shorter array matches the top of the longer one, and the rest of the longer one is zero:
      the two numbers are equal although the arrays differ in length. */
  predicate LeftoverZeros(a: seq<Word>, ea: nat, b: seq<Word>, eb: nat) {
    && |a| + ea == |b| + eb
    && if |a| > |b| then a[|a| - |b|..] == b && AllZero(a[..|a| - |b|])
       else |b| > |a| && b[|b| - |a|..] == a && AllZero(b[..|b| - |a|])
  }

  lemma NumBelow(s: seq<Word>, e: nat)
    ensures Num(s, e) < W(|s| + e)
  {
    NumProduct(s, e);
    ValBound(s);
    WAdd(|s|, e);
    MulMonoStrict(Val(s), W(|s|), W(e));
  }

  lemma NumAbove(s: seq<Word>, e: nat)
    requires TopNonzero(s)
    ensures Num(s, e) >= W(|s| - 1 + e)
  {
    NumProduct(s, e);
    ValTopNonzero(s);
    WAdd(|s| - 1, e);
    MulMono(W(|s| - 1), Val(s), W(e));
  }

  /** A longer span with a nonzero top word is the larger number. */
  lemma LongerIsLarger(a: seq<Word>, ea: nat, b: seq<Word>, eb: nat)
    requires |a| + ea > |b| + eb && TopNonzero(a)
    ensures Num(a, ea) > Num(b, eb)
  {
    NumAbove(a, ea);
    NumBelow(b, eb);
    WMono(|b| + eb, |a| - 1 + ea);
  }

  /** Both numbers as multiples of B^e for the smaller exponent e. */
  lemma NumShift(a: seq<Word>, e: nat, k: nat)
    ensures Num(a, e + k) == W(k) * Val(a) * W(e)
  {
    NumProduct(a, e + k);
    WAdd(k, e);
    Regrouped(Val(a), W(k), W(e));
  }

  lemma Regrouped(v: nat, w: nat, x: nat)
    ensures (w * x) * v == v * (w * x) == w * v * x
  {
  }

  /** First differing word from the top, a at least as long as b. */
  lemma TopWordsDecide(a: seq<Word>, ea: nat, b: seq<Word>, eb: nat, j: nat)
    requires |a| + ea == |b| + eb && |a| >= |b| && j < |b|
    requires var k := |a| - |b|; a[k + j + 1..] == b[j + 1..] && a[k + j] != b[j]
    ensures a[|a| - |b| + j] > b[j] ==> Num(a, ea) > Num(b, eb)
    ensures a[|a| - |b| + j] < b[j] ==> Num(a, ea) < Num(b, eb)
  {
    var k := |a| - |b|;
    var hi := a[k..];
    assert hi[j + 1..] == a[k + j + 1..] == b[j + 1..];
    assert hi[j] == a[k + j];
    assert Val(a) == Val(a[..k]) + W(k) * Val(hi) && Val(a[..k]) < W(k) by {
      ValSplit(a, k);
      ValBound(a[..k]);
    }
    NumProduct(a, ea);
    NumShift(b, ea, k);
    if a[k + j] > b[j] {
      assert Val(hi) > Val(b) by { ValTopDiffers(hi, b, j); }
      HighPartDecides(W(k), Val(a[..k]), Val(hi), 0, Val(b), W(ea));
    } else {
      assert Val(b) > Val(hi) by { ValTopDiffers(b, hi, j); }
      HighPartDecides(W(k), 0, Val(b), Val(a[..k]), Val(hi), W(ea));
    }
  }

  lemma HighPartDecides(w: nat, low1: nat, high1: nat, low2: nat, high2: nat, scale: nat)
    requires low2 < w && high1 > high2 && scale > 0
    ensures (low1 + w * high1) * scale > (low2 + w * high2) * scale
  {
    HigherDigitWins(w, low2, high2, high1);
    MulMonoStrict(low2 + w * high2, low1 + w * high1, scale);
  }

  /** All common words agree, a at least as long as b: a is larger exactly by its leftover words. */
  lemma LeftoverDecides(a: seq<Word>, ea: nat, b: seq<Word>, eb: nat)
    requires |a| + ea == |b| + eb && |a| >= |b|
    requires a[|a| - |b|..] == b
    ensures Num(a, ea) >= Num(b, eb)
    ensures Num(a, ea) == Num(b, eb) <==> AllZero(a[..|a| - |b|])
  {
    var k := |a| - |b|;
    ValSplit(a, k);
    ValZeros(a[..k]);
    NumProduct(a, ea);
    NumShift(b, ea, k);
    if Val(a[..k]) > 0 {
      MulMonoStrict(W(k) * Val(b), Val(a), W(ea));
    }
  }

  /** LeftoverZeros operands are equal numbers. */
  lemma LeftoverZerosEqual(a: seq<Word>, ea: nat, b: seq<Word>, eb: nat)
    requires LeftoverZeros(a, ea, b, eb)
    ensures Num(a, ea) == Num(b, eb)
  {
    if |a| > |b| {
      LeftoverDecides(a, ea, b, eb);
    } else {
      LeftoverDecides(b, eb, a, ea);
    }
  }

  /** Word at absolute position i, zero outside the array. */
  function WordAt(s: seq<Word>, e: nat, i: int): Word {
    if e <= i < |s| + e then s[i - e] else 0
  }

  /** Num(s, e) divided by B^i, rounded down. */
  function High(s: seq<Word>, e: nat, i: nat): nat {
    if i <= e then Num(s, e - i) else if i <= |s| + e then Val(s[i - e..]) else 0
  }

  lemma HighStep(s: seq<Word>, e: nat, i: nat)
    ensures High(s, e, i) == High(s, e, i + 1) * B + WordAt(s, e, i)
  {
    if e <= i < |s| + e {
      var t := s[i - e..];
      ValSplit(t, 1);
      assert t[..1] == [t[0]] && t[1..] == s[i + 1 - e..];
      ValOne(t[0]);
      assert W(1) == B;
    }
  }

  lemma HighBounds(s: seq<Word>, e: nat, i: nat)
    ensures High(s, e, i) * W(i) <= Num(s, e) < (High(s, e, i) + 1) * W(i)
    ensures i <= e ==> High(s, e, i) * W(i) == Num(s, e)
  {
    if i <= e {
      HighBelowExponent(s, e, i);
    } else if i <= |s| + e {
      HighInside(s, e, i);
    } else {
      NumBelow(s, e);
      WMono(|s| + e, i);
    }
  }

  lemma HighBelowExponent(s: seq<Word>, e: nat, i: nat)
    requires i <= e
    ensures High(s, e, i) * W(i) == Num(s, e) < (High(s, e, i) + 1) * W(i)
  {
    NumProduct(s, e);
    NumProduct(s, e - i);
    WAdd(e - i, i);
    MulAssoc(Val(s), W(e - i), W(i));
    MulDistrib(W(i), Num(s, e - i), 1);
  }

  lemma HighInside(s: seq<Word>, e: nat, i: nat)
    requires e < i <= |s| + e
    ensures High(s, e, i) * W(i) <= Num(s, e) < (High(s, e, i) + 1) * W(i)
  {
    var k := i - e;
    ValSplit(s, k);
    ValBound(s[..k]);
    NumProduct(s, e);
    WAdd(k, e);
    ScaleBracket(Val(s[k..]), W(k), Val(s[..k]), W(e));
  }

  lemma ScaleBracket(h: nat, w: nat, low: nat, scale: nat)
    requires low < w && scale > 0
    ensures h * (w * scale) <= (low + w * h) * scale < (h + 1) * (w * scale)
  {
    calc {
      h * (w * scale);
      (w * h) * scale;
    <= { MulMono(w * h, low + w * h, scale); }
      (low + w * h) * scale;
    < { MulMonoStrict(low + w * h, w * (h + 1), scale); }
      (w * (h + 1)) * scale;
      (h + 1) * (w * scale);
    }
  }

  /** Two numbers at least two words shorter than a third add up to less. */
  lemma SumBelow(a: seq<Word>, ea: nat, b: seq<Word>, eb: nat, c: seq<Word>, ec: nat)
    requires |c| + ec > |a| + ea + 1 && |c| + ec > |b| + eb + 1 && TopNonzero(c)
    ensures Num(a, ea) + Num(b, eb) < Num(c, ec)
  {
    var n := |c| + ec - 2;
    assert Num(a, ea) < W(n) by { NumBelow(a, ea); WMono(|a| + ea, n); }
    assert Num(b, eb) < W(n) by { NumBelow(b, eb); WMono(|b| + eb, n); }
    NumAbove(c, ec);
  }

  /** How far a + b stays behind c, counted in words i and above; top is past every word. */
  ghost function Deficit(a: seq<Word>, ea: nat, b: seq<Word>, eb: nat, c: seq<Word>, ec: nat, top: nat, i: nat): int
    decreases top - i
  {
    if i >= top then 0
    else B * Deficit(a, ea, b, eb, c, ec, top, i + 1) + WordAt(c, ec, i) - WordAt(a, ea, i) - WordAt(b, eb, i)
  }

  lemma {:induction false} DeficitIsHigh(a: seq<Word>, ea: nat, b: seq<Word>, eb: nat, c: seq<Word>, ec: nat,
                                         top: nat, i: nat)
    requires |a| + ea <= top && |b| + eb <= top && |c| + ec <= top
    ensures i <= top ==> Deficit(a, ea, b, eb, c, ec, top, i) == High(c, ec, i) - High(a, ea, i) - High(b, eb, i)
    decreases top - i
  {
    if i < top {
      DeficitIsHigh(a, ea, b, eb, c, ec, top, i + 1);
      HighStep(a, ea, i);
      HighStep(b, eb, i);
      HighStep(c, ec, i);
    }
  }

  /** A surplus, or a deficit of two, cannot be undone below; at the bottom the deficit is the whole difference. */
  lemma DeficitDecides(a: seq<Word>, ea: nat, b: seq<Word>, eb: nat, c: seq<Word>, ec: nat, top: nat, i: nat)
    requires |a| + ea <= top && |b| + eb <= top && |c| + ec <= top && i <= top
    ensures var d, diff := Deficit(a, ea, b, eb, c, ec, top, i), Num(a, ea) + Num(b, eb) - Num(c, ec);
      (d < 0 ==> diff > 0) && (d > 1 ==> diff < 0) &&
      (i <= ea && i <= eb && i <= ec ==> (d == 0 ==> diff == 0) && (d > 0 ==> diff < 0))
  {
    DeficitIsHigh(a, ea, b, eb, c, ec, top, i);
    HighBounds(a, ea, i);
    HighBounds(b, eb, i);
    HighBounds(c, ec, i);
    BracketsDecide(Num(a, ea), High(a, ea, i), Num(b, eb), High(b, eb, i), Num(c, ec), High(c, ec, i), W(i));
    if i <= ea && i <= eb && i <= ec && High(a, ea, i) + High(b, eb, i) <= High(c, ec, i) {
      MultiplesDecide(High(a, ea, i), High(b, eb, i), High(c, ec, i), W(i));
    }
  }

  lemma BracketsDecide(na: nat, x: nat, nb: nat, y: nat, nc: nat, z: nat, w: nat)
    requires x * w <= na < (x + 1) * w && y * w <= nb < (y + 1) * w && z * w <= nc < (z + 1) * w
    ensures x + y > z ==> na + nb > nc
    ensures x + y + 1 < z ==> na + nb < nc
  {
    if x + y > z {
      MulMono(z + 1, x + y, w);
      MulDistrib(w, x, y);
    } else if x + y + 1 < z {
      MulMono(x + y + 2, z, w);
      MulDistrib(w, x + 1, y + 1);
    }
  }

  /** Exact multiples of w compare like their quotients. */
  lemma MultiplesDecide(x: nat, y: nat, z: nat, w: nat)
    requires w > 0 && x + y <= z
    ensures x * w + y * w <= z * w
    ensures x * w + y * w == z * w <==> x + y == z
  {
    MulDistrib(w, x, y);
    if x + y < z {
      MulMonoStrict(x + y, z, w);
    }
  }

  lemma ProductFits(x: Word, y: Word, carry: Word)
    ensures 0 <= x * y + carry <= (B - 1) * B
  {
    MulMono(x, B - 1, y);
    MulMono(y, B - 1, B - 1);
    MulMono(0, x, y);
  }

  /** One word of a schoolbook product by value, from the lowest word up. */
  lemma CarryStep(was: seq<Word>, cur: seq<Word>, i: nat, value: nat, carry: nat, digit: Word, next: nat)
    requires i < |was| == |cur|
    requires Val(cur[..i]) + W(i) * carry == Val(was[..i]) * value
    requires digit + B * next == was[i] * value + carry
    ensures Val(cur[i := digit][..i + 1]) + W(i + 1) * next == Val(was[..i + 1]) * value
  {
    var now := cur[i := digit];
    assert now[..i] == cur[..i];
    ValPrefix(now, i);
    ValPrefix(was, i);
    CarryArith(W(i), Val(cur[..i]), Val(was[..i]), was[i], value, carry, digit, next);
  }

  lemma CarryArith(w: nat, low: int, oldLow: int, x: int, value: int, carry: int, digit: int, next: int)
    requires low + w * carry == oldLow * value
    requires digit + B * next == x * value + carry
    ensures (low + w * digit) + (B * w) * next == (oldLow + w * x) * value
  {
    calc {
      (low + w * digit) + (B * w) * next;
      low + w * (digit + B * next);
      low + w * (x * value + carry);
      low + w * carry + w * (x * value);
      oldLow * value + (w * x) * value;
      (oldLow + w * x) * value;
    }
  }

  lemma {:induction false} NumScaled(s: seq<Word>, t: seq<Word>, e: nat, value: nat)
    requires Val(s) == Val(t) * value
    ensures Num(s, e) == Num(t, e) * value
  {
    if e > 0 {
      NumScaled(s, t, e - 1, value);
      MulAssoc(B, Num(t, e - 1), value);
    }
  }

  /** Growing a number, or leaving zero alone, keeps the top word nonzero. */
  lemma GrowthKeepsTrimmed(s: seq<Word>, t: seq<Word>)
    requires Trimmed(t) && Val(s) >= Val(t) && (Val(t) == 0 ==> Val(s) == 0)
    requires |s| >= |t| && (|s| > |t| ==> TopNonzero(s))
    ensures Trimmed(s)
  {
    if t == [0] {
      ValOne(0);
      if TopNonzero(s) { ValTopNonzero(s); }
      ValOne(s[0]);
      assert s == [s[0]];
    } else if |s| == |t| {
      ValTopNonzero(t);
      ValNeedsTop(s);
    }
  }

  lemma ProductKeepsTrimmed(s: seq<Word>, t: seq<Word>, value: nat)
    requires Trimmed(t) && value > 0 && Val(s) == Val(t) * value
    requires |s| >= |t| && (|s| > |t| ==> TopNonzero(s))
    ensures Trimmed(s)
  {
    ProductGrows(Val(t), value);
    GrowthKeepsTrimmed(s, t);
  }

  lemma ProductGrows(x: nat, value: nat)
    requires value > 0
    ensures x * value >= x
    ensures x == 0 ==> x * value == 0
  {
    MulMono(1, value, x);
  }

  /** Highest differing common word: the arrays are compared from the top. */
  lemma MismatchDecides(a: seq<Word>, ea: nat, b: seq<Word>, eb: nat, i: nat, j: nat)
    requires |a| + ea == |b| + eb && i < |a| && j < |b| && j - i == |b| - |a|
    requires a[i + 1..] == b[j + 1..] && a[i] != b[j]
    ensures Sign(Num(a, ea) - Num(b, eb)) == if a[i] > b[j] then 1 else -1
    ensures !LeftoverZeros(a, ea, b, eb)
  {
    if |a| >= |b| {
      TopWordsDecide(a, ea, b, eb, j);
    } else {
      TopWordsDecide(b, eb, a, ea, i);
    }
    if LeftoverZeros(a, ea, b, eb) {
      LeftoverZerosEqual(a, ea, b, eb);
    }
  }

  /** No differing common word: only the leftover words of the longer array can decide. */
  lemma AgreementDecides(a: seq<Word>, ea: nat, b: seq<Word>, eb: nat)
    requires |a| + ea == |b| + eb
    requires if |a| >= |b| then a[|a| - |b|..] == b else b[|b| - |a|..] == a
    ensures !LeftoverZeros(a, ea, b, eb) ==> Sign(Num(a, ea) - Num(b, eb)) == Sign(|a| - |b|)
    ensures LeftoverZeros(a, ea, b, eb) ==> Num(a, ea) == Num(b, eb) && |a| != |b|
  {
    if |a| >= |b| {
      LeftoverDecides(a, ea, b, eb);
    } else {
      LeftoverDecides(b, eb, a, ea);
    }
  }

  lemma SplitProduct(x: int, lower: int, upper: int, value: int)
    requires value == lower + B * upper
    ensures x * value == x * lower + B * (x * upper)
  {
  }

  lemma SplitCarry(w: nat, carry: nat)
    ensures w * carry == w * (carry % B) + (B * w) * (carry / B)
  {
    MulDistrib(w, carry % B, B * (carry / B));
  }

  /** Scaling the words by 2^(shift % 32) and the exponent by shift / 32 multiplies by 2^shift. */
  lemma ShiftValue(s: seq<Word>, t: seq<Word>, e: nat, shift: nat)
    requires Val(s) == Val(t) * Pow(2, shift % 32)
    ensures Num(s, e + shift / 32) == Num(t, e) * Pow(2, shift)
  {
    var k, r := shift / 32, shift % 32;
    NumScaled(s, t, e + k, Pow(2, r));
    assert Pow(2, shift) == W(k) * Pow(2, r) by {
      Pow2At32();
      WPow(k);
      PowPow(2, 32, k);
      PowAdd(2, 32 * k, r);
    }
    assert Num(t, e + k) == Num(t, e) * W(k) by {
      NumProduct(t, e);
      NumShift(t, e, k);
      Commute(W(k), Val(t), W(e));
    }
    MulAssoc(Num(t, e), W(k), Pow(2, r));
  }

  lemma Commute(a: int, b: int, c: int)
    ensures a * b * c == b * c * a
  {
  }

  /** The two factors of B used by a shift of 0 < s < 32 bits. */
  lemma ShiftFactors(s: nat)
    requires s < 32
    ensures Pow(2, s) * Pow(2, 32 - s) == B
  {
    Pow2At32();
    PowAdd(2, s, 32 - s);
  }

  /** One word shifted left by s bits, p = 2^s: the top s bits go to the carry. */
  lemma ShiftWord(x: Word, p: nat, q: nat, carry: nat)
    requires p > 0 && q > 0 && p * q == B && carry < p
    ensures x / q < p && 0 <= x * p % B + carry < B
    ensures x * p % B + carry + B * (x / q) == x * p + carry
  {
    var c, r := x / q, x % q;
    assert x * p == B * c + r * p by { MulAssoc(p, q, c); }
    assert r * p <= B - p by { MulMono(r, q - 1, p); }
    MulMono(0, r, p);
    assert c < p by { if c >= p { MulMono(p, c, q); } }
    QuotientUnique(x * p, B, c, r * p);
  }

  lemma ShiftStep(was: seq<Word>, cur: seq<Word>, i: nat, p: nat, q: nat, carry: nat)
    requires p > 0 && q > 0 && p * q == B && carry < p
    requires i < |was| == |cur| && cur[i] == was[i]
    requires Val(cur[..i]) + W(i) * carry == Val(was[..i]) * p
    ensures 0 <= cur[i] * p % B + carry < B && 0 <= cur[i] / q < p
    ensures Val(cur[i := cur[i] * p % B + carry][..i + 1]) + W(i + 1) * (cur[i] / q) == Val(was[..i + 1]) * p
  {
    ShiftWord(cur[i], p, q, carry);
    CarryStep(was, cur, i, p, carry, cur[i] * p % B + carry, cur[i] / q);
  }

  /** The subtraction of o * B^k from a borrows from word k + |o|, and that word is zero. */
  predicate BorrowSticks(a: seq<Word>, k: nat, o: seq<Word>) {
    k + |o| < |a| && a[k + |o|] == 0 && Val(a[k..k + |o|]) < Val(o)
  }

  lemma SubtractInRange(a: seq<Word>, e: nat, o: seq<Word>, k: nat)
    requires TopNonzero(o) && Num(a, e) >= Num(o, e + k)
    ensures k + |o| <= |a|
    ensures Val(a) >= Num(o, k)
  {
    if |o| + e + k > |a| + e { LongerIsLarger(o, e + k, a, e); }
    NumNested(o, k, e);
    NumProduct(a, e);
    if Val(a) < Num(o, k) { MulMonoStrict(Val(a), Num(o, k), W(e)); }
  }

  lemma NumNested(o: seq<Word>, k: nat, e: nat)
    ensures Num(o, e + k) == Num(o, k) * W(e)
  {
    NumProduct(o, k);
    NumShift(o, e, k);
  }

  lemma {:induction false} NumZero(k: nat)
    ensures Num([], k) == 0
  {
    if k > 0 { NumZero(k - 1); }
  }

  function Borrowed(borrow: nat, i: nat): nat {
    if borrow == 0 then 0 else W(i)
  }

  /** cur is was with the lowest j words of o subtracted at word k, borrow still owed to word k + j. */
  ghost predicate PartialDifference(was: seq<Word>, cur: seq<Word>, o: seq<Word>, k: nat, j: nat, borrow: nat) {
    && j <= |o| && k + j <= |was| == |cur| && borrow <= 1
    && cur[k + j..] == was[k + j..]
    && Val(cur[..k + j]) == Val(was[..k + j]) - Num(o[..j], k) + Borrowed(borrow, k + j)
  }

  /** The words after subtracting the lowest j words of o at word k, and the borrow still owed. */
  function SubtractWords(was: seq<Word>, o: seq<Word>, k: nat, j: nat): (r: (seq<Word>, Word))
    requires j <= |o| && k + j <= |was|
    ensures |r.0| == |was| && r.1 <= 1
  {
    if j == 0 then (was, 0) else
      var (cur, taken) := SubtractWords(was, o, k, j - 1);
      var i := k + j - 1;
      var borrow := if cur[i] < o[j - 1] + taken then 1 else 0;
      (cur[i := cur[i] - o[j - 1] - taken + B * borrow], borrow)
  }

  lemma {:induction false} SubtractWordsPartial(was: seq<Word>, o: seq<Word>, k: nat, j: nat)
    requires j <= |o| && k + j <= |was|
    ensures PartialDifference(was, SubtractWords(was, o, k, j).0, o, k, j, SubtractWords(was, o, k, j).1)
  {
    if j == 0 {
      NumZero(k);
    } else {
      SubtractWordsPartial(was, o, k, j - 1);
      var (cur, taken) := SubtractWords(was, o, k, j - 1);
      var (now, borrow) := SubtractWords(was, o, k, j);
      BorrowStep(was, cur, o, k, j - 1, now[k + j - 1], taken, borrow);
    }
  }

  /** One word of the subtraction of o * B^k from was. */
  lemma BorrowStep(was: seq<Word>, cur: seq<Word>, o: seq<Word>, k: nat, j: nat, digit: Word, taken: nat, borrow: nat)
    requires j < |o| && k + j < |was| && PartialDifference(was, cur, o, k, j, taken) && borrow <= 1
    requires digit == cur[k + j] - o[j] - taken + B * borrow
    ensures PartialDifference(was, cur[k + j := digit], o, k, j + 1, borrow)
  {
    var i := k + j;
    var now := cur[i := digit];
    assert now[..i] == cur[..i];
    assert cur[i] == was[i] by { assert cur[i..][0] == was[i..][0]; }
    ValPrefix(now, i);
    ValPrefix(was, i);
    NumStep(o, j, k);
    DigitArith(W(i), was[i], o[j], taken, borrow, digit);
    assert now[i + 1..] == cur[i..][1..];
  }

  lemma NumStep(o: seq<Word>, j: nat, k: nat)
    requires j < |o|
    ensures Num(o[..j + 1], k) == Num(o[..j], k) + W(k + j) * o[j]
  {
    ValPrefix(o, j);
    NumProduct(o[..j], k);
    NumProduct(o[..j + 1], k);
    WAdd(k, j);
    StepArith(Val(o[..j]), W(j), o[j], W(k));
  }

  lemma StepArith(low: nat, wj: nat, y: nat, wk: nat)
    ensures (low + wj * y) * wk == low * wk + (wk * wj) * y
  {
    MulAssoc(wk, wj, y);
    MulDistrib(wk, low, wj * y);
  }

  lemma DigitArith(w: int, x: int, y: int, taken: int, borrow: int, digit: int)
    requires digit == x - y - taken + B * borrow && 0 <= taken <= 1 && 0 <= borrow <= 1
    ensures w * digit == w * x - w * y - (if taken == 0 then 0 else w) + (if borrow == 0 then 0 else B * w)
  {
    assert w * digit == w * (x - y) - w * taken + w * (B * borrow) by {
      MulDistrib(w, x - y - taken, B * borrow);
      MulDistrib(w, x - y, -taken);
    }
    MulDistrib(w, x, -y);
  }

  /** What the borrow tail leaves: it only ever touches word i. */
  function Tail(s: seq<Word>, i: nat, borrow: nat): seq<Word>
    requires borrow > 0 ==> i < |s|
  {
    if borrow == 0 then s else s[i := if s[i] > 0 then s[i] - 1 else B - 2]
  }

  /** A borrow past the last word cannot happen. */
  lemma BorrowFits(was: seq<Word>, e: nat, o: seq<Word>, eo: nat)
    requires e <= eo && TopNonzero(o) && Num(was, e) >= Num(o, eo)
    ensures eo - e + |o| <= |was|
    ensures SubtractWords(was, o, eo - e, |o|).1 > 0 ==> eo - e + |o| < |was|
  {
    var k := eo - e;
    assert e + k == eo;
    SubtractInRange(was, e, o, k);
    SubtractWordsPartial(was, o, k, |o|);
    var (cur, borrow) := SubtractWords(was, o, k, |o|);
    assert o[..|o|] == o;
    BorrowOut(was, cur, o, k, borrow);
  }

  /** All words subtracted and the borrow tail run. */
  function Difference(was: seq<Word>, k: nat, o: seq<Word>): seq<Word>
    requires k + |o| <= |was| && (SubtractWords(was, o, k, |o|).1 > 0 ==> k + |o| < |was|)
  {
    Tail(SubtractWords(was, o, k, |o|).0, k + |o|, SubtractWords(was, o, k, |o|).1)
  }

  /** The result is right unless the borrow sticks. */
  lemma DifferenceValue(was: seq<Word>, e: nat, o: seq<Word>, eo: nat, k: nat)
    requires e + k == eo && TopNonzero(o) && Num(was, e) >= Num(o, eo)
    ensures k + |o| <= |was| && (SubtractWords(was, o, k, |o|).1 > 0 ==> k + |o| < |was|)
    ensures BorrowSticks(was, k, o) ==> Num(Difference(was, k, o), e) != Num(was, e) - Num(o, eo)
    ensures !BorrowSticks(was, k, o) ==> Num(Difference(was, k, o), e) == Num(was, e) - Num(o, eo)
  {
    BorrowFits(was, e, o, eo);
    SubtractInRange(was, e, o, k);
    SubtractWordsPartial(was, o, k, |o|);
    var (cur, borrow) := SubtractWords(was, o, k, |o|);
    assert o[..|o|] == o;
    BorrowOut(was, cur, o, k, borrow);
    BorrowSettled(was, e, cur, o, k, borrow);
  }

  /** After the common words: a borrow is left over exactly if the words above k were too small. */
  lemma BorrowOut(was: seq<Word>, cur: seq<Word>, o: seq<Word>, k: nat, borrow: nat)
    requires k + |o| <= |was| == |cur| && borrow <= 1 && Val(was) >= Num(o, k)
    requires Val(cur[..k + |o|]) == Val(was[..k + |o|]) - Num(o, k) + Borrowed(borrow, k + |o|)
    ensures borrow == 1 <==> Val(was[k..k + |o|]) < Val(o)
    ensures borrow == 1 ==> k + |o| < |was|
  {
    var i := k + |o|;
    ValBound(cur[..i]);
    assert borrow == 1 <==> Val(was[..i]) < Num(o, k);
    PrefixBelow(was[..i], k, o);
    assert was[..i][k..] == was[k..i];
    if i == |was| { assert was[..i] == was; }
  }

  lemma PrefixBelow(a: seq<Word>, k: nat, o: seq<Word>)
    requires k <= |a|
    ensures Val(a) < Num(o, k) <==> Val(a[k..]) < Val(o)
  {
    ValSplit(a, k);
    ValBound(a[..k]);
    NumProduct(o, k);
    HighPartBelow(Val(a[..k]), Val(a[k..]), Val(o), W(k));
  }

  lemma HighPartBelow(low: nat, high: nat, o: nat, w: nat)
    requires low < w
    ensures low + w * high < o * w <==> high < o
  {
    if high < o {
      HigherDigitWins(w, low, high, o);
    } else {
      MulMono(o, high, w);
    }
  }

  lemma BorrowSettled(was: seq<Word>, e: nat, mid: seq<Word>, o: seq<Word>, k: nat, borrow: nat)
    requires k + |o| <= |was| == |mid| && mid[k + |o|..] == was[k + |o|..]
    requires Val(mid[..k + |o|]) == Val(was[..k + |o|]) - Num(o, k) + Borrowed(borrow, k + |o|)
    requires borrow <= 1 && (borrow == 1 <==> Val(was[k..k + |o|]) < Val(o))
    requires borrow == 1 ==> k + |o| < |was|
    ensures Num(Tail(mid, k + |o|, borrow), e) == Num(was, e) - Num(o, e + k) <==> !BorrowSticks(was, k, o)
  {
    var i := k + |o|;
    var fin := Tail(mid, i, borrow);
    assert Val(mid) == Val(was) - Num(o, k) + Borrowed(borrow, i) by {
      ValSplit(was, i);
      ValSplit(mid, i);
    }
    if borrow == 1 {
      assert mid[i] == was[i] by { assert mid[i..][0] == was[i..][0]; }
      ValUpdate(mid, i, fin[i]);
      SettleArith(W(i), fin[i], mid[i]);
    }
    assert Val(fin) == Val(was) - Num(o, k) <==> !BorrowSticks(was, k, o);
    NumProduct(fin, e);
    NumProduct(was, e);
    NumNested(o, k, e);
    ScaledDifference(Val(fin), Val(was), Num(o, k), W(e));
  }

  lemma SettleArith(w: nat, x: int, y: int)
    requires w > 0
    ensures w + w * (x - y) == 0 <==> x == y - 1
  {
    MulDistrib(w, x - y, 1);
    if x - y + 1 > 0 { MulMono(1, x - y + 1, w); } else if x - y + 1 < 0 { MulMono(x - y + 1, -1, w); }
  }

  lemma ScaledDifference(x: int, y: int, z: int, w: nat)
    requires w > 0
    ensures x * w == y * w - z * w <==> x == y - z
  {
    MulDistrib(w, y - z, z);
    if x * w == (y - z) * w { MulCancel(x, y - z, w); }
  }

  function Zeros(n: nat): (r: seq<Word>)
    ensures |r| == n && AllZero(r)
  {
    if n == 0 then [] else [0] + Zeros(n - 1)
  }

  /** Zero words written below s are worth the exponent they replace. */
  lemma {:induction false} ZerosBelow(s: seq<Word>, n: nat, e: nat)
    ensures Num(Zeros(n) + s, e) == Num(s, e + n)
  {
    var z := Zeros(n);
    ValZeros(z);
    ValConcat(z, s);
    NumProduct(z + s, e);
    NumShift(s, e, n);
  }

  /** Equal numbers, but the dividend has the shorter array: the comparison takes it for the smaller one. */
  predicate HiddenTie(a: seq<Word>, ea: nat, d: seq<Word>, ed: nat) {
    LeftoverZeros(a, ea, d, ed) && |a| < |d|
  }

  /** A quotient below B leaves the dividend at most one word longer than the divisor. */
  lemma QuotientSpan(a: seq<Word>, ea: nat, d: seq<Word>, ed: nat)
    requires TopNonzero(a) && Num(a, ea) < B * Num(d, ed)
    ensures |a| + ea <= |d| + ed + 1
  {
    NumAbove(a, ea);
    NumBelow(d, ed);
    if |a| + ea > |d| + ed + 1 { WMono(|d| + ed + 1, |a| - 1 + ea); }
  }

  lemma PositiveTop(s: seq<Word>, e: nat)
    requires Trimmed(s) && Num(s, e) > 0
    ensures TopNonzero(s)
  {
    if s == [0] {
      NumProduct(s, e);
      ValOne(0);
    }
  }

  /** With at most one word above the divisor the borrow ends in the nonzero top word. */
  lemma NoStuckBorrow(a: seq<Word>, ea: nat, d: seq<Word>, ed: nat, quotient: nat)
    requires TopNonzero(a) && ea <= ed && quotient * Num(d, ed) + Num(a, ea) < B * Num(d, ed)
    ensures !BorrowSticks(a, ed - ea, d)
  {
    MulMono(0, quotient, Num(d, ed));
    QuotientSpan(a, ea, d, ed);
  }

  lemma QuotientStep(q: nat, d: nat, v: nat)
    requires v >= d
    ensures q * d + v == (q + 1) * d + (v - d)
  {
  }

  lemma QuotientBelow(q: nat, d: nat, b: nat)
    requires q * d < b * d
    ensures q < b
  {
    if q >= b { MulMono(b, q, d); }
  }

  /** The 128-bit sum used by Square when the compiler has no 128-bit integer. */
  class Accumulator {
    var lower: Word64
    var upper: Word64

    function Sum(): nat
      reads this
    {
      lower + B * B * upper
    }

    constructor ()
      ensures Sum() == 0
    {
      lower, upper := 0, 0;
    }

    method Add(n: Word64)
      requires Sum() + n < B * B * B * B
      modifies this
      ensures Sum() == old(Sum()) + n
    {
      lower := (lower + n) % (B * B);
      if lower < n { upper := upper + 1; }
    }

    /** The conversion to a 32-bit word. */
    method Low() returns (w: Word)
      ensures w == Sum() % B
    {
      w := lower % B;
      assert lower + B * B * upper == B * (lower / B + B * upper) + w;
      QuotientUnique(Sum(), B, lower / B + B * upper, w);
    }

    method ShiftRightWord()
      modifies this
      ensures Sum() == old(Sum()) / B
    {
      lower := upper * B % (B * B) + lower / B;
      upper := upper / B;
    }
  }

  function WordOr0(s: seq<Word>, i: int): Word {
    if 0 <= i < |s| then s[i] else 0
  }

  /** The 64-bit product of two words. */
  function Product(x: Word, y: Word): (r: Word64)
    ensures r <= (B - 1) * (B - 1)
  {
    ProductFits(x, y, 0);
    MulMono(x, B - 1, y);
    MulMono(y, B - 1, B - 1);
    x * y
  }

  /** Sum of a[i] * b[t - i] over all i. */
  function Conv(a: seq<Word>, b: seq<Word>, t: int): nat {
    if |a| == 0 then 0 else
      var m := |a| - 1;
      Conv(a[..m], b, t) + Product(a[m], WordOr0(b, t - m))
  }

  /** Sum of Conv(a, b, t) * B^t over t < n. */
  function ConvSum(a: seq<Word>, b: seq<Word>, n: nat): nat {
    if n == 0 then 0 else
      ConvSum(a, b, n - 1) + Lift(Conv(a, b, n - 1), n - 1)
  }

  /** b moved up by m words, cut off below word n. */
  function Shifted(b: seq<Word>, m: nat, n: nat): nat {
    if n <= m then 0 else if n - m <= |b| then Num(b[..n - m], m) else Num(b, m)
  }

  lemma {:induction false} ConvSumLastWord(a: seq<Word>, b: seq<Word>, n: nat)
    requires |a| > 0
    ensures var m := |a| - 1; ConvSum(a, b, n) == ConvSum(a[..m], b, n) + a[m] * Shifted(b, m, n)
  {
    var m := |a| - 1;
    if n > 0 {
      ConvSumLastWord(a, b, n - 1);
      ShiftedStep(b, m, n - 1);
      LiftSum(Conv(a[..m], b, n - 1), Product(a[m], WordOr0(b, n - 1 - m)), n - 1);
      LiftProduct(Product(a[m], WordOr0(b, n - 1 - m)), n - 1);
      LastProductArith(a[m], WordOr0(b, n - 1 - m), W(n - 1), Shifted(b, m, n - 1));
    }
  }

  lemma {:induction false} LiftSum(x: nat, y: nat, n: nat)
    ensures Lift(x + y, n) == Lift(x, n) + Lift(y, n)
  {
    if n > 0 { LiftSum(x, y, n - 1); }
  }

  lemma LastProductArith(x: int, y: int, w: int, low: int)
    ensures w * (x * y) + x * low == x * (low + y * w)
  {
    MulDistrib(x, low, y * w);
    Commute(w, x, y);
    MulAssoc(x, y, w);
  }

  lemma ShiftedStep(b: seq<Word>, m: nat, n: nat)
    ensures Shifted(b, m, n + 1) == Shifted(b, m, n) + WordOr0(b, n - m) * W(n)
  {
    if m <= n < m + |b| {
      NumStep(b, n - m, m);
      NumZero(m);
      assert b[..0] == [];
    } else if n == m + |b| {
      assert b[..|b|] == b;
      if |b| == 0 { NumZero(m); }
    }
  }

  lemma {:induction false} ConvSumIsProduct(a: seq<Word>, b: seq<Word>, n: nat)
    requires n >= |a| + |b|
    ensures ConvSum(a, b, n) == Val(a) * Val(b)
  {
    if |a| == 0 {
      ConvSumEmpty(b, n);
    } else {
      var m := |a| - 1;
      ConvSumIsProduct(a[..m], b, n);
      ConvSumLastWord(a, b, n);
      ValPrefix(a, m);
      assert a[..m + 1] == a;
      NumProduct(b, m);
      LastWordArith(Val(a[..m]), W(m), a[m], Val(b));
    }
  }

  lemma LastWordArith(low: int, w: int, x: int, v: int)
    ensures (low + w * x) * v == low * v + x * (v * w)
  {
    MulDistrib(v, low, w * x);
    Commute(w, x, v);
    MulAssoc(x, v, w);
  }

  lemma {:induction false} ConvSumEmpty(b: seq<Word>, n: nat)
    ensures ConvSum([], b, n) == 0
  {
    if n > 0 { ConvSumEmpty(b, n - 1); }
  }

  lemma {:induction false} ConvBound(a: seq<Word>, b: seq<Word>, t: int)
    ensures Conv(a, b, t) <= |a| * ((B - 1) * (B - 1))
  {
    if |a| > 0 {
      var m := |a| - 1;
      ConvBound(a[..m], b, t);
    }
  }

  /** Words of a beyond position t do not meet any word of b. */
  lemma {:induction false} ConvCutOff(a: seq<Word>, b: seq<Word>, t: nat, i: nat)
    requires t < i <= |a|
    ensures Conv(a[..i], b, t) == Conv(a, b, t)
    decreases |a|
  {
    if i < |a| {
      var m := |a| - 1;
      ConvCutOff(a[..m], b, t, i);
      assert a[..m][..i] == a[..i];
    } else {
      assert a[..i] == a;
    }
  }

  /** Words of a so low that b has no partner for them. */
  lemma {:induction false} ConvNothing(a: seq<Word>, b: seq<Word>, t: nat)
    requires |a| + |b| <= t + 1
    ensures Conv(a, b, t) == 0
  {
    if |a| > 0 { ConvNothing(a[..|a| - 1], b, t); }
  }

  /** The carry into word t of the square of n. */
  function SquareCarry(n: seq<Word>, t: nat): nat {
    if t == 0 then 0 else (SquareCarry(n, t - 1) + Conv(n, n, t - 1)) / B
  }

  /** The lowest t words of the square of n. */
  function SquareWords(n: seq<Word>, t: nat): (r: seq<Word>)
    ensures |r| == t
  {
    if t == 0 then [] else SquareWords(n, t - 1) + [(SquareCarry(n, t - 1) + Conv(n, n, t - 1)) % B]
  }

  lemma {:induction false} SquareWordsValue(n: seq<Word>, t: nat)
    ensures Val(SquareWords(n, t)) + Lift(SquareCarry(n, t), t) == ConvSum(n, n, t)
    ensures SquareCarry(n, t) <= B * |n|
  {
    if t > 0 {
      SquareWordsValue(n, t - 1);
      var carry, conv := SquareCarry(n, t - 1), Conv(n, n, t - 1);
      ValAppend(SquareWords(n, t - 1), (carry + conv) % B);
      LiftProduct(carry, t - 1);
      LiftProduct(conv, t - 1);
      LiftProduct((carry + conv) / B, t);
      SplitCarry(W(t - 1), carry + conv);
      MulDistrib(W(t - 1), carry, conv);
      ConvBound(n, n, t - 1);
      QuotientBound(|n|, carry + conv);
    }
  }

  lemma QuotientBound(m: nat, sum: nat)
    requires sum <= B * m + m * ((B - 1) * (B - 1))
    ensures sum / B <= B * m
  {
  }

  /** One more product for word t, and the sum stays within 128 bits. */
  lemma ConvOneMore(n: seq<Word>, i: nat, t: nat)
    requires i < |n| < 0x4000_0000 && 0 <= t - i < |n|
    ensures Conv(n[..i + 1], n, t) == Conv(n[..i], n, t) + Product(n[i], n[t - i])
    ensures SquareCarry(n, t) + Conv(n[..i + 1], n, t) < B * B * B * B
  {
    assert n[..i + 1][..i] == n[..i];
    SquareWordsValue(n, t);
    ConvBound(n[..i + 1], n, t);
    MulMono(i + 1, 0x4000_0000, (B - 1) * (B - 1));
  }

  lemma SquareComplete(n: seq<Word>, e: nat)
    requires |n| > 0
    ensures Num(Trim(SquareWords(n, 2 * |n|)), 2 * e) == Num(n, e) * Num(n, e)
  {
    var m := |n|;
    var cur := SquareWords(n, 2 * m);
    assert Val(cur) == Val(n) * Val(n) by {
      SquareWordsValue(n, 2 * m);
      ConvSumIsProduct(n, n, 2 * m);
      LiftProduct(SquareCarry(n, 2 * m), 2 * m);
      ValBound(n);
      WAdd(m, m);
      SquareCarryZero(Val(n), W(m), Val(cur), SquareCarry(n, 2 * m));
    }
    assert Num(Trim(cur), 2 * e) == Val(cur) * (W(e) * W(e)) by { NumProduct(Trim(cur), 2 * e); WAdd(e, e); }
    NumProduct(n, e);
    SquareArith(Val(n), W(e));
  }

  lemma SquareCarryZero(v: nat, w: nat, cur: nat, carry: nat)
    requires v < w && cur + (w * w) * carry == v * v
    ensures carry == 0
  {
    MulMono(v, w, v);
    MulMonoStrict(v, w, w);
    if carry > 0 { MulMono(1, carry, w * w); }
  }

  lemma SquareArith(v: nat, w: nat)
    ensures (v * v) * (w * w) == (v * w) * (v * w)
  {
    calc {
      (v * v) * (w * w);
      v * (v * (w * w));
      { MulAssoc(v, w, w); }
      v * ((v * w) * w);
      { Commute(v, w, v * w); }
      (v * w) * (v * w);
    }
  }

  lemma TopBit(power: nat, k: nat)
    requires Pow(2, k) <= power < Pow(2, k + 1)
    ensures ShiftedRight(power, k) == 1
  {
    ShiftedRightQuotient(power, k);
    QuotientUnique(power, Pow(2, k), 1, power - Pow(2, k));
  }

  lemma {:induction false} ShiftedRightShrinks(x: nat, k: nat)
    requires k > 0
    ensures ShiftedRight(x, k) <= x / 2
  {
    if k > 1 { ShiftedRightShrinks(x, k - 1); }
  }

  /** 5^p needs at most p words. */
  lemma Pow5Fits(s: seq<Word>, p: nat)
    requires Trimmed(s) && Num(s, 0) == Pow(5, p) && 0 < p
    ensures 0 < |s| <= p
  {
    PositiveTop(s, 0);
    ValTopNonzero(s);
    Pow5Below(p);
    if |s| > p { WMono(p, |s| - 1); }
  }

  lemma {:induction false} Pow5Below(p: nat)
    requires 0 < p
    ensures Pow(5, p) < W(p)
  {
    if p > 1 { Pow5Below(p - 1); } else { assert Pow(5, 1) == 5 * Pow(5, 0); assert W(1) == B * W(0); }
  }

  class Bigint {
    var bigits: seq<Word>
    var exp: nat

    function Value(): nat
      reads this
    {
      Num(bigits, exp)
    }

    function NumBigits(): nat
      reads this
    {
      |bigits| + exp
    }

    constructor ()
      ensures bigits == [] && exp == 0
    {
      bigits, exp := [], 0;
    }

    static method Compare(lhs: Bigint, rhs: Bigint) returns (r: int)
      requires |lhs.bigits| > 0 && |rhs.bigits| > 0
      requires SpanHonest(lhs.bigits, lhs.exp, rhs.bigits, rhs.exp)
      ensures !LeftoverZeros(lhs.bigits, lhs.exp, rhs.bigits, rhs.exp) ==> r == Sign(lhs.Value() - rhs.Value())
      ensures LeftoverZeros(lhs.bigits, lhs.exp, rhs.bigits, rhs.exp) ==>
        r == Sign(|lhs.bigits| - |rhs.bigits|) != Sign(lhs.Value() - rhs.Value()) == 0
      ensures lhs.NumBigits() != rhs.NumBigits() ==> r == Sign(lhs.NumBigits() - rhs.NumBigits())
    {
      var numLhs, numRhs := lhs.NumBigits(), rhs.NumBigits();
      if numLhs != numRhs {
        if numLhs > numRhs {
          LongerIsLarger(lhs.bigits, lhs.exp, rhs.bigits, rhs.exp);
          return 1;
        }
        LongerIsLarger(rhs.bigits, rhs.exp, lhs.bigits, lhs.exp);
        return -1;
      }
      var i, j := |lhs.bigits| - 1, |rhs.bigits| - 1;
      var end := i - j;
      if end < 0 { end := 0; }
      while i >= end
        invariant end - 1 <= i < |lhs.bigits| && j - i == |rhs.bigits| - |lhs.bigits|
        invariant lhs.bigits[i + 1..] == rhs.bigits[j + 1..]
      {
        var lhsBigit, rhsBigit := lhs.bigits[i], rhs.bigits[j];
        if lhsBigit != rhsBigit {
          MismatchDecides(lhs.bigits, lhs.exp, rhs.bigits, rhs.exp, i, j);
          return if lhsBigit > rhsBigit then 1 else -1;
        }
        assert lhs.bigits[i..] == [lhsBigit] + lhs.bigits[i + 1..];
        assert rhs.bigits[j..] == [rhsBigit] + rhs.bigits[j + 1..];
        i, j := i - 1, j - 1;
      }
      AgreementDecides(lhs.bigits, lhs.exp, rhs.bigits, rhs.exp);
      if i != j { return if i > j then 1 else -1; }
      return 0;
    }

    /** Sign of lhs1 + lhs2 - rhs, from the top word down with a running borrow. */
    static method AddCompare(lhs1: Bigint, lhs2: Bigint, rhs: Bigint) returns (r: int)
      requires lhs1.NumBigits() > rhs.NumBigits() ==> TopNonzero(lhs1.bigits)
      requires lhs2.NumBigits() > rhs.NumBigits() ==> TopNonzero(lhs2.bigits)
      requires rhs.NumBigits() > lhs1.NumBigits() + 1 && rhs.NumBigits() > lhs2.NumBigits() + 1 ==> TopNonzero(rhs.bigits)
      ensures r == Sign(lhs1.Value() + lhs2.Value() - rhs.Value())
    {
      var a, ea, b, eb, c, ec := lhs1.bigits, lhs1.exp, lhs2.bigits, lhs2.exp, rhs.bigits, rhs.exp;
      var maxLhs: int := if lhs1.NumBigits() > lhs2.NumBigits() then lhs1.NumBigits() else lhs2.NumBigits();
      var numRhs: int := rhs.NumBigits();
      if maxLhs + 1 < numRhs {
        SumBelow(a, ea, b, eb, c, ec);
        return -1;
      }
      if maxLhs > numRhs {
        if lhs1.NumBigits() > numRhs { LongerIsLarger(a, ea, c, ec); } else { LongerIsLarger(b, eb, c, ec); }
        return 1;
      }
      var borrow := 0;
      var minExp: int := if ea < eb then ea else eb;
      if ec < minExp { minExp := ec; }
      var i: int := numRhs - 1;
      while i >= minExp
        invariant 0 <= minExp <= i + 1 <= numRhs
        invariant borrow == B * Deficit(a, ea, b, eb, c, ec, numRhs, i + 1) && (borrow == 0 || borrow == B)
      {
        var sum := WordAt(a, ea, i) + WordAt(b, eb, i);
        var rhsBigit := WordAt(c, ec, i);
        DeficitDecides(a, ea, b, eb, c, ec, numRhs, i);
        if sum > rhsBigit + borrow { return 1; }
        borrow := rhsBigit + borrow - sum;
        if borrow > 1 { return -1; }
        borrow := borrow * B;
        i := i - 1;
      }
      DeficitDecides(a, ea, b, eb, c, ec, numRhs, minExp);
      return if borrow != 0 then -1 else 0;
    }

    method Assign(n: Word64)
      modifies this
      ensures Value() == n && exp == 0 && Trimmed(bigits)
    {
      bigits, exp := [n % B], 0;
      var rest := n / B;
      ValOne(n % B);
      while rest != 0
        invariant 0 <= rest < B && |bigits| >= 1 && (rest != 0 ==> |bigits| == 1)
        invariant exp == 0 && Val(bigits) + W(|bigits|) * rest == n
        invariant Trimmed(bigits) || rest != 0
        decreases rest
      {
        ValAppend(bigits, rest % B);
        bigits := bigits + [rest % B];
        rest := rest / B;
      }
    }

    method Multiply32(value: Word)
      modifies this`bigits
      ensures Value() == old(Value()) * value
      ensures value > 0 && Trimmed(old(bigits)) ==> Trimmed(bigits)
    {
      ghost var was := bigits;
      var carry, i, n := 0, 0, |bigits|;
      while i < n
        invariant 0 <= i <= n == |bigits| && bigits[i..] == was[i..]
        invariant 0 <= carry < B && Val(bigits[..i]) + W(i) * carry == Val(was[..i]) * value
      {
        var result := bigits[i] * value + carry;
        ProductFits(bigits[i], value, carry);
        CarryStep(was, bigits, i, value, carry, result % B, result / B);
        bigits := bigits[i := result % B];
        carry := result / B;
        i := i + 1;
      }
      assert bigits[..n] == bigits && was[..n] == was;
      ValAppend(bigits, carry);
      if carry != 0 { bigits := bigits + [carry]; }
      NumScaled(bigits, was, exp, value);
      if value > 0 && Trimmed(was) { ProductKeepsTrimmed(bigits, was, value); }
    }

    method Multiply64(value: Word64)
      modifies this`bigits
      ensures Value() == old(Value()) * value
      ensures value > 0 && Trimmed(old(bigits)) ==> Trimmed(bigits)
    {
      ghost var was := bigits;
      var lower, upper := value % B, value / B;
      var carry, i, n := 0, 0, |bigits|;
      while i < n
        invariant 0 <= i <= n == |bigits| && bigits[i..] == was[i..]
        invariant 0 <= carry < B * B && Val(bigits[..i]) + W(i) * carry == Val(was[..i]) * value
      {
        var result := bigits[i] * lower + carry % B;
        var next := bigits[i] * upper + result / B + carry / B;
        ProductFits(bigits[i], lower, carry % B);
        ProductFits(bigits[i], upper, carry / B);
        assert result % B + B * next == bigits[i] * value + carry by {
          SplitProduct(bigits[i], lower, upper, value);
        }
        CarryStep(was, bigits, i, value, carry, result % B, next);
        bigits := bigits[i := result % B];
        carry := next;
        i := i + 1;
      }
      assert bigits[..n] == bigits && was[..n] == was;
      while carry != 0
        invariant 0 <= carry < B * B && |bigits| >= |was|
        invariant Val(bigits) + W(|bigits|) * carry == Val(was) * value
        invariant carry == 0 && |bigits| > |was| ==> TopNonzero(bigits)
        decreases carry
      {
        ValAppend(bigits, carry % B);
        SplitCarry(W(|bigits|), carry);
        bigits := bigits + [carry % B];
        carry := carry / B;
      }
      NumScaled(bigits, was, exp, value);
      if value > 0 && Trimmed(was) { ProductKeepsTrimmed(bigits, was, value); }
    }

    method ShiftLeft(shift: nat)
      modifies this
      ensures Value() == old(Value()) * Pow(2, shift)
      ensures Trimmed(old(bigits)) ==> Trimmed(bigits)
      ensures exp == old(exp) + shift / 32
    {
      ghost var was, e := bigits, exp;
      exp := exp + shift / 32;
      var s := shift % 32;
      if s == 0 {
        ShiftValue(bigits, was, e, shift);
        return;
      }
      var p, q := Pow(2, s), Pow(2, 32 - s);
      ShiftFactors(s);
      var carry, i, n := 0, 0, |bigits|;
      while i < n
        invariant 0 <= i <= n == |bigits| && bigits[i..] == was[i..] && exp == e + shift / 32
        invariant 0 <= carry < p && Val(bigits[..i]) + W(i) * carry == Val(was[..i]) * p
      {
        ShiftStep(was, bigits, i, p, q, carry);
        var c := bigits[i] / q;
        bigits := bigits[i := bigits[i] * p % B + carry];
        carry := c;
        i := i + 1;
      }
      assert bigits[..n] == bigits && was[..n] == was;
      ValAppend(bigits, carry);
      if carry != 0 { bigits := bigits + [carry]; }
      ShiftValue(bigits, was, e, shift);
      if Trimmed(was) { ProductKeepsTrimmed(bigits, was, p); }
    }

    method SubtractBits(index: nat, other: Word, borrow: Word) returns (newBorrow: Word)
      requires index < |bigits| && borrow <= 1
      modifies this`bigits
      ensures newBorrow == if old(bigits[index]) < other + borrow then 1 else 0
      ensures bigits == old(bigits)[index := old(bigits[index]) - other - borrow + B * newBorrow]
    {
      var result := (bigits[index] - other - borrow) % 0x1_0000_0000_0000_0000;
      bigits := bigits[index := result % B];
      newBorrow := result / 0x8000_0000_0000_0000;
    }

    method RemoveLeadingZeros()
      requires |bigits| > 0
      modifies this`bigits
      ensures bigits == Trim(old(bigits)) && Trimmed(bigits) && Value() == old(Value())
    {
      var n := |bigits| - 1;
      assert bigits[..n + 1] == bigits;
      while n > 0 && bigits[n] == 0
        invariant 0 <= n < |bigits| && Trim(bigits[..n + 1]) == Trim(bigits)
      {
        assert bigits[..n + 1][..n] == bigits[..n];
        n := n - 1;
      }
      NumScaled(Trim(bigits), bigits, exp, 1);
      bigits := bigits[..n + 1];
    }

    /** Subtracts other in place; the tail of the borrow is never advanced past the word above other. */
    method SubtractAligned(other: Bigint)
      requires other != this && exp <= other.exp && TopNonzero(other.bigits)
      requires Value() >= other.Value()
      modifies this`bigits
      ensures Trimmed(bigits)
      ensures !BorrowSticks(old(bigits), other.exp - exp, other.bigits) ==> Value() == old(Value()) - other.Value()
      ensures BorrowSticks(old(bigits), other.exp - exp, other.bigits) ==> Value() != old(Value()) - other.Value()
    {
      ghost var was := bigits;
      var k := other.exp - exp;
      BorrowFits(was, exp, other.bigits, other.exp);
      var borrow := SubtractCommon(other, k);
      SettleBorrow(k + |other.bigits|, borrow);
      assert bigits == Difference(was, k, other.bigits);
      RemoveLeadingZeros();
      DifferenceValue(was, exp, other.bigits, other.exp, k);
    }

    /** The words of the subtrahend, from word k on. */
    method SubtractCommon(other: Bigint, k: nat) returns (borrow: Word)
      requires other != this && k + |other.bigits| <= |bigits|
      modifies this`bigits
      ensures (bigits, borrow) == SubtractWords(old(bigits), other.bigits, k, |other.bigits|)
    {
      borrow := 0;
      var i, j, n := k, 0, |other.bigits|;
      while j != n
        invariant 0 <= j <= n && i == k + j
        invariant (bigits, borrow) == SubtractWords(old(bigits), other.bigits, k, j)
        decreases n - j
      {
        borrow := SubtractBits(i, other.bigits[j], borrow);
        i, j := i + 1, j + 1;
      }
    }

    /** The tail of the borrow: i stays where it is. */
    method SettleBorrow(i: nat, borrow: nat)
      requires borrow <= 1 && (borrow > 0 ==> i < |bigits|)
      modifies this`bigits
      ensures bigits == Tail(old(bigits), i, borrow)
    {
      var left: Word := borrow;
      while left > 0
        invariant left <= 1 && (left > 0 ==> i < |bigits|)
        invariant Tail(bigits, i, left) == Tail(old(bigits), i, borrow)
        decreases left, if i < |bigits| then B - bigits[i] else 0
      {
        left := SubtractBits(i, 0, left);
      }
    }

    /** Lowers the exponent to other's by writing out the zero words. */
    method Align(other: Bigint)
      requires other != this
      modifies this
      ensures exp == if old(exp) > other.exp then other.exp else old(exp)
      ensures Value() == old(Value()) && |bigits| + exp == |old(bigits)| + old(exp)
      ensures TopNonzero(old(bigits)) ==> TopNonzero(bigits)
    {
      if exp <= other.exp { return; }
      ghost var was, e := bigits, exp;
      var difference := exp - other.exp;
      var n := |bigits|;
      bigits := bigits + Zeros(difference);
      var i := n - 1;
      var j := i + difference;
      while i >= 0
        invariant -1 <= i < n && j == i + difference && |bigits| == n + difference && exp == e
        invariant forall k :: 0 <= k <= i ==> bigits[k] == was[k]
        invariant forall k :: j < k < |bigits| ==> bigits[k] == was[k - difference]
        decreases i
      {
        bigits := bigits[j := bigits[i]];
        i, j := i - 1, j - 1;
      }
      assert bigits[difference..] == was;
      bigits := Zeros(difference) + bigits[difference..];
      ZerosBelow(was, difference, e - difference);
      exp := exp - difference;
    }

    /** Replaces this by its remainder modulo divisor and returns the quotient. */
    method DivModAssign(divisor: Bigint) returns (quotient: nat)
      requires divisor != this && TopNonzero(divisor.bigits) && Trimmed(bigits)
      requires NumBigits() > divisor.NumBigits() ==> TopNonzero(bigits)
      requires Value() < B * divisor.Value()
      modifies this
      ensures old(Value()) == quotient * divisor.Value() + Value() && quotient < B
      ensures Value() < divisor.Value() <==> !HiddenTie(old(bigits), old(exp), divisor.bigits, divisor.exp)
      ensures Trimmed(bigits) && NumBigits() <= divisor.NumBigits()
      ensures quotient == 0 ==> bigits == old(bigits) && exp == old(exp)
      ensures quotient > 0 ==> exp <= divisor.exp
    {
      ghost var v, d := Value(), divisor.Value();
      quotient := 0;
      var order := Compare(this, divisor);
      if order < 0 {
        return;
      }
      NumAbove(divisor.bigits, divisor.exp);
      PositiveTop(bigits, exp);
      Align(divisor);
      quotient := SubtractRepeatedly(divisor);
    }

    /** do subtract_aligned while the divisor fits; each time the quotient is one more. */
    method SubtractRepeatedly(divisor: Bigint) returns (quotient: nat)
      requires divisor != this && TopNonzero(divisor.bigits) && TopNonzero(bigits) && exp <= divisor.exp
      requires 0 < divisor.Value() <= Value() < B * divisor.Value()
      modifies this`bigits
      ensures old(Value()) == quotient * divisor.Value() + Value() && 0 < quotient < B
      ensures Value() < divisor.Value() && Trimmed(bigits) && NumBigits() <= divisor.NumBigits()
    {
      ghost var v, d := Value(), divisor.Value();
      quotient := 0;
      while true
        invariant TopNonzero(bigits) && d == divisor.Value() <= Value() && v == quotient * d + Value() < B * d
        decreases Value()
      {
        NoStuckBorrow(bigits, exp, divisor.bigits, divisor.exp, quotient);
        SubtractAligned(divisor);
        QuotientStep(quotient, d, v - quotient * d);
        quotient := quotient + 1;
        assert v == quotient * d + Value();
        var order := Compare(this, divisor);
        if order < 0 { break; }
        PositiveTop(bigits, exp);
      }
      QuotientBelow(quotient, d, B);
    }

    /** Schoolbook squaring, one result word at a time, with a 128-bit running sum. */
    method Square()
      requires 0 < |bigits| < 0x4000_0000
      modifies this
      ensures Value() == old(Value()) * old(Value()) && exp == 2 * old(exp)
      ensures Trimmed(bigits)
    {
      var n := bigits;
      bigits := Zeros(2 * |n|);
      var sum := new Accumulator();
      SquareLowHalf(n, sum);
      SquareTopHalf(n, sum);
      assert bigits[..2 * |n|] == bigits;
      SquareComplete(n, exp);
      RemoveLeadingZeros();
      exp := 2 * exp;
    }

    /** Words 0 to |n| - 1 of the square: i runs from 0 while j runs down to 0. */
    method SquareLowHalf(n: seq<Word>, sum: Accumulator)
      requires 0 < |n| < 0x4000_0000 && |bigits| == 2 * |n| && sum.Sum() == 0
      modifies this`bigits, sum
      ensures |bigits| == 2 * |n| && bigits[..|n|] == SquareWords(n, |n|) && sum.Sum() == SquareCarry(n, |n|)
    {
      var t := 0;
      while t < |n|
        invariant 0 <= t <= |n| && |bigits| == 2 * |n|
        invariant bigits[..t] == SquareWords(n, t) && sum.Sum() == SquareCarry(n, t)
      {
        var i, j: int := 0, t;
        while j >= 0
          invariant 0 <= i <= t + 1 && i + j == t && sum.Sum() == SquareCarry(n, t) + Conv(n[..i], n, t)
          decreases j
          modifies sum
        {
          AddProduct(n, i, j, t, sum);
          i, j := i + 1, j - 1;
        }
        ConvCutOff(n, n, t, i);
        StoreWord(n, t, sum);
        t := t + 1;
      }
    }

    /** Words |n| to 2|n| - 1 of the square: j starts at the top word. */
    method SquareTopHalf(n: seq<Word>, sum: Accumulator)
      requires 0 < |n| < 0x4000_0000 && |bigits| == 2 * |n|
      requires bigits[..|n|] == SquareWords(n, |n|) && sum.Sum() == SquareCarry(n, |n|)
      modifies this`bigits, sum
      ensures |bigits| == 2 * |n| && bigits[..2 * |n|] == SquareWords(n, 2 * |n|)
    {
      var t := |n|;
      while t < 2 * |n|
        invariant |n| <= t <= 2 * |n| == |bigits|
        invariant bigits[..t] == SquareWords(n, t) && sum.Sum() == SquareCarry(n, t)
      {
        var j := |n| - 1;
        var i := t - j;
        ConvNothing(n[..i], n, t);
        while i < |n|
          invariant t - |n| + 1 <= i <= |n| && i + j == t && sum.Sum() == SquareCarry(n, t) + Conv(n[..i], n, t)
          decreases |n| - i
          modifies sum
        {
          AddProduct(n, i, j, t, sum);
          i, j := i + 1, j - 1;
        }
        assert n[..i] == n;
        StoreWord(n, t, sum);
        t := t + 1;
      }
    }

    /** Adds the cross product of words i and j for word t. */
    static method AddProduct(n: seq<Word>, i: nat, j: nat, ghost t: nat, sum: Accumulator)
      requires i < |n| < 0x4000_0000 && j < |n| && i + j == t
      requires sum.Sum() == SquareCarry(n, t) + Conv(n[..i], n, t)
      modifies sum
      ensures sum.Sum() == SquareCarry(n, t) + Conv(n[..i + 1], n, t)
    {
      ConvOneMore(n, i, t);
      sum.Add(Product(n[i], n[j]));
    }

    /** Word t of the square of n is the low word of the sum; the rest is the carry. */
    method StoreWord(n: seq<Word>, t: nat, sum: Accumulator)
      requires t < |bigits| && bigits[..t] == SquareWords(n, t) && sum.Sum() == SquareCarry(n, t) + Conv(n, n, t)
      modifies this`bigits, sum
      ensures |bigits| == |old(bigits)| && bigits[..t + 1] == SquareWords(n, t + 1)
      ensures sum.Sum() == SquareCarry(n, t + 1)
    {
      var word := sum.Low();
      bigits := bigits[t := word];
      sum.ShiftRightWord();
    }

    /** 10^power as 5^power, by squaring along the bits of power, shifted left by power. */
    method AssignPow10(power: nat)
      requires power < 0x8000_0000
      modifies this
      ensures Value() == Pow(10, power) && Trimmed(bigits) && exp == power / 32
    {
      if power == 0 {
        Assign(1);
        return;
      }
      var bitmask := 1;
      ghost var k: nat := 0;
      while power >= bitmask
        invariant bitmask == Pow(2, k) && (k > 0 ==> power >= Pow(2, k - 1))
        decreases power - bitmask
      {
        bitmask := bitmask * 2;
        k := k + 1;
      }
      bitmask := bitmask / 2;
      k := k - 1;
      TopBit(power, k);
      Assign(5);
      assert Pow(5, 1) == 5 * Pow(5, 0);
      bitmask := bitmask / 2;
      while bitmask != 0
        invariant exp == 0 && Trimmed(bigits) && Value() == Pow(5, ShiftedRight(power, k))
        invariant bitmask == Pow(2, k) / 2 && ShiftedRight(power, k) > 0
        decreases bitmask
      {
        assert k > 0;
        ghost var p := ShiftedRight(power, k);
        k := k - 1;
        ShiftedRightShrinks(power, k + 1);
        Pow5Fits(bigits, p);
        Square();
        PowAdd(5, p, p);
        ShiftedRightQuotient(power, k);
        if power / bitmask % 2 != 0 { Multiply32(5); }
        bitmask := bitmask / 2;
      }
      ShiftLeft(power);
      PowMul(5, 2, power);
    }
  }
}

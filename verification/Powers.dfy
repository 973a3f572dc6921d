/** Integer powers and little-endian values of sequences of 32-bit words. */
module Powers {

  function Pow(b: nat, n: nat): (r: nat)
    ensures b > 0 ==> r > 0
  {
    if n == 0 then 1 else b * Pow(b, n - 1)
  }

  lemma {:induction false} PowAdd(b: nat, m: nat, n: nat)
    ensures Pow(b, m + n) == Pow(b, m) * Pow(b, n)
  {
    if m == 0 {
    } else {
      PowAdd(b, m - 1, n);
      MulAssoc(b, Pow(b, m - 1), Pow(b, n));
    }
  }

  lemma {:induction false} PowMul(a: nat, b: nat, n: nat)
    ensures Pow(a * b, n) == Pow(a, n) * Pow(b, n)
  {
    if n == 0 {
    } else {
      PowMul(a, b, n - 1);
      MulSwap(a, b, Pow(a, n - 1), Pow(b, n - 1));
    }
  }

  lemma MulSwap(a: int, b: int, x: int, y: int)
    ensures (a * b) * (x * y) == (a * x) * (b * y)
  {
  }

  lemma {:induction false} PowPow(b: nat, m: nat, n: nat)
    ensures Pow(Pow(b, m), n) == Pow(b, m * n)
  {
    if n == 0 {
    } else {
      PowPow(b, m, n - 1);
      PowAdd(b, m, m * (n - 1));
      assert m + m * (n - 1) == m * n;
    }
  }

  lemma {:induction false} PowMono(b: nat, m: nat, n: nat)
    requires b >= 1 && m <= n
    ensures Pow(b, m) <= Pow(b, n)
    decreases n
  {
    if m < n {
      PowMono(b, m, n - 1);
      MulMono(1, b, Pow(b, n - 1));
    }
  }

  lemma MulMono(a: int, b: int, c: int)
    requires a <= b && 0 <= c
    ensures a * c <= b * c
  {
  }

  lemma MulMonoStrict(a: int, b: int, c: int)
    requires a < b && 0 < c
    ensures a * c < b * c
  {
  }

  lemma MulAssoc(a: int, b: int, c: int)
    ensures (a * b) * c == a * (b * c)
  {
  }

  lemma MulDistrib(a: int, b: int, c: int)
    ensures a * (b + c) == a * b + a * c
  {
  }

  lemma MulCancel(a: int, b: int, c: int)
    requires c != 0 && a * c == b * c
    ensures a == b
  {
  }

  lemma QuotientUnique(n: int, d: int, q: int, r: int)
    requires d > 0 && n == d * q + r && 0 <= r < d
    ensures n / d == q && n % d == r
  {
    var q', r' := n / d, n % d;
    assert d * (q - q') == r' - r;
    if q > q' { MulMono(1, q - q', d); } else if q < q' { MulMono(q - q', -1, d); }
  }

  /** x >> k */
  function ShiftedRight(x: nat, k: nat): nat {
    if k == 0 then x else ShiftedRight(x, k - 1) / 2
  }

  lemma {:induction false} ShiftedRightQuotient(x: nat, k: nat)
    ensures x / Pow(2, k) == ShiftedRight(x, k)
  {
    if k > 0 {
      ShiftedRightQuotient(x, k - 1);
      assert Pow(2, k) == 2 * Pow(2, k - 1);
      HalvedQuotient(x, Pow(2, k - 1));
    }
  }

  lemma HalvedQuotient(x: nat, b: nat)
    requires b > 0
    ensures x / (2 * b) == x / b / 2
  {
    HalfOfQuotient(x, b, x / b, x % b);
  }

  lemma HalfOfQuotient(x: nat, b: nat, q: nat, r: nat)
    requires b > 0 && x == b * q + r && r < b
    ensures x / (2 * b) == q / 2
  {
    MulDistrib(b, 2 * (q / 2), q % 2);
    MulAssoc(b, 2, q / 2);
    MulMono(q % 2, 1, b);
    MulMono(0, q % 2, b);
    QuotientUnique(x, 2 * b, q / 2, b * (q % 2) + r);
  }
}

module Words {
  import opened Powers

  const B := 0x1_0000_0000
  const TWO64 := 0x1_0000_0000_0000_0000

  type Byte = x: int | 0 <= x < 256
  type Word = x: int | 0 <= x < 0x1_0000_0000
  type Word64 = x: int | 0 <= x < 0x1_0000_0000_0000_0000

  /** B^n, the weight of word n. */
  function W(n: nat): (r: nat)
    ensures r > 0
  {
    if n == 0 then 1 else B * W(n - 1)
  }

  lemma Pow2At32()
    ensures Pow(2, 32) == B
  {
    assert Pow(2, 8) == 256;
    PowAdd(2, 8, 8);
    PowAdd(2, 16, 16);
  }

  lemma {:induction false} WPow(n: nat)
    ensures W(n) == Pow(B, n)
  {
    if n > 0 { WPow(n - 1); }
  }

  lemma {:induction false} WAdd(m: nat, n: nat)
    ensures W(m + n) == W(m) * W(n)
  {
    if m > 0 {
      WAdd(m - 1, n);
      MulAssoc(B, W(m - 1), W(n));
    }
  }

  lemma {:induction false} WMono(m: nat, n: nat)
    requires m <= n
    ensures W(m) <= W(n)
    decreases n
  {
    if m < n { WMono(m, n - 1); }
  }

  /** Value of a little-endian word sequence. */
  function Val(s: seq<Word>): nat {
    if |s| == 0 then 0 else s[0] + B * Val(s[1..])
  }

  lemma ValOne(x: Word)
    ensures Val([x]) == x
  {
    assert [x][1..] == [];
  }

  lemma {:induction false} ValConcat(a: seq<Word>, b: seq<Word>)
    ensures Val(a + b) == Val(a) + W(|a|) * Val(b)
  {
    if |a| == 0 {
      assert a + b == b;
    } else {
      ValConcat(a[1..], b);
      assert (a + b)[1..] == a[1..] + b;
      MulAssoc(B, W(|a| - 1), Val(b));
    }
  }

  lemma ValAppend(s: seq<Word>, x: Word)
    ensures Val(s + [x]) == Val(s) + W(|s|) * x
  {
    ValConcat(s, [x]);
    ValOne(x);
  }

  lemma ValPrefix(s: seq<Word>, i: nat)
    requires i < |s|
    ensures Val(s[..i + 1]) == Val(s[..i]) + W(i) * s[i]
  {
    assert s[..i + 1] == s[..i] + [s[i]];
    ValAppend(s[..i], s[i]);
  }

  lemma {:induction false} ValBound(s: seq<Word>)
    ensures Val(s) < W(|s|)
  {
    if |s| > 0 {
      ValBound(s[1..]);
    }
  }

  lemma ValSplit(s: seq<Word>, k: nat)
    requires k <= |s|
    ensures Val(s) == Val(s[..k]) + W(k) * Val(s[k..])
  {
    assert s == s[..k] + s[k..];
    ValConcat(s[..k], s[k..]);
  }

  predicate AllZero(s: seq<Word>) {
    |s| == 0 || (s[0] == 0 && AllZero(s[1..]))
  }

  lemma {:induction false} ValZeros(s: seq<Word>)
    ensures Val(s) == 0 <==> AllZero(s)
  {
    if |s| > 0 {
      ValZeros(s[1..]);
    }
  }

  /** The highest differing word decides the order. */
  lemma {:induction false} ValTopDiffers(x: seq<Word>, y: seq<Word>, p: nat)
    requires |x| == |y| && p < |x|
    requires x[p + 1..] == y[p + 1..] && x[p] > y[p]
    ensures Val(x) > Val(y)
  {
    ValSplit(x, p + 1);
    ValSplit(y, p + 1);
    ValPrefix(x, p);
    ValPrefix(y, p);
    ValBound(y[..p]);
    assert Val(x) - Val(x[..p]) - W(p) * x[p] == Val(y) - Val(y[..p]) - W(p) * y[p];
    HigherDigitWins(W(p), Val(y[..p]), y[p], x[p]);
  }

  lemma HigherDigitWins(w: nat, low: nat, a: int, b: int)
    requires low < w && a < b
    ensures low + w * a < w * b
  {
    MulMono(a + 1, b, w);
  }

  lemma ValUpdate(s: seq<Word>, i: nat, x: Word)
    requires i < |s|
    ensures Val(s[i := x]) == Val(s) + W(i) * (x - s[i])
  {
    var t := s[i := x];
    assert t[..i] == s[..i] && t[i + 1..] == s[i + 1..];
    ValSplit(s, i + 1);
    ValSplit(t, i + 1);
    ValPrefix(s, i);
    ValPrefix(t, i);
    assert Val(t) - W(i) * x == Val(s) - W(i) * s[i];
    MulDistrib(W(i), x - s[i], s[i]);
  }

  /** A value that needs all |s| words has a nonzero top word. */
  lemma ValNeedsTop(s: seq<Word>)
    requires |s| > 0 && Val(s) >= W(|s| - 1)
    ensures s[|s| - 1] != 0
  {
    var n := |s| - 1;
    ValPrefix(s, n);
    assert s[..n + 1] == s;
    ValBound(s[..n]);
  }

  /** A nonzero top word puts the value in the last B-power bracket. */
  lemma ValTopNonzero(s: seq<Word>)
    requires |s| > 0 && s[|s| - 1] != 0
    ensures W(|s| - 1) <= Val(s) < W(|s|)
  {
    ValBound(s);
    var n := |s| - 1;
    ValPrefix(s, n);
    assert s[..n + 1] == s;
    MulMono(1, s[n], W(n));
  }
}

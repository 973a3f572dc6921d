/** Division-free tests: multiplication by a modular inverse decides divisibility and yields the quotient. */
module DivTest {
  import opened Powers
  import opened Words

  /** The inverse of 5^k modulo the word size, and the largest quotient of a division by 5^k. */
  datatype Entry = Entry(inv: int, maxQuotient: int)

  const POWERS_OF_5_32: seq<Entry> := [
    Entry(0x00000001, 0xffffffff), Entry(0xcccccccd, 0x33333333), Entry(0xc28f5c29, 0x0a3d70a3),
    Entry(0x26e978d5, 0x020c49ba), Entry(0x3afb7e91, 0x0068db8b), Entry(0x0bcbe61d, 0x0014f8b5),
    Entry(0x68c26139, 0x000431bd), Entry(0xae8d46a5, 0x0000d6bf), Entry(0x22e90e21, 0x00002af3),
    Entry(0x3a2e9c6d, 0x00000897), Entry(0x3ed61f49, 0x000001b7)]

  const POWERS_OF_5_64: seq<Entry> := [
    Entry(0x0000000000000001, 0xffffffffffffffff), Entry(0xcccccccccccccccd, 0x3333333333333333),
    Entry(0x8f5c28f5c28f5c29, 0x0a3d70a3d70a3d70), Entry(0x1cac083126e978d5, 0x020c49ba5e353f7c),
    Entry(0xd288ce703afb7e91, 0x0068db8bac710cb2), Entry(0x5d4e8fb00bcbe61d, 0x0014f8b588e368f0),
    Entry(0x790fb65668c26139, 0x000431bde82d7b63), Entry(0xe5032477ae8d46a5, 0x0000d6bf94d5e57a),
    Entry(0xc767074b22e90e21, 0x00002af31dc46118), Entry(0x8e47ce423a2e9c6d, 0x0000089705f4136b),
    Entry(0x4fa7f60d3ed61f49, 0x000001b7cdfd9d7b), Entry(0x0fee64690c913975, 0x00000057f5ff85e5),
    Entry(0x3662e0e1cf503eb1, 0x000000119799812d), Entry(0xa47a2cf9f6433fbd, 0x0000000384b84d09),
    Entry(0x54186f653140a659, 0x00000000b424dc35), Entry(0x7738164770402145, 0x0000000024075f3d),
    Entry(0xe4a4d1417cd9a041, 0x000000000734aca5), Entry(0xc75429d9e5c5200d, 0x000000000170ef54),
    Entry(0xc1773b91fac10669, 0x000000000049c977), Entry(0x26b172506559ce15, 0x00000000000ec1e4),
    Entry(0xd489e3a9addec2d1, 0x000000000002f394), Entry(0x90e860bb892c8d5d, 0x000000000000971d),
    Entry(0x502e79bf1b6f4f79, 0x0000000000001e39), Entry(0xdcd618596be30fe5, 0x000000000000060b)]

  /** x * inv modulo the word size. */
  function Product(x: int, e: Entry, m: int): (r: int)
    requires m > 0
    ensures 0 <= r < m
  {
    (x * e.inv) % m
  }

  /** The product compared with the largest quotient. */
  predicate Test(x: int, e: Entry, m: int)
    requires m > 0
  {
    Product(x, e, m) <= e.maxQuotient
  }

  /** For d with inverse inv modulo m, the product tells whether d divides x, and then it is the quotient. */
  lemma InverseTest(x: int, d: int, e: Entry, m: int)
    requires 0 <= x < m && d > 0 && (e.inv * d) % m == 1 && e.maxQuotient == (m - 1) / d
    ensures Test(x, e, m) <==> x % d == 0
    ensures x % d == 0 ==> Product(x, e, m) == x / d
  {
    var k := (e.inv * d) / m;
    if x % d == 0 {
      QuotientOfMultiple(x, d, e.inv, k, m, x / d);
    } else if Test(x, e, m) {
      SmallProduct(x, d, e.inv, k, m, (x * e.inv) / m, Product(x, e, m));
    }
  }

  lemma QuotientOfMultiple(x: int, d: int, inv: int, k: int, m: int, q: int)
    requires 0 <= x < m && d > 0 && inv * d == m * k + 1 && x == d * q
    ensures (x * inv) % m == q <= (m - 1) / d
  {
    assert q >= 0 by { if q < 0 { MulMono(q, -1, d); } }
    assert q < m by { MulMono(1, d, q); }
    calc {
      x * inv;
      q * (inv * d);
      q * (m * k + 1);
      m * (q * k) + q;
    }
    QuotientUnique(x * inv, m, q * k, q);
    QuotientAtLeast(m - 1, d, q);
  }

  lemma QuotientAtLeast(n: int, d: int, q: int)
    requires d > 0
    ensures d * q <= n <==> q <= n / d
  {
    var p := n / d;
    if q > p { MulMono(p + 1, q, d); } else { MulMono(q, p, d); }
  }

  lemma SmallProduct(x: int, d: int, inv: int, k: int, m: int, j: int, y: int)
    requires 0 <= x < m && d > 0 && inv * d == m * k + 1 && x * inv == m * j + y && 0 <= y <= (m - 1) / d
    ensures x % d == 0
  {
    QuotientAtLeast(m - 1, d, y);
    MulMono(0, y, d);
    assert m * (x * k) + x == m * (j * d) + d * y by {
      MulSwapTwo(m, x, k);
      MulDistrib(x, m * k, 1);
      MulAssoc(x, inv, d);
      MulDistrib(d, m * j, y);
      MulSwapTwo(m, d, j);
    }
    QuotientUnique(m * (x * k) + x, m, x * k, x);
    QuotientUnique(m * (x * k) + x, m, j * d, d * y);
    QuotientUnique(x, d, y, 0);
  }

  /** A table is built from the modulus by repeated division by five. */
  ghost predicate Chained(t: seq<Entry>, m: int) {
    && |t| > 0 && m > 1 && t[0] == Entry(1, m - 1)
    && forall k :: 0 < k < |t| ==> Divided(t[k], t[k - 1], m)
  }

  predicate Divided(e: Entry, prev: Entry, m: int)
    requires m > 0
  {
    (e.inv * 5) % m == prev.inv && e.maxQuotient == prev.maxQuotient / 5
  }

  lemma {:induction false} ChainedEntry(t: seq<Entry>, m: int, k: nat)
    requires Chained(t, m) && k < |t|
    ensures (t[k].inv * Pow(5, k)) % m == 1 && t[k].maxQuotient == (m - 1) / Pow(5, k)
  {
    if k > 0 {
      ChainedEntry(t, m, k - 1);
      assert Divided(t[k], t[k - 1], m);
      var p: int := Pow(5, k - 1);
      EntryStep(t[k], t[k - 1], p, m);
    }
  }

  lemma EntryStep(e: Entry, prev: Entry, p: int, m: int)
    requires m > 1 && p > 0 && Divided(e, prev, m) && (prev.inv * p) % m == 1 && prev.maxQuotient == (m - 1) / p
    ensures (e.inv * (5 * p)) % m == 1 && e.maxQuotient == (m - 1) / (5 * p)
  {
    InverseStep(e.inv, (e.inv * 5) / m, prev.inv, (prev.inv * p) / m, p, m);
    QuotientOfQuotient(m - 1, p, (m - 1) / p, (m - 1) % p);
  }

  lemma InverseStep(inv: int, a: int, prev: int, b: int, p: int, m: int)
    requires m > 1 && inv * 5 == m * a + prev && prev * p == m * b + 1
    ensures (inv * (5 * p)) % m == 1
  {
    calc {
      inv * (5 * p);
      (m * a + prev) * p;
      m * (a * p) + (m * b + 1);
      m * (a * p + b) + 1;
    }
    QuotientUnique(inv * (5 * p), m, a * p + b, 1);
  }

  lemma QuotientOfQuotient(n: int, p: int, q: int, r: int)
    requires p > 0 && n == p * q + r && 0 <= r < p
    ensures n / (5 * p) == q / 5
  {
    var h, l := q / 5, q % 5;
    assert n == (5 * p) * h + (p * l + r);
    MulMono(0, l, p);
    MulMono(l, 4, p);
    QuotientUnique(n, 5 * p, h, p * l + r);
  }

  lemma TablesChained()
    ensures Chained(POWERS_OF_5_32, B) && Chained(POWERS_OF_5_64, TWO64)
  {
    forall k | 0 < k < |POWERS_OF_5_32| ensures Divided(POWERS_OF_5_32[k], POWERS_OF_5_32[k - 1], B) { Entry32(k); }
    forall k | 0 < k < |POWERS_OF_5_64| ensures Divided(POWERS_OF_5_64[k], POWERS_OF_5_64[k - 1], TWO64) { Entry64(k); }
  }

  lemma Entry32(k: int)
    requires 0 < k < |POWERS_OF_5_32|
    ensures Divided(POWERS_OF_5_32[k], POWERS_OF_5_32[k - 1], B)
  {
    if k == 1 {} else if k == 2 {} else if k == 3 {} else if k == 4 {} else if k == 5 {}
    else if k == 6 {} else if k == 7 {} else if k == 8 {} else if k == 9 {} else {}
  }

  lemma Entry64(k: int)
    requires 0 < k < |POWERS_OF_5_64|
    ensures Divided(POWERS_OF_5_64[k], POWERS_OF_5_64[k - 1], TWO64)
  {
    if k < 12 {
      if k == 1 {} else if k == 2 {} else if k == 3 {} else if k == 4 {} else if k == 5 {} else if k == 6 {}
      else if k == 7 {} else if k == 8 {} else if k == 9 {} else if k == 10 {} else {}
    } else {
      if k == 12 {} else if k == 13 {} else if k == 14 {} else if k == 15 {} else if k == 16 {} else if k == 17 {}
      else if k == 18 {} else if k == 19 {} else if k == 20 {} else if k == 21 {} else if k == 22 {} else {}
    }
  }

  /** divisible_by_power_of_5 on 32 bits is exact. */
  predicate DivisibleByPowerOf5In32(x: Word, exp: nat): (r: bool)
    requires exp <= 10
    ensures r <==> x % Pow(5, exp) == 0
  {
    TablesChained();
    ChainedEntry(POWERS_OF_5_32, B, exp);
    InverseTest(x, Pow(5, exp), POWERS_OF_5_32[exp], B);
    Test(x, POWERS_OF_5_32[exp], B)
  }

  /** divisible_by_power_of_5 on 64 bits is exact. */
  predicate DivisibleByPowerOf5In64(x: Word64, exp: nat): (r: bool)
    requires exp <= 23
    ensures r <==> x % Pow(5, exp) == 0
  {
    TablesChained();
    ChainedEntry(POWERS_OF_5_64, TWO64, exp);
    InverseTest(x, Pow(5, exp), POWERS_OF_5_64[exp], TWO64);
    Test(x, POWERS_OF_5_64[exp], TWO64)
  }

  /** Number of trailing zero bits. */
  function Ctz(n: nat): nat
    requires n > 0
  {
    if n % 2 == 1 then 0 else 1 + Ctz(n / 2)
  }

  lemma {:induction false} CtzIsMaximal(n: nat)
    requires n > 0
    ensures n % Pow(2, Ctz(n)) == 0 && n % Pow(2, Ctz(n) + 1) != 0
  {
    if n % 2 == 1 {
      assert Pow(2, 0) == 1 && Pow(2, 1) == 2;
    } else {
      CtzIsMaximal(n / 2);
      var k := Ctz(n / 2);
      TwiceDivides(n / 2, Pow(2, k));
      TwiceDivides(n / 2, Pow(2, k + 1));
    }
  }

  lemma TwiceDivides(x: int, d: int)
    requires d > 0
    ensures (2 * x) % (2 * d) == 0 <==> x % d == 0
  {
    var q, r := x / d, x % d;
    assert 2 * x == (2 * d) * q + 2 * r;
    QuotientUnique(2 * x, 2 * d, q, 2 * r);
  }

  lemma MultipleOf(x: int, d: int, q: int)
    requires d > 0 && x == d * q
    ensures x % d == 0 && x / d == q
  {
    QuotientUnique(x, d, q, 0);
  }

  /** A divisor of a divisor divides. */
  lemma PowerDivides(x: int, b: nat, k: nat, t: nat)
    requires b > 0 && k <= t && x % Pow(b, t) == 0
    ensures x % Pow(b, k) == 0
  {
    PowAdd(b, k, t - k);
    MulAssoc(Pow(b, k), Pow(b, t - k), x / Pow(b, t));
    MultipleOf(x, Pow(b, k), Pow(b, t - k) * (x / Pow(b, t)));
  }

  lemma {:induction false} DropFive(x: int, t: nat)
    requires (5 * x) % Pow(2, t) == 0
    ensures x % Pow(2, t) == 0
    decreases t
  {
    if t > 0 {
      var p, a := Pow(2, t - 1), (5 * x) / Pow(2, t);
      assert 5 * x == 2 * (p * a) by { MulAssoc(2, p, a); }
      var y := x / 2;
      assert x == 2 * y;
      MultipleOf(5 * y, p, a);
      DropFive(y, t - 1);
      TwiceDivides(y, p);
    }
  }

  lemma {:induction false} DropFives(m: int, s: nat, t: nat)
    requires (m * Pow(5, s)) % Pow(2, t) == 0
    ensures m % Pow(2, t) == 0
  {
    if s > 0 {
      MulSwapFive(m, Pow(5, s - 1));
      DropFive(m * Pow(5, s - 1), t);
      DropFives(m, s - 1, t);
    }
  }

  lemma MulSwapFive(m: int, p: int)
    ensures m * (5 * p) == 5 * (m * p) == (5 * m) * p
  {
  }

  /** n is n0 without s of its trailing decimal zeros, and s is as large as cap allows. */
  ghost predicate Stripped(n0: int, cap: nat, n: int, s: nat) {
    n0 == n * Pow(10, s) && s <= cap && (s < cap ==> n % 10 != 0)
  }

  /** Only one number and one count are right. */
  lemma StrippedUnique(n0: int, cap: nat, n: int, s: nat, n': int, s': nat)
    requires n0 > 0 && Stripped(n0, cap, n, s) && Stripped(n0, cap, n', s')
    ensures n == n' && s == s'
  {
    if s < s' { MoreZeros(n, s, n', s'); } else if s' < s { MoreZeros(n', s', n, s); } else { MulCancel(n, n', Pow(10, s)); }
  }

  lemma MoreZeros(n: int, s: nat, n': int, s': nat)
    requires s < s' && n * Pow(10, s) == n' * Pow(10, s')
    ensures n % 10 == 0
  {
    var d := s' - s - 1;
    PowAdd(10, s, d + 1);
    MulRotate(n', Pow(10, s), Pow(10, d + 1));
    MulCancel(n, n' * Pow(10, d + 1), Pow(10, s));
    MulSwapTen(n', Pow(10, d));
    MultipleOf(n, 10, n' * Pow(10, d));
  }

  lemma MulRotate(a: int, b: int, c: int)
    ensures a * (b * c) == (a * c) * b
  {
  }

  lemma MulSwapTen(a: int, b: int)
    ensures a * (10 * b) == 10 * (a * b)
  {
  }

  /** t trailing zero bits, or cap of them when there are more. */
  ghost predicate TwosOf(n0: int, t: nat, cap: nat) {
    t <= cap && n0 % Pow(2, t) == 0 && (t < cap ==> n0 % Pow(2, t + 1) != 0)
  }

  /** n0 == m * 5^s */
  predicate Peeled(n0: int, m: int, s: nat) { n0 == m * Pow(5, s) }

  /** s fives are out, 2^t is in, and either all twos are used up or no five is left. */
  lemma PeelDone(n0: nat, t: nat, cap: nat, s: nat, m: nat)
    requires TwosOf(n0, t, cap) && s <= t && Peeled(n0, m, s) && (s < t ==> m % 5 != 0)
    ensures Stripped(n0, cap, ShiftedRight(m, s), s) && ShiftedRight(m, s) <= m
  {
    PowerDivides(n0, 2, s, t);
    DropFives(m, s, s);
    ShiftOut(m, s);
    PowMul(2, 5, s);
    var n := ShiftedRight(m, s);
    ReorderTwos(n, Pow(2, s), Pow(5, s), m);
    if s < cap && n % 10 == 0 {
      TenLeft(n, Pow(2, s), Pow(5, s), m);
      if s == t { MultipleOf(n0, Pow(2, s + 1), (n / 2) * Pow(5, s)); }
    }
  }

  lemma ShiftOut(m: nat, s: nat)
    requires m % Pow(2, s) == 0
    ensures m == Pow(2, s) * ShiftedRight(m, s) && ShiftedRight(m, s) <= m
  {
    ShiftedRightQuotient(m, s);
    MulMono(1, Pow(2, s), ShiftedRight(m, s));
  }

  lemma ReorderTwos(n: int, two: int, five: int, m: int)
    requires m == two * n
    ensures m * five == n * (two * five)
  {
  }

  lemma TenLeft(n: int, two: int, five: int, m: int)
    requires m == two * n && n % 10 == 0
    ensures m % 5 == 0 && m * five == (2 * two) * ((n / 2) * five)
  {
    var h := n / 10;
    assert n == 10 * h && n / 2 == 5 * h;
    var x, y := two * h, h * five;
    MulSwapTwo(10, two, h);
    MultipleOf(m, 5, 2 * x);
    MulAssoc(10, x, five);
    MulAssoc(two, h, five);
    MulAssoc(5, h, five);
    MulAssoc(2, two, 5 * y);
    MulSwapTwo(5, two, y);
  }

  const FIFTH := Entry(0xcccccccd, 0x33333333)
  const TWENTY_FIFTH := Entry(0xc28f5c29, 0x0a3d70a3)
  const EIGHT_FIVES := Entry(0xc767074b22e90e21, 0x00002af31dc46118)

  lemma PeelStep(n0: int, m: int, s: nat)
    requires Peeled(n0, m, s) && m % 5 == 0
    ensures Peeled(n0, m / 5, s + 1)
  {
    MulSwapFive(m / 5, Pow(5, s));
  }

  /** The multiplication and comparison for a division by five. */
  method TryFive(m: Word, ghost n0: int, ghost s: nat) returns (divides: bool, quotient: Word)
    requires Peeled(n0, m, s)
    ensures divides <==> m % 5 == 0
    ensures divides ==> quotient == m / 5 && Peeled(n0, quotient, s + 1)
  {
    InverseTest(m, 5, FIFTH, B);
    divides, quotient := Test(m, FIFTH, B), Product(m, FIFTH, B);
    if divides { PeelStep(n0, m, s); }
  }

  /** The multiplication and comparison for a division by twenty-five. */
  method TryTwentyFive(m: Word, ghost n0: int, ghost s: nat) returns (divides: bool, quotient: Word)
    requires Peeled(n0, m, s)
    ensures divides <==> m % 5 == 0 && (m / 5) % 5 == 0
    ensures divides ==> quotient == m / 25 && Peeled(n0, quotient, s + 2)
  {
    InverseTest(m, 25, TWENTY_FIFTH, B);
    FiveTwice(m);
    divides, quotient := Test(m, TWENTY_FIFTH, B), Product(m, TWENTY_FIFTH, B);
    if divides {
      PeelStep(n0, m, s);
      PeelStep(n0, m / 5, s + 1);
    }
  }

  lemma FiveTwice(m: int)
    ensures m % 25 == 0 <==> m % 5 == 0 && (m / 5) % 5 == 0
    ensures (m / 5) / 5 == m / 25
  {
  }

  /** min(ctz(n), cap) */
  method CountTwos(n: nat, cap: nat) returns (t: nat)
    requires n > 0
    ensures TwosOf(n, t, cap)
  {
    CtzIsMaximal(n);
    t := Ctz(n);
    if t > cap {
      PowerDivides(n, 2, cap, t);
      t := cap;
    }
  }

  /** Single precision: strips up to seven zeros, two fives at a time. */
  method RemoveTrailingZeros32(n0: Word) returns (n: Word, s: nat)
    requires n0 > 0
    ensures Stripped(n0, 7, n, s)
  {
    var t := CountTwos(n0, 7);
    n, s := n0, 0;
    var divides, quotient;
    while s + 1 < t
      invariant s <= t && Peeled(n0, n, s)
    {
      divides, quotient := TryTwentyFive(n, n0, s);
      if !divides { break; }
      n, s := quotient, s + 2;
    }
    if s < t {
      divides, quotient := TryFive(n, n0, s);
      if divides { n, s := quotient, s + 1; }
    }
    PeelDone(n0, t, 7, s, n);
    n := ShiftedRight(n, s);
  }

  const TEN_TO_8 := 100000000

  /** Eight fives divide and t >= 8: the quotient by 10^8 carries the other zeros. */
  lemma EightZeros(n0: Word64, t: nat)
    requires 0 < n0 < B * TEN_TO_8 && TwosOf(n0, t, 16) && t >= 8
    ensures Test(n0, EIGHT_FIVES, TWO64) <==> n0 % 390625 == 0
    ensures n0 % 390625 == 0 ==> Product(n0, EIGHT_FIVES, TWO64) / 256 < B
    ensures n0 % 390625 == 0 ==>
      n0 == TEN_TO_8 * (Product(n0, EIGHT_FIVES, TWO64) / 256) && TwosOf(Product(n0, EIGHT_FIVES, TWO64) / 256, t - 8, 8)
  {
    InverseTest(n0, 390625, EIGHT_FIVES, TWO64);
    if n0 % 390625 == 0 {
      var c := n0 / 390625;
      assert Pow(5, 8) == 390625 && Pow(2, 8) == 256 by { SmallPowers(); }
      PowerDivides(n0, 2, 8, t);
      assert c * Pow(5, 8) == n0;
      DropFives(c, 8, 8);
      assert n0 == TEN_TO_8 * (c / 256);
      QuotientTwos(n0, c / 256, t);
    }
  }

  lemma SmallPowers()
    ensures Pow(5, 8) == 390625 && Pow(2, 8) == 256 && Pow(10, 8) == TEN_TO_8
  {
    assert Pow(5, 4) == 625 && Pow(2, 4) == 16 && Pow(10, 4) == 10000;
    PowAdd(5, 4, 4);
    PowAdd(2, 4, 4);
    PowAdd(10, 4, 4);
  }

  lemma QuotientTwos(n0: nat, q: nat, t: nat)
    requires n0 == TEN_TO_8 * q && TwosOf(n0, t, 16) && t >= 8
    ensures TwosOf(q, t - 8, 8)
  {
    SmallPowers();
    TwosAcross(n0, q, t);
    TwosAcross(n0, q, t + 1);
  }

  /** Moving eight twos between a number and its 10^8-fold. */
  lemma TwosAcross(n0: nat, q: nat, t: nat)
    requires n0 == TEN_TO_8 * q && t >= 8
    ensures n0 % Pow(2, t) == 0 <==> q % Pow(2, t - 8) == 0
  {
    SmallPowers();
    PowAdd(2, 8, t - 8);
    var p: int := Pow(2, t - 8);
    assert Pow(2, t) == 256 * p;
    if q % p == 0 { ScaledUp(n0, q, p); }
    if n0 % (256 * p) == 0 {
      ScaledDown(n0, q, p, n0 / (256 * p));
      DropFives(q, 8, t - 8);
    }
  }

  lemma ScaledUp(n0: int, q: int, p: int)
    requires n0 == TEN_TO_8 * q && p > 0 && q % p == 0
    ensures n0 % (256 * p) == 0
  {
    MulSwap(256, 390625, p, q / p);
    MultipleOf(n0, 256 * p, 390625 * (q / p));
  }

  lemma ScaledDown(n0: int, q: int, p: int, a: int)
    requires n0 == TEN_TO_8 * q && p > 0 && n0 == (256 * p) * a
    ensures (q * 390625) % p == 0
  {
    MulAssoc(256, p, a);
    MultipleOf(q * 390625, p, a);
  }

  /** The zeros of a 10^8-fold. */
  lemma StrippedTimesTenTo8(n0: int, q: int, n: int, s: nat)
    requires n0 == TEN_TO_8 * q && Stripped(q, 8, n, s)
    ensures Stripped(n0, 16, n, s + 8)
  {
    SmallPowers();
    PowAdd(10, s, 8);
    assert n * (Pow(10, s) * TEN_TO_8) == (n * Pow(10, s)) * TEN_TO_8;
  }

  /** Fewer than eight zeros: k fives and twos are taken out of the remainder by 10^8 only. */
  lemma RemainderDone(n0: nat, q: nat, r: nat, t: nat, k: nat, m: nat, n: int)
    requires n0 == TEN_TO_8 * q + r && TwosOf(n0, t, 16) && !(t >= 8 && n0 % 390625 == 0)
    requires Peeled(r, m, k) && k <= 7 && k <= t && (k == t || m % 5 != 0 || k == 7)
    requires n == ShiftedRight(m, k) + q * Pow(10, 8 - k)
    ensures Stripped(n0, 16, n, k) && 0 <= n <= n0
  {
    MulMono(0, q, Pow(10, 8 - k));
    assert n0 == n * Pow(10, k) by {
      RemainderShift(n0, q, r, t, k, m);
      SmallPowers();
      PowAdd(10, k, 8 - k);
      Recombine(ShiftedRight(m, k), q, Pow(10, k), Pow(10, 8 - k));
    }
    MulMono(1, Pow(10, k), n);
    NoMoreZeros(n0, q, r, t, k, m, n);
  }

  lemma RemainderShift(n0: nat, q: nat, r: nat, t: nat, k: nat, m: nat)
    requires n0 == TEN_TO_8 * q + r && TwosOf(n0, t, 16) && Peeled(r, m, k) && k <= 7 && k <= t
    ensures r == ShiftedRight(m, k) * Pow(10, k)
  {
    PowerDivides(n0, 2, k, t);
    RemainderPart(n0, q, r, 2, k);
    DropFives(m, k, k);
    ShiftOut(m, k);
    PowMul(2, 5, k);
    ReorderTwos(ShiftedRight(m, k), Pow(2, k), Pow(5, k), m);
  }

  lemma Recombine(a: int, q: int, low: int, high: int)
    ensures (a + q * high) * low == a * low + (low * high) * q
  {
  }

  /** A power of two or five that divides 10^8 and the number divides the remainder. */
  lemma RemainderPart(n0: int, q: int, r: int, b: nat, k: nat)
    requires n0 == TEN_TO_8 * q + r && k <= 8 && (b == 2 || b == 5) && n0 % Pow(b, k) == 0
    ensures r % Pow(b, k) == 0
  {
    SmallPowers();
    PowAdd(b, k, 8 - k);
    MulSwapTwo(if b == 2 then 390625 else 256, Pow(b, k), Pow(b, 8 - k));
    PartOf(n0, q, r, Pow(b, k), (if b == 2 then 390625 else 256) * Pow(b, 8 - k));
  }

  lemma PartOf(n0: int, q: int, r: int, p: int, rest: int)
    requires p > 0 && n0 == TEN_TO_8 * q + r && TEN_TO_8 == p * rest && n0 % p == 0
    ensures r % p == 0
  {
    MulAssoc(p, rest, q);
    MulDistrib(p, n0 / p, -(rest * q));
    MultipleOf(r, p, n0 / p - rest * q);
  }

  lemma MulSwapTwo(c: int, p: int, x: int)
    ensures p * (c * x) == c * (p * x)
  {
  }

  /** One zero more would contradict what ended the count. */
  lemma NoMoreZeros(n0: nat, q: nat, r: nat, t: nat, k: nat, m: nat, n: int)
    requires n0 == TEN_TO_8 * q + r && TwosOf(n0, t, 16) && !(t >= 8 && n0 % 390625 == 0)
    requires Peeled(r, m, k) && k <= 7 && k <= t && (k == t || m % 5 != 0 || k == 7)
    requires n0 == n * Pow(10, k)
    ensures n % 10 != 0
  {
    if n % 10 == 0 {
      ExtraZero(n0, n, k);
      SmallPowers();
      RemainderPart(n0, q, r, 5, k + 1);
      FiveLeft(r, m, k);
    }
  }

  lemma ExtraZero(n0: nat, n: int, k: nat)
    requires n0 == n * Pow(10, k) && n % 10 == 0
    ensures n0 % Pow(2, k + 1) == 0 && n0 % Pow(5, k + 1) == 0
  {
    var two: int, five: int, h: int := Pow(2, k + 1), Pow(5, k + 1), n / 10;
    MulSwapTen(h, Pow(10, k));
    PowMul(2, 5, k + 1);
    assert n0 == two * (h * five) && n0 == five * (h * two) by { BothFactors(h, two, five); }
    MultipleOf(n0, two, h * five);
    MultipleOf(n0, five, h * two);
  }

  lemma BothFactors(h: int, two: int, five: int)
    ensures h * (two * five) == two * (h * five) == five * (h * two)
  {
  }

  lemma FiveLeft(r: int, m: int, k: nat)
    requires Peeled(r, m, k) && r % Pow(5, k + 1) == 0
    ensures m % 5 == 0
  {
    var p: int, a: int := Pow(5, k), r / Pow(5, k + 1);
    assert r == (5 * p) * a;
    assert (5 * p) * a == (5 * a) * p by { MulRotate(a, 5, p); }
    MulCancel(m, 5 * a, p);
    MultipleOf(m, 5, a);
  }

  /** The multiplication and comparison for a division by 5^8, and the shift to a 32-bit quotient by 10^8. */
  method TryTenTo8(n0: Word64, ghost t: nat) returns (divides: bool, quotient: Word)
    requires 0 < n0 < B * TEN_TO_8 && TwosOf(n0, t, 16) && t >= 8
    ensures divides <==> n0 % 390625 == 0
    ensures divides ==> n0 == TEN_TO_8 * quotient && TwosOf(quotient, t - 8, 8)
  {
    EightZeros(n0, t);
    var candidate: Word64 := Product(n0, EIGHT_FIVES, TWO64);
    divides := Test(n0, EIGHT_FIVES, TWO64);
    quotient := candidate / 256 % B;
    assert divides ==> quotient == candidate / 256;
  }

  /** Double precision: strips up to sixteen zeros. */
  method RemoveTrailingZeros64(n0: Word64) returns (n: Word64, s: nat)
    requires 0 < n0 < B * TEN_TO_8
    ensures Stripped(n0, 16, n, s)
  {
    var t := CountTwos(n0, 16);
    if t >= 8 {
      var divides, quotient := TryTenTo8(n0, t);
      if divides {
        n, s := StripQuotient(quotient, t);
        StrippedTimesTenTo8(n0, quotient, n, s - 8);
        return;
      }
    }
    n, s := StripRemainder(n0, t);
  }

  /** The loop on the quotient by 10^8, in 32 bits. */
  method StripQuotient(q: Word, t: nat) returns (n: Word, s: nat)
    requires 8 <= t && TwosOf(q, t - 8, 8)
    ensures s >= 8 && Stripped(q, 8, n, s - 8)
  {
    var quotient := q;
    s := 8;
    while s < t
      invariant 8 <= s <= t && Peeled(q, quotient, s - 8)
    {
      var divides, next := TryFive(quotient, q, s - 8);
      if !divides { break; }
      quotient, s := next, s + 1;
    }
    PeelDone(q, t - 8, 8, s - 8, quotient);
    n := ShiftedRight(quotient, s - 8);
  }

  /** Fewer than eight zeros: the seven unrolled tests on the remainder by 10^8, written as one loop. */
  method StripRemainder(n0: Word64, t: nat) returns (n: Word64, s: nat)
    requires n0 < B * TEN_TO_8 && TwosOf(n0, t, 16) && !(t >= 8 && n0 % 390625 == 0)
    ensures Stripped(n0, 16, n, s)
  {
    var quotient: Word, remainder: Word := n0 / TEN_TO_8, n0 % TEN_TO_8;
    ghost var r := remainder;
    s := 0;
    while s < 7
      invariant s <= 7 && s <= t && Peeled(r, remainder, s)
    {
      var divides, next := TryFive(remainder, r, s);
      if t == s || !divides { break; }
      remainder, s := next, s + 1;
    }
    var sum: int := ShiftedRight(remainder, s) + quotient * Pow(10, 8 - s);
    RemainderDone(n0, quotient, r, t, s, remainder, sum);
    n := sum;
  }
}

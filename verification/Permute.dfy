/** getopt's permute_args: in-place exchange of two adjacent blocks by gcd cycles. */
module Permute {
  import opened Powers

  /** Greatest common divisor; the ghost results say that it divides both and is a combination of them. */
  method Gcd(aIn: nat, bIn: nat) returns (g: nat, ghost ka: nat, ghost kb: nat, ghost x: int, ghost y: int)
    requires bIn > 0
    ensures g > 0 && aIn == ka * g && bIn == kb * g && x * aIn + y * bIn == g
  {
    var a, b := aIn, bIn;
    var c := a % b;
    ghost var p, q, r, s := 1, 0, 0, 1;      // aIn == p * a + q * b, bIn == r * a + s * b
    ghost var xa, ya, xb, yb := 1, 0, 0, 1;  // a == xa * aIn + ya * bIn, b == xb * aIn + yb * bIn
    while c != 0
      invariant a >= 0 && b > 0 && c == a % b && p >= 0 && q >= 0 && r >= 0 && s >= 0
      invariant aIn == p * a + q * b && bIn == r * a + s * b
      invariant a == xa * aIn + ya * bIn && b == xb * aIn + yb * bIn
      decreases b
    {
      ghost var t := a / b;
      EuclidStep(a, b, t, c, p, q);
      EuclidStep(a, b, t, c, r, s);
      BezoutStep(aIn, bIn, a, b, t, c, xa, ya, xb, yb);
      MulMono(0, p, t);
      MulMono(0, r, t);
      p, q, r, s := p * t + q, p, r * t + s, r;
      xa, ya, xb, yb := xb, yb, xa - t * xb, ya - t * yb;
      a := b;
      b := c;
      c := a % b;
    }
    g := b;
    ghost var t := a / b;
    EuclidStep(a, b, t, 0, p, q);
    EuclidStep(a, b, t, 0, r, s);
    MulMono(0, p, t);
    MulMono(0, r, t);
    ka, kb, x, y := p * t + q, r * t + s, xb, yb;
  }

  lemma EuclidStep(a: int, b: int, t: int, c: int, p: int, q: int)
    requires a == b * t + c
    ensures p * a + q * b == (p * t + q) * b + p * c
  {
  }

  lemma BezoutStep(m: int, n: int, a: int, b: int, t: int, c: int, xa: int, ya: int, xb: int, yb: int)
    requires a == b * t + c && a == xa * m + ya * n && b == xb * m + yb * n
    ensures c == (xa - t * xb) * m + (ya - t * yb) * n
  {
    assert t * b == (t * xb) * m + (t * yb) * n;
  }

  /** Position, in units of the gcd, after k steps of the cycle that starts at km. */
  function CyclePos(km: nat, kn: nat, k: nat): (u: nat)
    requires kn > 0
    ensures u < km + kn
  {
    if k == 0 then km else
      var u := CyclePos(km, kn, k - 1);
      if u >= km then u - km else u + kn
  }

  /** The step adds kn modulo km + kn. */
  lemma {:induction false} CyclePosCongruent(km: nat, kn: nat, k: nat) returns (t: int)
    requires kn > 0
    ensures CyclePos(km, kn, k) == km + k * kn - t * (km + kn)
  {
    if k == 0 {
      t := 0;
    } else {
      t := CyclePosCongruent(km, kn, k - 1);
      assert k * kn == (k - 1) * kn + kn;
      if CyclePos(km, kn, k - 1) >= km {
        assert (t + 1) * (km + kn) == t * (km + kn) + (km + kn);
        t := t + 1;
      }
    }
  }

  /** Which step, from 1 to km + kn, reaches position u. */
  ghost function StepOf(km: nat, kn: nat, w: int, u: nat): (k: nat)
    requires kn > 0
    ensures 1 <= k <= km + kn
  {
    var k := ((u - km) * w) % (km + kn);
    if k == 0 then km + kn else k
  }

  lemma StepOfCongruent(km: nat, kn: nat, w: int, u: nat) returns (t: int)
    requires kn > 0
    ensures StepOf(km, kn, w, u) == (u - km) * w - t * (km + kn)
  {
    var len := km + kn;
    var q := ((u - km) * w) / len;
    t := if ((u - km) * w) % len == 0 then q - 1 else q;
    assert (q - 1) * len == q * len - len;
  }

  lemma EqualByCongruence(a: int, b: int, len: int, c: int)
    requires 0 <= a < len && 0 <= b < len && a - b == c * len
    ensures a == b
  {
    if c >= 1 { MulMono(1, c, len); } else if c <= -1 { MulMono(c, -1, len); }
  }

  /** Every position of the class is reached, by exactly one step of the cycle. */
  lemma CycleCovers(km: nat, kn: nat, w: int, z: int, u: nat)
    requires kn > 0 && w * kn + z * (km + kn) == 1 && u < km + kn
    ensures CyclePos(km, kn, StepOf(km, kn, w, u)) == u
  {
    var len := km + kn;
    var k := StepOf(km, kn, w, u);
    var t1 := StepOfCongruent(km, kn, w, u);
    var t2 := CyclePosCongruent(km, kn, k);
    CoverArith(km, kn, len, w, z, u, k, t1, t2);
    EqualByCongruence(CyclePos(km, kn, k), u, len, -(u - km) * z - t1 * kn - t2);
  }

  lemma CoverArith(km: int, kn: int, len: int, w: int, z: int, u: int, k: int, t1: int, t2: int)
    requires k == (u - km) * w - t1 * len && w * kn + z * len == 1
    ensures km + k * kn - t2 * len - u == (-(u - km) * z - t1 * kn - t2) * len
  {
    calc {
      k * kn;
      ((u - km) * w - t1 * len) * kn;
      (u - km) * (w * kn) - t1 * kn * len;
      (u - km) * (1 - z * len) - t1 * kn * len;
      (u - km) - (u - km) * z * len - t1 * kn * len;
    }
  }

  lemma CycleDistinct(km: nat, kn: nat, w: int, z: int, k: nat)
    requires kn > 0 && w * kn + z * (km + kn) == 1 && 1 <= k <= km + kn
    ensures StepOf(km, kn, w, CyclePos(km, kn, k)) == k
  {
    var u := CyclePos(km, kn, k);
    var t2 := CyclePosCongruent(km, kn, k);
    var t1 := StepOfCongruent(km, kn, w, u);
    SameStep(km, kn, km + kn, w, z, u, k, StepOf(km, kn, w, u), t1, t2);
  }

  lemma SameStep(km: int, kn: int, len: int, w: int, z: int, u: int, k: int, s: int, t1: int, t2: int)
    requires u == km + k * kn - t2 * len && s == (u - km) * w - t1 * len && w * kn + z * len == 1
    requires 1 <= k <= len && 1 <= s <= len
    ensures s == k
  {
    DistinctArith(km, kn, len, w, z, u, k, t1, t2);
    var c := -k * z - t2 * w - t1;
    assert s - k == c * len;
    EqualByCongruence(s - 1, k - 1, len, c);
  }

  lemma DistinctArith(km: int, kn: int, len: int, w: int, z: int, u: int, k: int, t1: int, t2: int)
    requires u == km + k * kn - t2 * len && w * kn + z * len == 1
    ensures (u - km) * w - t1 * len - k == (-k * z - t2 * w - t1) * len
  {
    calc {
      (u - km) * w;
      (k * kn - t2 * len) * w;
      k * (w * kn) - t2 * w * len;
      k * (1 - z * len) - t2 * w * len;
    }
  }

  /** The cycle comes back to its start after km + kn steps. */
  lemma CycleCloses(km: nat, kn: nat, w: int, z: int)
    requires kn > 0 && w * kn + z * (km + kn) == 1
    ensures CyclePos(km, kn, km + kn) == km
  {
    CycleCovers(km, kn, w, z, km);
    assert ((km - km) * w) % (km + kn) == 0 by { QuotientUnique(0, km + kn, 0, 0); }
  }

  lemma CycleInjective(km: nat, kn: nat, w: int, z: int, j: nat, k: nat)
    requires kn > 0 && w * kn + z * (km + kn) == 1
    requires 1 <= j <= km + kn && 1 <= k <= km + kn && CyclePos(km, kn, j) == CyclePos(km, kn, k)
    ensures j == k
  {
    CycleDistinct(km, kn, w, z, j);
    CycleDistinct(km, kn, w, z, k);
  }

  /** One permutation: g classes of km + kn entries each, entry u of class c at start + c + g * u. */
  datatype Blocks = Blocks(start: nat, g: nat, km: nat, kn: nat, w: int, z: int) {
    ghost predicate Valid(size: nat) {
      && g > 0 && km > 0 && kn > 0 && w * kn + z * (km + kn) == 1
      && start + g * (km + kn) <= size
    }

    function Len(): nat { km + kn }

    function At(c: nat, u: nat): nat
      decreases u
    {
      if u == 0 then start + c else At(c, u - 1) + g
    }

    lemma {:induction false} AtIs(c: nat, u: nat)
      ensures At(c, u) == start + c + g * u
      decreases u
    {
      if u > 0 { AtIs(c, u - 1); MulDistrib(g, u - 1, 1); }
    }

    function Step(k: nat): nat
      requires kn > 0
    {
      CyclePos(km, kn, k)
    }

    /** Where the entry that belongs at unit u comes from. */
    function Prev(u: nat): nat
      requires u < km + kn
    {
      if u < kn then u + km else u - kn
    }
  }

  lemma AtBounds(b: Blocks, size: nat, c: nat, u: nat)
    requires b.Valid(size) && c < b.g && u < b.Len()
    ensures b.start <= b.At(c, u) < b.start + b.g * b.Len() <= size
  {
    b.AtIs(c, u);
    MulMono(u + 1, b.Len(), b.g);
    MulMono(0, u, b.g);
  }

  lemma AtInjective(b: Blocks, c: nat, u: nat, c': nat, u': nat)
    requires c < b.g && c' < b.g && b.At(c, u) == b.At(c', u')
    ensures c == c' && u == u'
  {
    b.AtIs(c, u);
    b.AtIs(c', u');
    if u < u' { MulMono(u + 1, u', b.g); } else if u' < u { MulMono(u' + 1, u, b.g); }
  }

  /** Class c is exchanged if it is below i, else untouched. */
  ghost predicate ClassIs<T>(s: seq<T>, b: Blocks, c: nat, i: nat, cur: seq<T>)
    requires b.Valid(|s|) && c < b.g && |cur| == |s|
  {
    forall u: nat :: u < b.Len() ==>
      b.At(c, u) < |s| && b.At(c, if c < i then b.Prev(u) else u) < |s|
      && cur[b.At(c, u)] == s[b.At(c, if c < i then b.Prev(u) else u)]
  }

  /** After j steps of class c: the slot where the cycle starts, step Len(), holds the entry in transit. */
  ghost predicate ClassMoving<T>(s: seq<T>, b: Blocks, c: nat, j: nat, cur: seq<T>)
    requires b.Valid(|s|) && c < b.g && |cur| == |s|
  {
    forall k: nat :: 1 <= k <= b.Len() ==>
      var origin := if k == b.Len() then (if j < k then j else k - 1) else if k <= j then k - 1 else k;
      b.At(c, b.Step(k)) < |s| && b.At(c, b.Step(origin)) < |s|
      && cur[b.At(c, b.Step(k))] == s[b.At(c, b.Step(origin))]
  }

  ghost predicate Outside<T>(s: seq<T>, b: Blocks, cur: seq<T>)
    requires |cur| == |s|
  {
    forall p: nat :: p < |s| && !(b.start <= p < b.start + b.g * b.Len()) ==> cur[p] == s[p]
  }

  /** Classes below i are exchanged, the others untouched. */
  ghost predicate Arranged<T>(s: seq<T>, b: Blocks, i: nat, cur: seq<T>)
    requires b.Valid(|s|)
  {
    |cur| == |s| && Outside(s, b, cur) && forall c: nat :: c < b.g ==> ClassIs(s, b, c, i, cur)
  }

  /** In the middle of class i. */
  ghost predicate Moving<T>(s: seq<T>, b: Blocks, i: nat, j: nat, cur: seq<T>)
    requires b.Valid(|s|) && i < b.g
  {
    && |cur| == |s| && Outside(s, b, cur) && ClassMoving(s, b, i, j, cur)
    && forall c: nat :: c < b.g && c != i ==> ClassIs(s, b, c, i, cur)
  }

  lemma StartMoving<T>(s: seq<T>, b: Blocks, i: nat, cur: seq<T>)
    requires b.Valid(|s|) && i < b.g && Arranged(s, b, i, cur)
    ensures Moving(s, b, i, 0, cur)
  {
    CycleCloses(b.km, b.kn, b.w, b.z);
    assert ClassIs(s, b, i, i, cur);
  }

  lemma FinishMoving<T>(s: seq<T>, b: Blocks, i: nat, cur: seq<T>)
    requires b.Valid(|s|) && i < b.g && Moving(s, b, i, b.Len(), cur)
    ensures Arranged(s, b, i + 1, cur)
  {
    forall u: nat | u < b.Len()
      ensures b.At(i, u) < |s| && b.At(i, b.Prev(u)) < |s| && cur[b.At(i, u)] == s[b.At(i, b.Prev(u))]
    {
      CycleCovers(b.km, b.kn, b.w, b.z, u);
      var k := StepOf(b.km, b.kn, b.w, u);
      assert b.Step(k) == u && b.Step(k - 1) == b.Prev(u);
      AtBounds(b, |s|, i, u);
    }
    var next := i + 1;
    forall c: nat | c < b.g ensures ClassIs(s, b, c, next, cur) {
      if c != i { assert ClassIs(s, b, c, i, cur); }
    }
  }

  /** The two entries that swap j exchanges. */
  function Swapped<T>(cur: seq<T>, pos: nat, cstart: nat): seq<T>
    requires pos < |cur| && cstart < |cur|
  {
    cur[pos := cur[cstart]][cstart := cur[pos]]
  }

  /** One swap of the inner loop. */
  lemma SwapMoves<T>(s: seq<T>, b: Blocks, i: nat, j: nat, cur: seq<T>)
    requires b.Valid(|s|) && i < b.g && j < b.Len() && Moving(s, b, i, j, cur)
    ensures var pos, cstart := b.At(i, b.Step(j + 1)), b.At(i, b.km);
      && b.start <= pos < |s| && b.start <= cstart < |s| && Moving(s, b, i, j + 1, Swapped(cur, pos, cstart))
  {
    var pos, cstart := b.At(i, b.Step(j + 1)), b.At(i, b.km);
    AtBounds(b, |s|, i, b.Step(j + 1));
    AtBounds(b, |s|, i, b.km);
    SwapMovesClass(s, b, i, j, cur);
    var next := Swapped(cur, pos, cstart);
    forall c: nat | c < b.g && c != i ensures ClassIs(s, b, c, i, next) {
      OtherClass(s, b, c, i, cur, pos, cstart, next);
    }
  }

  lemma SwapMovesClass<T>(s: seq<T>, b: Blocks, i: nat, j: nat, cur: seq<T>)
    requires b.Valid(|s|) && i < b.g && j < b.Len() && |cur| == |s| && ClassMoving(s, b, i, j, cur)
    ensures var pos, cstart := b.At(i, b.Step(j + 1)), b.At(i, b.km);
      pos < |s| && cstart < |s| && ClassMoving(s, b, i, j + 1, Swapped(cur, pos, cstart))
  {
    var pos, cstart := b.At(i, b.Step(j + 1)), b.At(i, b.km);
    AtBounds(b, |s|, i, b.Step(j + 1));
    AtBounds(b, |s|, i, b.km);
    forall k: nat | 1 <= k <= b.Len()
      ensures var origin := if k == b.Len() then (if j + 1 < k then j + 1 else k - 1) else if k <= j + 1 then k - 1 else k;
        b.At(i, b.Step(k)) < |s| && b.At(i, b.Step(origin)) < |s|
        && Swapped(cur, pos, cstart)[b.At(i, b.Step(k))] == s[b.At(i, b.Step(origin))]
    {
      MovedStep(s, b, i, j, k, cur);
    }
  }

  /** Position k of the cycle after swap j. */
  lemma MovedStep<T>(s: seq<T>, b: Blocks, i: nat, j: nat, k: nat, cur: seq<T>)
    requires b.Valid(|s|) && i < b.g && j < b.Len() && 1 <= k <= b.Len() && |cur| == |s| && ClassMoving(s, b, i, j, cur)
    ensures var pos, cstart := b.At(i, b.Step(j + 1)), b.At(i, b.km);
      && pos < |s| && cstart < |s|
      && var origin := if k == b.Len() then (if j + 1 < k then j + 1 else k - 1) else if k <= j + 1 then k - 1 else k;
        b.At(i, b.Step(k)) < |s| && b.At(i, b.Step(origin)) < |s|
        && Swapped(cur, pos, cstart)[b.At(i, b.Step(k))] == s[b.At(i, b.Step(origin))]
  {
    AtBounds(b, |s|, i, b.Step(j + 1));
    AtBounds(b, |s|, i, b.km);
    StepTarget(b, |s|, i, j, k);
  }

  lemma StepTarget(b: Blocks, size: nat, i: nat, j: nat, k: nat)
    requires b.Valid(size) && i < b.g && j < b.Len() && 1 <= k <= b.Len()
    ensures forall m: nat :: b.At(i, b.Step(m)) < size
    ensures b.Step(b.Len()) == b.km
    ensures k != j + 1 ==> b.At(i, b.Step(k)) != b.At(i, b.Step(j + 1))
    ensures k != b.Len() ==> b.At(i, b.Step(k)) != b.At(i, b.km)
  {
    forall m: nat ensures b.At(i, b.Step(m)) < size { AtBounds(b, size, i, b.Step(m)); }
    CycleCloses(b.km, b.kn, b.w, b.z);
    if b.At(i, b.Step(k)) == b.At(i, b.Step(j + 1)) {
      AtInjective(b, i, b.Step(k), i, b.Step(j + 1));
      CycleInjective(b.km, b.kn, b.w, b.z, k, j + 1);
    }
    if b.At(i, b.Step(k)) == b.At(i, b.km) {
      AtInjective(b, i, b.Step(k), i, b.km);
      CycleInjective(b.km, b.kn, b.w, b.z, k, b.Len());
    }
  }

  lemma OtherClass<T>(s: seq<T>, b: Blocks, c: nat, i: nat, cur: seq<T>, p: nat, q: nat, next: seq<T>)
    requires b.Valid(|s|) && c < b.g && i < b.g && c != i && |cur| == |s| == |next| && ClassIs(s, b, c, i, cur)
    requires (exists u: nat :: p == b.At(i, u)) && (exists u: nat :: q == b.At(i, u))
    requires forall x: nat :: x < |s| && x != p && x != q ==> next[x] == cur[x]
    ensures ClassIs(s, b, c, i, next)
  {
    var up: nat :| p == b.At(i, up);
    var uq: nat :| q == b.At(i, uq);
    forall u: nat | u < b.Len()
      ensures b.At(c, u) != p && b.At(c, u) != q
    {
      if b.At(c, u) == p { AtInjective(b, c, u, i, up); }
      if b.At(c, u) == q { AtInjective(b, c, u, i, uq); }
    }
  }

  lemma AllArranged<T>(s: seq<T>, b: Blocks, mid: nat, end: nat, cur: seq<T>)
    requires b.Valid(|s|) && Arranged(s, b, b.g, cur)
    requires mid == b.start + b.g * b.km && end == b.start + b.g * b.Len() && b.start <= mid <= end
    ensures cur == s[..b.start] + s[mid..end] + s[b.start..mid] + s[end..]
  {
    var want := s[..b.start] + s[mid..end] + s[b.start..mid] + s[end..];
    MulDistrib(b.g, b.km, b.kn);
    forall p: nat | p < |s| ensures cur[p] == want[p] {
      if b.start <= p < end {
        ArrangedAt(s, b, mid, end, p, cur);
      }
    }
  }

  lemma ArrangedAt<T>(s: seq<T>, b: Blocks, mid: nat, end: nat, p: nat, cur: seq<T>)
    requires b.Valid(|s|) && Arranged(s, b, b.g, cur)
    requires mid == b.start + b.g * b.km && end == b.start + b.g * b.Len() && b.start <= p < end <= |s|
    requires end - mid == b.g * b.kn && b.start <= mid
    ensures cur[p] == if p - b.start < end - mid then s[p + (mid - b.start)] else s[p - (end - mid)]
  {
    var c, u := ClassAndUnit(b, p);
    assert ClassIs(s, b, c, b.g, cur);
    MoveUnits(b, c, u, b.kn, b.km);
  }

  /** Entry u of class c lies below split * g exactly if u < split; moving it moves it by whole units. */
  lemma MoveUnits(b: Blocks, c: nat, u: nat, split: nat, other: nat)
    requires c < b.g
    ensures u < split <==> b.At(c, u) - b.start < b.g * split
    ensures b.At(c, u + other) == b.At(c, u) + b.g * other
    ensures u >= split ==> b.At(c, u - split) == b.At(c, u) - b.g * split
  {
    UnitBelow(b, c, u, split);
    AtDifference(b, c, u, u + other);
    if u >= split { AtDifference(b, c, u - split, u); }
  }

  lemma UnitBelow(b: Blocks, c: nat, u: nat, split: nat)
    requires c < b.g
    ensures u < split <==> b.At(c, u) - b.start < b.g * split
  {
    b.AtIs(c, u);
    if u < split { MulMono(u + 1, split, b.g); } else { MulMono(split, u, b.g); }
  }

  lemma ClassAndUnit(b: Blocks, p: nat) returns (c: nat, u: nat)
    requires b.g > 0 && b.start <= p < b.start + b.g * b.Len()
    ensures c < b.g && u < b.Len() && p == b.At(c, u)
  {
    var q := p - b.start;
    c, u := q % b.g, q / b.g;
    ClassIndexBelow(u, b.Len(), b.g, q);
    b.AtIs(c, u);
  }

  lemma AtDifference(b: Blocks, c: nat, u: nat, v: nat)
    ensures b.At(c, v) - b.At(c, u) == b.g * (v - u)
  {
    b.AtIs(c, u);
    b.AtIs(c, v);
    var d: int := v - u;
    MulDistrib(b.g, d, u);
  }

  lemma ClassIndexBelow(u: nat, len: nat, g: nat, q: nat)
    requires g > 0 && q < g * len && u == q / g
    ensures u < len
  {
    if u >= len { MulMono(len, u, g); }
  }

  lemma StartArranged<T>(s: seq<T>, b: Blocks)
    requires b.Valid(|s|)
    ensures Arranged(s, b, 0, s)
  {
    forall c: nat, u: nat | c < b.g && u < b.Len() ensures b.At(c, u) < |s| { AtBounds(b, |s|, c, u); }
  }

  /** Exchanges the blocks [start, mid) and [mid, end) of nargv, keeping the order inside each. */
  method PermuteArgs<T>(start: nat, mid: nat, end: nat, nargv: array<T>)
    requires start < mid < end <= nargv.Length
    modifies nargv
    ensures nargv[..] == old(nargv[..start] + nargv[mid..end] + nargv[start..mid] + nargv[end..])
  {
    var nnonopts, nopts := mid - start, end - mid;
    var ncycle, km, kn, x, y := Gcd(nnonopts, nopts);
    ghost var s := nargv[..];
    ghost var b := BlocksOf(start, mid, end, ncycle, km, kn, x, y);
    var cyclelen := (end - start) / ncycle;
    StartArranged(s, b);
    for i := 0 to ncycle
      invariant Arranged(s, b, i, nargv[..])
    {
      var cstart := mid + i;
      var pos := cstart;
      StartMoving(s, b, i, nargv[..]);
      b.AtIs(i, km);
      for j := 0 to cyclelen
        invariant pos == b.At(i, b.Step(j)) && Moving(s, b, i, j, nargv[..])
      {
        ghost var cur := nargv[..];
        NextPosition(b, i, j, mid);
        SwapMoves(s, b, i, j, cur);
        if pos >= mid { pos := pos - nnonopts; } else { pos := pos + nopts; }
        var swap := nargv[pos];
        nargv[pos] := nargv[cstart];
        nargv[cstart] := swap;
        assert nargv[..] == Swapped(cur, pos, cstart);
      }
      FinishMoving(s, b, i, nargv[..]);
    }
    AllArranged(s, b, mid, end, nargv[..]);
  }

  /** The classes of a permutation from its gcd and its Bezout coefficients. */
  lemma BlocksOf(start: nat, mid: nat, end: nat, g: nat, km: nat, kn: nat, x: int, y: int) returns (b: Blocks)
    requires start < mid < end && g > 0
    requires mid - start == km * g && end - mid == kn * g && x * (mid - start) + y * (end - mid) == g
    ensures b == Blocks(start, g, km, kn, y - x, x) && b.Valid(end)
    ensures mid == start + g * km && end - mid == g * kn && end == start + g * (km + kn) && (end - start) / g == km + kn
  {
    b := Blocks(start, g, km, kn, y - x, x);
    assert (x * km + y * kn) * g == 1 * g;
    MulCancel(x * km + y * kn, 1, g);
    MulDistrib(g, km, kn);
    QuotientUnique(end - start, g, km + kn, 0);
  }

  /** The branch of the inner loop takes one step of the cycle. */
  lemma NextPosition(b: Blocks, i: nat, j: nat, mid: nat)
    requires i < b.g && mid == b.start + b.g * b.km && b.kn > 0
    ensures b.At(i, b.Step(j)) >= mid ==> b.At(i, b.Step(j)) - b.g * b.km == b.At(i, b.Step(j + 1))
    ensures b.At(i, b.Step(j)) < mid ==> b.At(i, b.Step(j)) + b.g * b.kn == b.At(i, b.Step(j + 1))
  {
    MoveUnits(b, i, b.Step(j), b.km, b.kn);
  }
}

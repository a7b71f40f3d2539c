/** The extended Euclidean algorithm of `QuotientRing::MultiplicativeInverse`, over the integers. */
module QuotientRings {
  import opened Remainders

  ghost predicate Divides(d: int, x: int) {
    exists k: int :: x == k * d
  }

  /** No common divisor but 1. */
  ghost predicate Coprime(a: nat, b: nat) {
    forall d: nat :: Divides(d, a) && Divides(d, b) ==> d == 1
  }

  /** r is an inverse of a modulo m. */
  ghost predicate IsInverse(a: int, r: int, m: int) {
    Divides(m, a * r - 1)
  }

  lemma DividesBy(d: int, k: int, x: int)
    requires x == k * d
    ensures Divides(d, x)
  {}

  lemma DividesCombination(d: int, x: int, y: int, u: int, v: int)
    requires Divides(d, x) && Divides(d, y)
    ensures Divides(d, u * x + v * y)
  {
    var k :| x == k * d;
    var l :| y == l * d;
    CombinationFactors(d, k, l, u, v);
    DividesBy(d, u * k + v * l, u * x + v * y);
  }

  lemma CombinationFactors(d: int, k: int, l: int, u: int, v: int)
    ensures u * (k * d) + v * (l * d) == (u * k + v * l) * d
  {}

  lemma DividesRemainder(m: nat, x: int)
    requires m > 0
    ensures Divides(m, x) <==> x % m == 0
  {
    if x % m == 0 {
      DividesBy(m, x / m, x);
    }
    if Divides(m, x) {
      var k :| x == k * m;
      RemainderOfMultiple(k, m);
    }
  }

  lemma RemainderOfMultiple(k: int, m: nat)
    requires m > 0
    ensures (k * m) % m == 0
  {
    RemainderUnique(k * m, m, k, 0);
  }

  /** The same common divisors. */
  ghost predicate SameDivisors(a: int, b: int, c: int, d: int) {
    forall k: nat :: Divides(k, a) && Divides(k, b) <==> Divides(k, c) && Divides(k, d)
  }

  lemma RemainderStep(m: int, a: int, g0: int, g1: int)
    requires g1 > 0 && SameDivisors(g0, g1, m, a)
    ensures SameDivisors(g1, g0 % g1, m, a)
  {
    hide Divides;
    var q, r := g0 / g1, g0 % g1;
    forall k: nat ensures Divides(k, g0) && Divides(k, g1) <==> Divides(k, g1) && Divides(k, r) {
      DivisorStep(k, g0, g1, q, r);
    }
  }

  lemma DivisorStep(k: nat, g0: int, g1: int, q: int, r: int)
    requires g0 == g1 * q + r
    ensures Divides(k, g0) && Divides(k, g1) <==> Divides(k, g1) && Divides(k, r)
  {
    hide Divides;
    if Divides(k, g0) && Divides(k, g1) {
      DividesCombination(k, g0, g1, 1, -q);
      CombinedStep(g1, q);
    }
    if Divides(k, g1) && Divides(k, r) {
      DividesCombination(k, g1, r, q, 1);
    }
  }

  lemma CombinedStep(g: int, q: int)
    ensures -q * g == -(g * q)
  {}

  /** g is v * a modulo m. */
  ghost predicate Multiple(m: int, a: int, g: int, v: int) {
    Divides(m, g - v * a)
  }

  lemma MultipleStep(m: int, a: int, g0: int, v0: int, g1: int, v1: int)
    requires g1 > 0 && Multiple(m, a, g0, v0) && Multiple(m, a, g1, v1)
    ensures Multiple(m, a, g0 % g1, v0 - v1 * (g0 / g1))
  {
    hide Divides;
    var q := g0 / g1;
    DividesCombination(m, g0 - v0 * a, g1 - v1 * a, 1, -q);
    StepProducts(a, g0, v0, g1, v1, q);
    assert g0 == g1 * q + g0 % g1;
  }

  lemma StepProducts(a: int, g0: int, v0: int, g1: int, v1: int, q: int)
    ensures 1 * (g0 - v0 * a) + (-q) * (g1 - v1 * a) == (g0 - g1 * q) - (v0 - v1 * q) * a
  {}

  lemma StartMultiples(m: int, a: int)
    ensures Multiple(m, a, m, 0) && Multiple(m, a, a, 1)
  {
    DividesBy(m, 1, m - 0 * a);
    DividesBy(m, 0, a - 1 * a);
  }

  /** The last non-zero remainder decides: 1 exactly for coprime arguments, and then its multiplier inverts. */
  lemma Finish(m: nat, a: nat, g0: nat, v0: int)
    requires SameDivisors(g0, 0, m, a) && Multiple(m, a, g0, v0) && g0 > 0
    ensures g0 == 1 <==> Coprime(a, m)
    ensures g0 == 1 ==> IsInverse(a, v0, m)
  {
    DividesBy(g0, 1, g0);
    DividesBy(g0, 0, 0);
    if g0 == 1 {
      forall d: nat | Divides(d, a) && Divides(d, m) ensures d == 1 {
        var k :| 1 == k * d;
        UnitFactor(k, d);
      }
      DividesBy(m, 0, 0);
      DividesCombination(m, g0 - v0 * a, 0, -1, 0);
      assert -1 * (g0 - v0 * a) + 0 * 0 == a * v0 - 1;
    }
  }

  lemma UnitFactor(k: int, d: nat)
    requires 1 == k * d
    ensures d == 1
  {
    assert k * d == 2 * d + (k - 2) * d;
    assert (-k) * d == -(k * d);
    if k >= 2 {
      ProductNonNegative(k - 2, d);
    } else if k <= 0 {
      ProductNonNegative(-k, d);
    }
  }

  /** The loop compares the remainder with zero modulo m. With a below m that is the usual test; with a at or
      above m it stops as soon as the remainder is m itself. */
  method MultiplicativeInverse(m: nat, a: nat) returns (r: int)
    requires m > 0
    ensures a < m && Coprime(a, m) ==> IsInverse(a, r, m)
    ensures a < m && !Coprime(a, m) ==> r == 0
    ensures a >= m ==> r == 0
    ensures Coprime(a, m) ==> (IsInverse(a, r, m) <==> a < m || m == 1)
  {
    hide Divides, Coprime, SameDivisors, Multiple, IsInverse;
    var g, v, i0, i1, i2 := [m, a, 0], [0, 1, 0], 0, 1, 2;
    StartMultiples(m, a);
    StartDivisors(m, a);
    EqualRemainders(m, a);
    while g[i1] % m != 0
      invariant |g| == 3 && |v| == 3
      invariant (i0, i1, i2) == (0, 1, 2) || (i0, i1, i2) == (1, 2, 0) || (i0, i1, i2) == (2, 0, 1)
      invariant g[i0] > 0 && g[i1] >= 0
      invariant SameDivisors(g[i0], g[i1], m, a) && Multiple(m, a, g[i0], v[i0]) && Multiple(m, a, g[i1], v[i1])
      invariant a < m ==> g[i1] < m
      invariant a >= m ==> (g[i0], g[i1], v[i0]) == (m, a, 0) || ((g[i0], g[i1]) == (a, m) && a > m >= 1)
      decreases g[i1]
    {
      EqualRemainders(m, g[i1]);
      RemainderStep(m, a, g[i0], g[i1]);
      MultipleStep(m, a, g[i0], v[i0], g[i1], v[i1]);
      EqualRemainders(m, a);
      if a >= m { SmallDividend(g[i0], g[i1]); }
      var y := g[i0] / g[i1];
      g := g[i2 := g[i0] % g[i1]];
      v := v[i2 := v[i0] - v[i1] * y];
      i0, i1, i2 := i1, i2, i0;
    }
    EqualRemainders(m, g[i1]);
    if a < m {
      Finish(m, a, g[i0], v[i0]);
    }
    r := if g[i0] == 1 then v[i0] / g[i0] else 0;
    if a >= m { ZeroInverse(m, a); }
  }

  lemma StartDivisors(m: int, a: int)
    ensures SameDivisors(m, a, m, a)
  {}

  lemma EqualRemainders(m: nat, x: int)
    requires m > 0
    ensures 0 <= x < m ==> x % m == x
    ensures m % m == 0
  {}

  lemma SmallDividend(x: nat, y: nat)
    requires y > 0
    ensures x < y ==> x % y == x
  {}

  /** Zero is an inverse only modulo 1. */
  lemma ZeroInverse(m: nat, a: nat)
    requires m > 0
    ensures IsInverse(a, 0, m) <==> m == 1
  {
    assert a * 0 == 0;
    if m == 1 {
      DividesBy(1, -1, -1);
    } else if IsInverse(a, 0, m) {
      var k :| -1 == k * m;
      assert (-k) * m == 1;
      UnitFactor(-k, m);
    }
  }

  /** 8 is invertible modulo 7, but the algorithm returns 0 for it. */
  method UnreducedFails() returns (r: int)
    ensures Coprime(8, 7) && IsInverse(8, 1, 7)
    ensures r == 0 && !IsInverse(8, r, 7)
  {
    forall d: nat | Divides(d, 8) && Divides(d, 7) ensures d == 1 {
      DividesCombination(d, 8, 7, 1, -1);
      var k :| 1 == k * d;
      UnitFactor(k, d);
    }
    DividesBy(7, 1, 8 * 1 - 1);
    r := MultiplicativeInverse(7, 8);
  }
}

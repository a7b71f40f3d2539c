/** ESIGN (IEEE P1363a): the public function over n = p^2 q and its randomized inverse. */
module Esign {
  import opened Bits
  import opened Remainders
  import opened QuotientRings

  function Pow(b: int, e: nat): int
    decreases e
  {
    if e == 0 then 1 else b * Pow(b, e - 1)
  }

  lemma {:induction false} PowNonNegative(b: nat, e: nat)
    ensures Pow(b, e) >= 0
    decreases e
  {
    if e == 0 {
    } else {
      PowNonNegative(b, e - 1);
      ProductNonNegative(b, Pow(b, e - 1));
    }
  }

  /** `GetK`: a third of the bit length, less one, and not below zero. */
  function K(n: nat): nat {
    if BitCount(n) / 3 >= 1 then BitCount(n) / 3 - 1 else 0
  }

  /** `ApplyFunction`: the top third of s^e mod n, capped at the largest image. */
  function ApplyFunction(n: nat, e: nat, s: nat): (r: nat)
    requires n > 0
    ensures r < Pow2(K(n))
  {
    var y := Shr(Pow(s, e) % n, 2 * K(n) + 2);
    var maxImage := Pow2(K(n)) - 1;
    if y <= maxImage then y else maxImage
  }

  /** The preimages of x: the powers whose top bits are x and, for the largest image, all powers above them. */
  lemma ApplyIff(n: nat, e: nat, s: nat, x: nat)
    requires n > 0 && x < Pow2(K(n))
    ensures var v, b := Pow(s, e) % n, 2 * K(n) + 2;
            ApplyFunction(n, e, s) == x <==> Shl(x, b) <= v && (x == Pow2(K(n)) - 1 || v < Shl(x + 1, b))
  {
    hide Pow, K, Shl, Pow2;
    var v, b := Pow(s, e) % n, 2 * K(n) + 2;
    ShrBetween(v, b, x);
    ShrBetween(v, b, Pow2(K(n)) - 1);
  }

  // The binomial step ----------------------------------------------------------------------------------

  /** e * r^(e-1), the slope of r^e. */
  function Slope(r: int, e: nat): int
    decreases e
  {
    if e == 0 then 0 else r * Slope(r, e - 1) + Pow(r, e - 1)
  }

  lemma {:induction false} SlopeIs(r: int, e: nat)
    ensures r * Slope(r, e) == e * Pow(r, e)
    decreases e
  {
    if e == 0 {
    } else {
      SlopeIs(r, e - 1);
      SlopeStep(r, e, Slope(r, e - 1), Pow(r, e - 1));
    }
  }

  lemma SlopeStep(r: int, e: int, s: int, w: int)
    requires r * s == (e - 1) * w
    ensures r * (r * s + w) == e * (r * w)
  {
    assert r * (r * s + w) == r * ((e - 1) * w) + r * w;
    assert r * ((e - 1) * w) == (e - 1) * (r * w);
  }

  /** What (r + d)^e has beyond its first two terms, divided by d^2. */
  function Tail(r: int, d: int, e: nat): int
    decreases e
  {
    if e == 0 then 0 else (r + d) * Tail(r, d, e - 1) + Slope(r, e - 1)
  }

  lemma {:induction false} Binomial(r: int, d: int, e: nat)
    ensures Pow(r + d, e) == Pow(r, e) + Slope(r, e) * d + Tail(r, d, e) * (d * d)
    decreases e
  {
    if e == 0 {
    } else {
      Binomial(r, d, e - 1);
      BinomialStep(r, d, Pow(r, e - 1), Slope(r, e - 1), Tail(r, d, e - 1));
    }
  }

  lemma BinomialStep(r: int, d: int, w: int, s: int, t: int)
    ensures (r + d) * (w + s * d + t * (d * d)) == r * w + (r * s + w) * d + ((r + d) * t + s) * (d * d)
  {
    assert (r + d) * (w + s * d + t * (d * d))
        == (r + d) * w + (r + d) * (s * d) + (r + d) * (t * (d * d));
    assert (r + d) * w == r * w + w * d;
    assert (r + d) * (s * d) == (r * s) * d + s * (d * d);
    assert (r + d) * (t * (d * d)) == ((r + d) * t) * (d * d);
  }

  // The equation ---------------------------------------------------------------------------------------

  /** With n = p m and m^2 a multiple of n: a shift of r by t m moves r^e by w0 m modulo n. */
  lemma ShiftedPower(p: nat, q: nat, r: nat, t: nat, e: nat, w0: int)
    requires Divides(p, Slope(r, e) * t - w0)
    ensures Divides(p * p * q, Pow(r + t * (p * q), e) - Pow(r, e) - w0 * (p * q))
  {
    var m := p * q;
    var c :| Slope(r, e) * t - w0 == c * p;
    Binomial(r, t * m, e);
    var k := Tail(r, t * m, e);
    ShiftProducts(p, q, Slope(r, e), t, w0, c, k);
    DividesBy(p * p * q, c + k * (t * t * q), Pow(r + t * m, e) - Pow(r, e) - w0 * m);
  }

  lemma ShiftProducts(p: int, q: int, s: int, t: int, w0: int, c: int, k: int)
    requires s * t - w0 == c * p
    ensures s * (t * (p * q)) + k * ((t * (p * q)) * (t * (p * q))) - w0 * (p * q)
         == (c + k * (t * t * q)) * (p * p * q)
  {
    assert s * (t * (p * q)) == (s * t) * (p * q);
    assert (s * t) * (p * q) - w0 * (p * q) == (c * p) * (p * q);
    assert (c * p) * (p * q) == c * (p * p * q);
    SquareProducts(p, q, t, k);
    assert (c + k * (t * t * q)) * (p * p * q) == c * (p * p * q) + (k * (t * t * q)) * (p * p * q);
  }

  lemma SquareProducts(p: int, q: int, t: int, k: int)
    ensures k * ((t * (p * q)) * (t * (p * q))) == (k * (t * t * q)) * (p * p * q)
  {
    var m := p * q;
    assert (t * m) * (t * m) == (t * t) * (m * m);
    assert m * m == q * (p * p * q);
    assert (t * t) * (q * (p * p * q)) == (t * t * q) * (p * p * q);
    assert k * ((t * t * q) * (p * p * q)) == (k * (t * t * q)) * (p * p * q);
  }

  /** The multiplier t solves the linear congruence: e r^(e-1) t == w0 modulo p, when e r^e is invertible. */
  lemma SolvesSlope(p: nat, r: nat, e: nat, re: int, i: int, w0: int, t: int)
    requires p > 0 && Divides(p, re - Pow(r, e)) && IsInverse(e * re, i, p)
    requires Divides(p, t - w0 * r * i)
    ensures Divides(p, Slope(r, e) * t - w0)
  {
    hide Divides;
    var s, w := Slope(r, e), Pow(r, e);
    SlopeIs(r, e);
    // s*t - w0 == s*(t - w0 r i) + w0 (i e (w - re) + (e re i - 1))
    SlopeProducts(s, r, e, w, re, i, w0, t);
    DividesNegated(p, re - w);
    DividesCombination(p, w - re, (e * re) * i - 1, i * e, 1);
    DividesCombination(p, t - w0 * r * i, i * e * (w - re) + 1 * ((e * re) * i - 1), s, w0);
  }

  lemma DividesNegated(d: int, x: int)
    requires Divides(d, x)
    ensures Divides(d, -x)
  {
    var k :| x == k * d;
    assert -x == (-k) * d;
  }

  lemma SlopeProducts(s: int, r: int, e: int, w: int, re: int, i: int, w0: int, t: int)
    requires r * s == e * w
    ensures s * (t - w0 * r * i) + w0 * (i * e * (w - re) + 1 * ((e * re) * i - 1)) == s * t - w0
  {
    assert s * (t - w0 * r * i) == s * t - (w0 * i) * (r * s);
    assert (w0 * i) * (r * s) == (w0 * i) * (e * w);
    assert w0 * (i * e * (w - re) + ((e * re) * i - 1))
      == (w0 * i) * (e * w) - (w0 * i) * (e * re) + w0 * ((e * re) * i) - w0;
    assert w0 * ((e * re) * i) == (w0 * i) * (e * re);
  }

  lemma ModIs(n: nat, y: int, v: int)
    requires n > 0 && Divides(n, y - v) && 0 <= v < n
    ensures y % n == v
  {
    var k :| y - v == k * n;
    assert k * n == n * k;
    RemainderUnique(y, n, k, v);
  }

  lemma RemainderDivides(n: nat, y: int)
    requires n > 0
    ensures Divides(n, y - y % n) && Divides(n, y % n - y)
  {
    DividesBy(n, y / n, y - y % n);
    DividesNegated(n, y - y % n);
  }

  lemma DividesThrough(d: int, n: int, k: int, x: int)
    requires n == k * d && Divides(n, x)
    ensures Divides(d, x)
  {
    var j :| x == j * n;
    assert j * (k * d) == (j * k) * d;
  }

  /** The image of s is the shifted message plus the slack, modulo n. */
  lemma Lands(p: nat, q: nat, r: nat, t: nat, e: nat, z: nat, re: nat, a: nat, w0: nat, w1: nat)
    requires p > 0 && q > 0 && p * p * q > 0
    requires Divides(p, Slope(r, e) * t - w0)
    requires re == Pow(r, e) % (p * p * q) && a == (z - re) % (p * p * q) && a + w1 == w0 * (p * q)
    requires z + w1 < p * p * q
    ensures Pow(r + t * (p * q), e) % (p * p * q) == z + w1
  {
    hide Divides, Pow, Slope;
    var n, m, se := p * p * q, p * q, Pow(r + t * (p * q), e);
    ShiftedPower(p, q, r, t, e, w0);
    RemainderDivides(n, Pow(r, e));
    RemainderDivides(n, z - re);
    DividesCombination(n, se - Pow(r, e) - w0 * m, Pow(r, e) - re, 1, 1);
    DividesCombination(n, se - w0 * m - re, a - (z - re), 1, 1);
    ModIs(n, se, z + w1);
  }

  /** The shifted message with its slack stays below n, and its top bits are the message. */
  lemma SlackFits(n: nat, x: nat, w1: nat)
    requires BitCount(n) >= 3 && x < Pow2(K(n)) && w1 < Pow2(2 * K(n) + 1)
    ensures Shl(x, 2 * K(n) + 2) + w1 < n
    ensures Shr(Shl(x, 2 * K(n) + 2) + w1, 2 * K(n) + 2) == x
  {
    hide Shl, Shr, Low, Pow2, K;
    var k := K(n);
    var b := 2 * k + 2;
    Pow2Monotone(2 * k + 1, b);
    ShlOfPow2(k, b);
    ShrUnique(Shl(x, b) + w1, b, x, w1);
    ShlMonotone(x, Pow2(k), b);
    ThirdsFit(n);
  }

  lemma ShlOfPow2(k: nat, b: nat)
    ensures Shl(Pow2(k), b) == Pow2(k + b)
  {
    ShlShl(1, k, b);
  }

  /** Three times k bits and two more fit below n, and three times k + 1 and two more do not. */
  lemma ThirdsFit(n: nat)
    ensures BitCount(n) < 3 ==> K(n) == 0
    ensures BitCount(n) >= 3 ==> Pow2(3 * K(n) + 2) <= n < Pow2(3 * K(n) + 5)
  {
    hide Pow2;
    BitCountBound(n);
    if BitCount(n) >= 3 {
      Pow2Monotone(3 * K(n) + 2, BitCount(n) - 1);
      Pow2Monotone(BitCount(n), 3 * K(n) + 5);
    }
  }

  // The inverse ----------------------------------------------------------------------------------------

  datatype Key = Key(n: nat, e: nat, p: nat, q: nat) {
    /** What key generation establishes of n; primality enters where it is used. */
    ghost predicate Valid() {
      && p >= 2 && q >= 1 && e >= 1 && n == p * p * q
      && BitCount(n) >= 3
    }
  }

  /** What one draw r leads to: the quotient rounded up and the slack. */
  datatype Trial = Trial(re: nat, a: nat, w0: nat, w1: nat)

  function Try(key: Key, x: nat, r: nat): (t: Trial)
    requires key.n > 0 && key.p * key.q > 0
    ensures t.a + t.w1 == t.w0 * (key.p * key.q) && t.w1 < key.p * key.q
    ensures t.re == Pow(r, key.e) % key.n && t.a == (Shl(x, 2 * K(key.n) + 2) - t.re) % key.n
  {
    var pq := key.p * key.q;
    var z := Shl(x, 2 * K(key.n) + 2);
    var re := Pow(r, key.e) % key.n;
    var a := (z - re) % key.n;
    var w0, w1 := a / pq, a % pq;
    QuotientRounds(a, pq);
    if w1 != 0 then Trial(re, a, w0 + 1, pq - w1) else Trial(re, a, w0, w1)
  }

  lemma QuotientRounds(a: nat, m: nat)
    requires m > 0
    ensures a == (a / m) * m + a % m && (a / m + 1) * m == (a / m) * m + m && a / m >= 0
  {}

  /** The draw is kept when the slack is small. */
  predicate Accepted(key: Key, x: nat, r: nat)
    requires key.n > 0 && key.p * key.q > 0
  {
    Try(key, x, r).w1 < Pow2(2 * K(key.n) + 1)
  }

  /** A draw is kept exactly when fewer than 2^(2k + 1) steps lead from the shifted message up to a number that is
      congruent to r^e modulo pq. */
  lemma AcceptedIff(key: Key, x: nat, r: nat)
    requires key.Valid() && key.n > 0 && key.p * key.q > 0
    ensures Accepted(key, x, r) <==> exists d: nat :: Reaches(key, x, r, d)
  {
    hide Divides, Pow, Shl, Pow2, K;
    var pq, w1 := key.p * key.q, Try(key, x, r).w1;
    SlackDivides(key, x, r);
    if Accepted(key, x, r) {
      assert Reaches(key, x, r, w1);
    }
    if d: nat :| Reaches(key, x, r, d) {
      var z, y := Shl(x, 2 * K(key.n) + 2), Pow(r, key.e);
      if d < w1 {
        DividesCombination(pq, z + w1 - y, z + d - y, 1, -1);
        NoSmallMultiple(pq, w1 - d);
      }
    }
  }

  ghost predicate Reaches(key: Key, x: nat, r: nat, d: nat) {
    d < Pow2(2 * K(key.n) + 1) && Divides(key.p * key.q, Shl(x, 2 * K(key.n) + 2) + d - Pow(r, key.e))
  }

  lemma SlackDivides(key: Key, x: nat, r: nat)
    requires key.Valid() && key.n > 0 && key.p * key.q > 0
    ensures Divides(key.p * key.q, Shl(x, 2 * K(key.n) + 2) + Try(key, x, r).w1 - Pow(r, key.e))
  {
    hide Divides, Pow, Shl, K, BitCount, Try;
    Positive(key);
    var t, z, y := Try(key, x, r), Shl(x, 2 * K(key.n) + 2), Pow(r, key.e);
    var i, j := (z - t.re) / key.n, y / key.n;
    Division(z - t.re, key.n);
    Division(y, key.n);
    SlackFactors(key.p, key.p * key.q, key.n, z, y, t, i, j);
    DividesBy(key.p * key.q, t.w0 + key.p * (i - j), z + t.w1 - y);
  }

  lemma Division(x: int, n: nat)
    requires n > 0
    ensures x == n * (x / n) + x % n
  {}

  lemma SlackFactors(p: int, pq: int, n: int, z: int, y: int, t: Trial, i: int, j: int)
    requires n == p * pq && z - t.re == n * i + t.a && y == n * j + t.re && t.a + t.w1 == t.w0 * pq
    ensures z + t.w1 - y == (t.w0 + p * (i - j)) * pq
  {
    assert (t.w0 + p * (i - j)) * pq == t.w0 * pq + (p * pq) * i - (p * pq) * j;
  }

  lemma NoSmallMultiple(m: nat, x: nat)
    requires 0 < x < m
    ensures !Divides(m, x)
  {
    DividesRemainder(m, x);
    SmallRemainder(x, m);
  }

  /** r can be inverted through: e * r^e has an inverse modulo p. */
  ghost predicate Usable(key: Key, r: nat)
    requires key.n > 0 && key.p > 0
  {
    Coprime((key.e * (Pow(r, key.e) % key.n)) % key.p, key.p)
  }

  lemma Positive(key: Key)
    requires key.Valid()
    ensures key.p * key.q >= 1 && key.n == key.p * (key.p * key.q) && key.n > 0
  {
    AtLeast(key.p, key.q);
    AtLeast(key.p, key.p * key.q);
    assert key.p * key.p * key.q == key.p * (key.p * key.q);
    assert key.q * key.p == key.p * key.q;
  }

  /** The multiplier t, with zero standing in where there is no inverse. */
  method Multiplier(p: nat, w0: nat, r: nat, e: nat, re: nat) returns (t: nat, ghost i: int)
    requires p >= 2
    ensures t < p
    ensures Coprime((e * re) % p, p) ==> IsInverse(e * re, i, p) && Divides(p, t - w0 * r * i)
    ensures !Coprime((e * re) % p, p) ==> t == 0
  {
    hide Divides, Coprime;
    var b := (e * re) % p;
    var inverse := MultiplicativeInverse(p, b);
    i := inverse;
    var c := (w0 * r) % p;
    t := (c * (inverse % p)) % p;
    MultiplierSolves(p, w0 * r, c, inverse, t);
    if Coprime(b, p) {
      InverseOfResidue(p, e * re, inverse);
    }
  }

  lemma MultiplierSolves(p: nat, x: int, c: int, i: int, t: int)
    requires p >= 2 && c == x % p && t == (c * (i % p)) % p
    ensures Divides(p, t - x * i)
    ensures i == 0 ==> t == 0
  {
    hide Divides;
    RemainderDivides(p, x);
    RemainderDivides(p, i);
    RemainderDivides(p, c * (i % p));
    // t - x i == (t - c i') + (c - x) i' + x (i' - i)
    var i' := i % p;
    DividesCombination(p, c - x, i' - i, i', x);
    DividesCombination(p, t - c * i', i' * (c - x) + x * (i' - i), 1, 1);
    MultiplierProducts(x, c, i, i', t);
    if i == 0 { ZeroResidue(p, c); }
  }

  lemma ZeroResidue(p: nat, c: int)
    requires p >= 2
    ensures (c * (0 % p)) % p == 0
  {
    assert 0 % p == 0;
    assert c * 0 == 0;
  }

  lemma MultiplierProducts(x: int, c: int, i: int, i': int, t: int)
    ensures 1 * (t - c * i') + 1 * (i' * (c - x) + x * (i' - i)) == t - x * i
  {}

  lemma InverseOfResidue(p: nat, y: int, i: int)
    requires p >= 2 && IsInverse(y % p, i, p)
    ensures IsInverse(y, i, p)
  {
    hide Divides;
    RemainderDivides(p, y);
    DividesCombination(p, (y % p) * i - 1, y - y % p, 1, i);
    ResidueProducts(y, y % p, i);
  }

  lemma ResidueProducts(y: int, b: int, i: int)
    ensures 1 * (b * i - 1) + i * (y - b) == y * i - 1
  {}

  /** The rejection loop over the random draws, then the correction by t. A usable draw gives a preimage of x;
      for any other draw the correction is empty and s is the draw itself. */
  method CalculateRandomizedInverse(key: Key, x: nat, draws: seq<nat>) returns (found: bool, s: nat, r: nat)
    requires key.Valid() && x < Pow2(K(key.n))
    requires forall i :: 0 <= i < |draws| ==> draws[i] <= key.p * key.q
    ensures key.n > 0 && key.p * key.q > 0
    ensures found ==> r in draws && Accepted(key, x, r) && s < key.n && Divides(key.p * key.q, s - r)
    ensures found ==> exists i :: 0 <= i < |draws| && draws[i] == r
                                  && forall j :: 0 <= j < i ==> !Accepted(key, x, draws[j])
    ensures found && Usable(key, r) ==> ApplyFunction(key.n, key.e, s) == x
    ensures found && !Usable(key, r) ==> s == r
    ensures found ==> (ApplyFunction(key.n, key.e, s) == x <==> Usable(key, r) || ApplyFunction(key.n, key.e, r) == x)
    ensures found && Prime(key.p) ==>
              (ApplyFunction(key.n, key.e, s) == x
               <==> (!Divides(key.p, r) && !Divides(key.p, key.e)) || ApplyFunction(key.n, key.e, r) == x)
    ensures !found ==> forall i :: 0 <= i < |draws| ==> !Accepted(key, x, draws[i])
  {
    hide Accepted, Usable, ApplyFunction, K, Pow2, Divides, Prime, BitCount;
    Positive(key);
    for i := 0 to |draws|
      invariant forall j :: 0 <= j < i ==> !Accepted(key, x, draws[j])
    {
      r := draws[i];
      if Accepted(key, x, r) {
        s := Correct(key, x, r);
        if Prime(key.p) { UsableIff(key, r); }
        return true, s, r;
      }
    }
    found, s, r := false, 0, 0;
  }

  method Correct(key: Key, x: nat, r: nat) returns (s: nat)
    requires key.Valid() && x < Pow2(K(key.n)) && key.n > 0 && key.p * key.q > 0
    requires r <= key.p * key.q && Accepted(key, x, r)
    ensures s < key.n && Divides(key.p * key.q, s - r)
    ensures Usable(key, r) ==> ApplyFunction(key.n, key.e, s) == x
    ensures !Usable(key, r) ==> s == r
  {
    hide Divides, Coprime, Pow, Slope, BitCount, Shl, Shr, Pow2, ApplyFunction, K, Try, Key.Valid;
    var pq := key.p * key.q;
    var trial := Try(key, x, r);
    AtLeastTwo(key);
    var t, inv := Multiplier(key.p, trial.w0, r, key.e, trial.re);
    if r == pq { LargestUnusable(key); }
    Smaller(key, r, t);
    if Usable(key, r) {
      Corrected(key, x, r, trial, t, inv);
    }
    s := r + t * pq;
    Offset(pq, t, r);
  }

  lemma AtLeastTwo(key: Key)
    requires key.Valid()
    ensures key.p >= 2
  {}

  lemma Offset(m: int, t: int, r: int)
    ensures Divides(m, r + t * m - r) && (t == 0 ==> r + t * m == r)
  {
    DividesBy(m, t, r + t * m - r);
  }

  lemma {:induction false} PowDivides(p: int, r: int, e: nat)
    requires e >= 1 && Divides(p, r)
    ensures Divides(p, Pow(r, e))
  {
    var k :| r == k * p;
    var w := Pow(r, e - 1);
    assert (k * p) * w == (k * w) * p;
  }

  /** A draw or an exponent divisible by p cannot be used. */
  lemma UnusableMultiple(key: Key, r: nat)
    requires key.Valid() && key.n > 0 && (Divides(key.p, r) || Divides(key.p, key.e))
    ensures !Usable(key, r)
  {
    hide Divides, Pow, BitCount;
    var p, w := key.p, Pow(r, key.e);
    var re := w % key.n;
    Positive(key);
    if Divides(p, r) {
      PowDivides(p, r, key.e);
      RemainderDivides(key.n, w);
      assert p * (p * key.q) == (p * key.q) * p;
      DividesThrough(p, key.n, p * key.q, re - w);
      DividesCombination(p, re - w, w, 1, 1);
      DividesCombination(p, re, re, key.e, 0);
    } else {
      DividesCombination(p, key.e, key.e, re, 0);
    }
    assert re * key.e == key.e * re;
    DividesRemainder(p, key.e * re);
    DividesBy(p, 0, 0);
    DividesBy(p, 1, p);
  }

  lemma LargestUnusable(key: Key)
    requires key.Valid() && key.n > 0
    ensures !Usable(key, key.p * key.q)
  {
    assert key.p * key.q == key.q * key.p;
    DividesBy(key.p, key.q, key.p * key.q);
    UnusableMultiple(key, key.p * key.q);
  }

  lemma Corrected(key: Key, x: nat, r: nat, trial: Trial, t: nat, i: int)
    requires key.Valid() && x < Pow2(K(key.n)) && key.n > 0 && key.p * key.q > 0
    requires trial == Try(key, x, r) && trial.w1 < Pow2(2 * K(key.n) + 1)
    requires IsInverse(key.e * trial.re, i, key.p) && Divides(key.p, t - trial.w0 * r * i)
    ensures ApplyFunction(key.n, key.e, r + t * (key.p * key.q)) == x
  {
    hide Divides, Pow, Slope, BitCount, Shl, Shr, Try;
    Positive(key);
    RemainderDivides(key.n, Pow(r, key.e));
    assert key.p * (key.p * key.q) == (key.p * key.q) * key.p;
    DividesThrough(key.p, key.n, key.p * key.q, trial.re - Pow(r, key.e));
    SolvesSlope(key.p, r, key.e, trial.re, i, trial.w0, t);
    SlackFits(key.n, x, trial.w1);
    Lands(key.p, key.q, r, t, key.e, Shl(x, 2 * K(key.n) + 2), trial.re, trial.a, trial.w0, trial.w1);
  }

  /** s stays below n: t is below p, and the largest draw leaves no correction. */
  lemma Smaller(key: Key, r: nat, t: nat)
    requires key.Valid() && r <= key.p * key.q && t < key.p
    requires r == key.p * key.q ==> t == 0
    ensures r + t * (key.p * key.q) < key.n
  {
    Positive(key);
    var m := key.p * key.q;
    assert key.p * m == t * m + (key.p - t) * m;
    AtLeast(m, key.p - t);
    if t == 0 {
      assert (key.p - t) * m == 2 * m + (key.p - 2) * m;
      ProductNonNegative(key.p - 2, m);
    }
  }

  // Which draws are usable -----------------------------------------------------------------------------

  ghost predicate Prime(p: nat) {
    p >= 2 && forall d: nat :: Divides(d, p) ==> d == 1 || d == p
  }

  /** Trial division up to b decides, when b + 1 is above the square root. */
  lemma PrimeByTrial(p: nat, b: nat)
    requires p >= 2 && (b + 1) * (b + 1) > p && forall d :: 2 <= d <= b ==> p % d != 0
    ensures Prime(p)
  {
    forall d: nat | Divides(d, p) ensures d == 1 || d == p {
      var k :| p == k * d;
      if k <= 0 {
        NonPositive(k, d);
      } else if 2 <= d && 2 <= k {
        OneFactorSmall(b, d, k);
        RemainderUnique(p, d, k, 0);
        RemainderUnique(p, k, d, 0);
      }
    }
  }

  lemma OneFactorSmall(b: nat, d: nat, k: nat)
    requires k * d < (b + 1) * (b + 1)
    ensures d <= b || k <= b
  {
    if b < d && b < k {
      ProductMonotone(d, b + 1, k);
      ProductMonotone(b + 1, b + 1, d);
    }
  }

  lemma NonPositive(k: int, d: nat)
    requires k <= 0
    ensures k * d <= 0
  {
    ProductNonNegative(-k, d);
  }

  lemma {:induction false} Bezout(a: nat, b: nat) returns (u: int, v: int)
    requires Coprime(a, b)
    ensures u * a + v * b == 1
    decreases b
  {
    if b == 0 {
      DividesBy(a, 1, a);
      DividesBy(a, 0, 0);
      u, v := 1, 0;
    } else {
      StartDivisors(a, b);
      RemainderStep(a, b, a, b);
      var u', v' := Bezout(b, a % b);
      u, v := v', u' - v' * (a / b);
      BezoutProducts(a, b, a / b, a % b, u', v');
    }
  }

  lemma BezoutProducts(a: int, b: int, q: int, r: int, u: int, v: int)
    requires a == b * q + r && u * b + v * r == 1
    ensures v * a + (u - v * q) * b == 1
  {
    assert v * (b * q + r) == v * (b * q) + v * r;
    assert (u - v * q) * b == u * b - v * (b * q);
  }

  /** A prime divides a product only through a factor. */
  lemma PrimeSplits(p: nat, x: nat, y: nat)
    requires Prime(p) && Divides(p, x * y) && !Divides(p, x)
    ensures Divides(p, y)
  {
    PrimeCoprime(p, x);
    hide Divides, Coprime;
    var u, v := Bezout(x, p);
    DividesBy(p, 1, p);
    DividesCombination(p, x * y, p, u, v * y);
    assert u * (x * y) + v * y * p == (u * x + v * p) * y;
  }

  lemma PrimeCoprime(p: nat, x: nat)
    requires Prime(p) && !Divides(p, x)
    ensures Coprime(x, p)
  {}

  lemma {:induction false} PrimePower(p: nat, r: nat, e: nat)
    requires Prime(p) && !Divides(p, r)
    ensures Pow(r, e) >= 0 && !Divides(p, Pow(r, e))
    decreases e
  {
    PowNonNegative(r, e);
    if e == 0 {
      if Divides(p, 1) {
        var k :| 1 == k * p;
        UnitFactor(k, p);
      }
    } else {
      PrimePower(p, r, e - 1);
      hide Divides;
      if Divides(p, Pow(r, e)) {
        PrimeSplits(p, r, Pow(r, e - 1));
      }
    }
  }

  /** For prime p, a draw is usable exactly when p divides neither the draw nor the exponent. */
  lemma UsableIff(key: Key, r: nat)
    requires key.Valid() && key.n > 0 && Prime(key.p)
    ensures Usable(key, r) <==> !Divides(key.p, r) && !Divides(key.p, key.e)
  {
    hide Divides, Coprime, BitCount;
    var p, w := key.p, Pow(r, key.e);
    if Divides(p, r) || Divides(p, key.e) {
      UnusableMultiple(key, r);
    } else {
      var re := w % key.n;
      PrimePower(p, r, key.e);
      Positive(key);
      RemainderDivides(key.n, w);
      assert p * (p * key.q) == (p * key.q) * p;
      DividesThrough(p, key.n, p * key.q, w - re);
      if Divides(p, re) {
        DividesCombination(p, w - re, re, 1, 1);
        assert false;
      }
      if Divides(p, key.e * re) {
        PrimeSplits(p, key.e, re);
        assert false;
      }
      ProductNonNegative(key.e, re);
      var b := (key.e * re) % p;
      if Divides(p, b) {
        RemainderDivides(p, key.e * re);
        DividesCombination(p, key.e * re - b, b, 1, 1);
        assert false;
      }
      PrimeCoprime(p, b);
    }
  }

  /** With p = 211, q = 223 and x = 1, the draw r = 0 is accepted but is its own, wrong, answer. */
  lemma ZeroDrawFails()
    ensures var key := Key(211 * 211 * 223, 32, 211, 223);
            && key.Valid() && Prime(key.p) && Prime(key.q) && key.n > 0 && 1 < Pow2(K(key.n))
            && Accepted(key, 1, 0) && !Usable(key, 0) && ApplyFunction(key.n, key.e, 0) != 1
  {
    hide BitCount, Shl, Shr, Pow2, Pow, Divides, Prime;
    var key := Key(9928183, 32, 211, 223);
    PrimeByTrial(211, 14);
    PrimeByTrial(223, 14);
    EightBits();
    BitCountIs(key.n, 24);
    ShlIsTimesPow2(1, 16);
    ZeroPower(32);
    DividesBy(211, 0, 0);
    UnusableMultiple(key, 0);
    ShrZero(16);
  }

  lemma ZeroPower(e: nat)
    requires e >= 1
    ensures Pow(0, e) == 0
  {}

  lemma {:induction false} ShrZero(i: nat)
    ensures Shr(0, i) == 0
  {
    ShlZero(i);
    ShrUnique(0, i, 0, 0);
  }

  // Key sizes ------------------------------------------------------------------------------------------

  /** Primes drawn between 204 * 2^(size/3 - 8) and 2^(size/3) - 1 give a modulus of exactly the requested size. */
  lemma ModulusSize(size: nat, p: nat, q: nat)
    requires size >= 24 && size % 3 == 0
    requires Shl(204, size / 3 - 8) <= p <= Pow2(size / 3) - 1
    requires Shl(204, size / 3 - 8) <= q <= Pow2(size / 3) - 1
    ensures BitCount(p * p * q) == size
  {
    hide BitCount, Shl, Pow2;
    var j := size / 3 - 8;
    var P := Pow2(j);
    ShlIsTimesPow2(204, j);
    Pow2Sum(j, 8);
    EightBits();
    CubeAtLeast(p, q, 204 * P);
    CubeBelow(p, q, 256 * P);
    CubeScale(204, P);
    CubeScale(256, P);
    CubePow2(j);
    Pow2Sum(3 * j, 23);
    Pow2Sum(3 * j, 24);
    assert size == 3 * j + 24;
    BitCountIs(p * p * q, size);
  }

  lemma EightBits()
    ensures Pow2(7) == 128 && Pow2(8) == 256 && Pow2(15) == 32768 && Pow2(16) == 65536
    ensures Pow2(23) == 8388608 && Pow2(24) == 16777216
  {
    Pow2Sum(7, 8);
    Pow2Sum(8, 8);
    Pow2Sum(16, 7);
    Pow2Sum(16, 8);
  }

  lemma CubePow2(j: nat)
    ensures Pow2(3 * j) == Pow2(j) * Pow2(j) * Pow2(j)
  {
    Pow2Sum(j, j);
    Pow2Sum(2 * j, j);
  }

  lemma CubeScale(c: nat, P: nat)
    ensures (c * P) * (c * P) * (c * P) == (c * c * c) * (P * P * P)
  {}

  lemma CubeAtLeast(p: nat, q: nat, m: nat)
    requires p >= m && q >= m
    ensures p * p * q >= m * m * m
  {
    TimesMonotone(m, p, m);
    TimesMonotone(m, p, p);
    TimesMonotone(m * m, p * p, m);
    TimesMonotone(m, q, p * p);
  }

  lemma CubeBelow(p: nat, q: nat, m: nat)
    requires p < m && q < m
    ensures p * p * q < m * m * m
  {
    TimesMonotone(p, m, p);
    TimesMonotone(p, m, m);
    TimesMonotone(p * p, m * m, q);
    assert m * m * m == m * m * q + m * m * (m - q);
    Square(m);
    TimesMonotone(1, m - q, m * m);
  }

  lemma Square(m: nat)
    requires m >= 1
    ensures m * m >= 1
  {
    ProductNonNegative(m - 1, m);
    assert m * m == (m - 1) * m + m;
  }

  lemma TimesMonotone(a: int, b: int, c: int)
    requires a <= b && c >= 0
    ensures a * c <= b * c && c * a <= c * b
  {
    ProductNonNegative(b - a, c);
    assert (b - a) * c == b * c - a * c;
    assert c * a == a * c && c * b == b * c;
  }
}

/** Remainders and multiples of a block size. */
module Remainders {
  lemma FirstBlock(n: nat, b: nat)
    requires b >= 1 && n % b == 0 && n > 0
    ensures n >= b && (n - b) % b == 0
  {
    if n < b { SmallRemainder(n, b); }
    LessOne(n, b);
  }

  lemma SmallRemainder(n: nat, b: nat)
    requires n < b
    ensures n % b == n
  {}

  /** Taking off one b does not change the remainder. */
  lemma LessOne(n: int, b: nat)
    requires b >= 1
    ensures (n - b) % b == n % b
  {
    var q, r := n / b, n % b;
    assert n == b * q + r;
    RemainderUnique(n - b, b, q - 1, r);
  }

  lemma RemainderUnique(n: int, b: nat, q: int, r: nat)
    requires r < b && n == b * q + r
    ensures n % b == r && n / b == q
  {
    var q', r' := n / b, n % b;
    assert n == b * q' + r';
    var d := q - q';
    assert b * d == r' - r;
    if d >= 1 {
      AtLeast(b, d);
    } else if d <= -1 {
      AtLeast(b, -d);
    }
  }

  lemma AtLeast(b: nat, d: int)
    requires d >= 1
    ensures b * d >= b && b * (-d) == -(b * d)
  {
    assert b * d == b + b * (d - 1);
    ProductNonNegative(b, d - 1);
  }

  lemma ProductNonNegative(a: int, b: int)
    requires a >= 0 && b >= 0
    ensures a * b >= 0
  {}

  lemma AddMultiple(n: nat, m: nat, b: nat)
    requires b >= 1 && n % b == 0
    ensures (n + m) % b == m % b
  {
    var q, q', r := n / b, m / b, m % b;
    assert n == b * q && m == b * q' + r;
    assert n + m == b * (q + q') + r;
    RemainderUnique(n + m, b, q + q', r);
  }

  lemma LessRemainder(n: nat, b: nat)
    requires b >= 1
    ensures n % b <= n && (n - n % b) % b == 0
  {
    var q := n / b;
    assert n == b * q + n % b;
    ProductNonNegative(b, q);
    RemainderUnique(n - n % b, b, q, 0);
  }

  lemma ProductMonotone(b: nat, x: nat, y: nat)
    requires x <= y
    ensures b * x <= b * y
  {
    ProductNonNegative(b, y - x);
    assert b * y - b * x == b * (y - x);
  }

  /** A multiple below another one is a whole block below it. */
  lemma MultipleBelow(n: nat, b: nat, k: nat)
    requires b >= 1 && n % b == 0 && n < b * k
    ensures n + b <= b * k && (n + b) % b == 0
  {
    var q := n / b;
    assert n == b * q;
    if q >= k { ProductMonotone(b, k, q); }
    ProductMonotone(b, q + 1, k);
    assert b * (q + 1) == b * q + b;
    RemainderUnique(n + b, b, q + 1, 0);
  }
}

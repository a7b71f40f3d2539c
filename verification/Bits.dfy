/** Shifts, bits and bit lengths of integers, as the library's `Integer` provides them.
    Multiplication by a power of two is the left shift throughout, which keeps the proofs linear. */
module Bits {

  /** `n << b`, that is n * 2^b */
  function Shl(n: int, b: nat): (r: int)
    ensures n >= 0 ==> r >= n
    ensures n <= 0 ==> r <= n
    decreases b
  {
    if b == 0 then n else 2 * Shl(n, b - 1)
  }

  function Pow2(n: nat): (r: nat)
    ensures r >= 1
  {
    Shl(1, n)
  }

  /** `e >> i` */
  function Shr(e: nat, i: nat): nat
    decreases i
  {
    if i == 0 then e else Shr(e, i - 1) / 2
  }

  /** `e % (1 << i)` */
  function Low(e: nat, i: nat): (r: nat)
    ensures r < Pow2(i)
    ensures e == r + Shl(Shr(e, i), i)
    decreases i
  {
    if i == 0 then 0
    else
      var h := Shr(e, i - 1);
      assert h == h / 2 + h / 2 + h % 2;
      ShlAdd(h / 2, h / 2, i - 1);
      ShlAdd(h / 2 + h / 2, h % 2, i - 1);
      ShlZero(i - 1);
      Low(e, i - 1) + Shl(h % 2, i - 1)
  }

  predicate Odd(n: int) {
    n % 2 == 1
  }

  /** `e.GetBit(i)` */
  predicate Bit(e: nat, i: nat) {
    Odd(Shr(e, i))
  }

  /** `e.BitCount()` */
  function BitCount(e: nat): nat {
    if e == 0 then 0 else 1 + BitCount(e / 2)
  }

  lemma {:induction false} ShlAdd(m: int, n: int, b: nat)
    ensures Shl(m + n, b) == Shl(m, b) + Shl(n, b)
    decreases b
  {
    if b == 0 {
    } else {
      ShlAdd(m, n, b - 1);
    }
  }

  lemma ShlNone(n: int)
    ensures Shl(n, 0) == n
  {}

  lemma {:induction false} ShlZero(b: nat)
    ensures Shl(0, b) == 0
    decreases b
  {
    if b == 0 {
    } else {
      ShlZero(b - 1);
    }
  }

  lemma {:induction false} ShlShl(n: int, a: nat, b: nat)
    ensures Shl(Shl(n, a), b) == Shl(n, a + b)
    decreases b
  {
    if b == 0 {
    } else {
      ShlShl(n, a, b - 1);
    }
  }

  lemma {:induction false} ShlTwice(n: int, b: nat)
    ensures Shl(2 * n, b) == Shl(n, b + 1)
  {
    ShlShl(n, 1, b);
    assert Shl(n, 1) == 2 * Shl(n, 0);
  }

  lemma {:induction false} ShlIsTimesPow2(n: int, b: nat)
    ensures Shl(n, b) == n * Pow2(b)
    decreases b
  {
    if b == 0 {
    } else {
      ShlIsTimesPow2(n, b - 1);
      TimesTwice(n, Pow2(b - 1));
    }
  }

  lemma TimesTwice(n: int, p: int)
    ensures 2 * (n * p) == n * (2 * p)
  {}

  lemma Pow2Sum(a: nat, b: nat)
    ensures Pow2(a + b) == Pow2(a) * Pow2(b)
  {
    ShlShl(1, a, b);
    ShlIsTimesPow2(Shl(1, a), b);
  }

  lemma {:induction false} ShlMonotone(m: int, n: int, b: nat)
    requires m <= n
    ensures Shl(m, b) <= Shl(n, b)
    ensures m < n ==> Shl(m, b) + Pow2(b) <= Shl(n, b)
  {
    ShlAdd(m, n - m, b);
    if m < n {
      ShlAdd(1, n - m - 1, b);
    }
  }

  lemma {:induction false} Pow2Monotone(a: nat, b: nat)
    requires a <= b
    ensures Pow2(a) <= Pow2(b)
    decreases b
  {
    if a >= b {
    } else {
      Pow2Monotone(a, b - 1);
    }
  }

  lemma {:induction false} Pow2Exceeds(n: nat)
    ensures Pow2(n) >= n + 1
  {
    if n == 0 {
    } else {
      Pow2Exceeds(n - 1);
    }
  }

  lemma {:induction false} ShrShr(e: nat, i: nat, j: nat)
    ensures Shr(Shr(e, i), j) == Shr(e, i + j)
    decreases j
  {
    if j == 0 {
    } else {
      ShrShr(e, i, j - 1);
    }
  }

  /** Shift and remainder are the only quotient and remainder by a power of two. */
  lemma {:induction false} ShrUnique(e: nat, i: nat, q: nat, r: nat)
    requires e == r + Shl(q, i) && r < Pow2(i)
    ensures Shr(e, i) == q && Low(e, i) == r
  {
    assert e == Low(e, i) + Shl(Shr(e, i), i);
    ShlMonotone(if q <= Shr(e, i) then q else Shr(e, i), if q <= Shr(e, i) then Shr(e, i) else q, i);
  }

  lemma {:induction false} ShrSmall(e: nat, i: nat)
    requires e < Pow2(i)
    ensures Shr(e, i) == 0 && Low(e, i) == e
  {
    ShlZero(i);
    ShrUnique(e, i, 0, e);
  }

  lemma {:induction false} ShrPlusPower(e: nat, i: nat)
    ensures Shr(e + Pow2(i), i) == Shr(e, i) + 1
  {
    ShlAdd(Shr(e, i), 1, i);
    ShrUnique(e + Pow2(i), i, Shr(e, i) + 1, Low(e, i));
  }

  /** An odd number has an odd remainder by every positive power of two. */
  lemma {:induction false} LowOdd(e: nat, i: nat)
    requires Odd(e) && i >= 1
    ensures Odd(Low(e, i)) && Odd(Pow2(i) - Low(e, i))
  {
    hide Shr, Low;
    var h := Shr(e, i);
    var l: int := Low(e, i);
    assert Shl(h, i) == 2 * Shl(h, i - 1) && Pow2(i) == 2 * Shl(1, i - 1);
    SameParity(e, l, Shl(h, i - 1));
    SameParity(Pow2(i) - l, -l, Shl(1, i - 1));
    SameParity(l, -l, l);
  }

  lemma SameParity(a: int, b: int, c: int)
    requires a == b + 2 * c
    ensures a % 2 == b % 2
  {}

  lemma {:induction false} BitCountBound(e: nat)
    ensures e < Pow2(BitCount(e))
    ensures e > 0 ==> Pow2(BitCount(e) - 1) <= e
  {
    if e == 0 {
    } else {
      BitCountBound(e / 2);
    }
  }

  /** `BitCount` is the exponent of the tightest enclosing power of two. */
  lemma {:induction false} BitCountIs(e: nat, n: nat)
    requires n >= 1 && Pow2(n - 1) <= e < Pow2(n)
    ensures BitCount(e) == n
  {
    BitCountBound(e);
    var b := BitCount(e);
    if b < n { Pow2Monotone(b, n - 1); }
    if n < b { Pow2Monotone(n, b - 1); }
  }

  /** e >> i is the x with x * 2^i <= e < (x + 1) * 2^i. */
  lemma ShrBetween(e: nat, i: nat, x: nat)
    ensures x <= Shr(e, i) <==> Shl(x, i) <= e
    ensures Shr(e, i) <= x <==> e < Shl(x + 1, i)
  {
    hide Shr, Shl;
    var q := Shr(e, i);
    assert e == Low(e, i) + Shl(q, i);
    ShlAdd(q, 1, i);
    if x <= q {
      ShlMonotone(x, q, i);
    } else {
      ShlMonotone(q + 1, x, i);
    }
    if q <= x {
      ShlMonotone(q + 1, x + 1, i);
    } else {
      ShlMonotone(x + 1, q, i);
    }
  }

  /** Below 2^w the top bit is set from 2^(w - 1) on. */
  lemma TopBitIff(r: nat, w: nat)
    requires w >= 1 && r < Pow2(w)
    ensures Bit(r, w - 1) <==> r >= Pow2(w - 1)
    ensures Pow2(w) == 2 * Pow2(w - 1)
  {
    hide Shr;
    ShrBetween(r, w - 1, 1);
    ShlTwice(1, w - 1);
  }
}

/** Abelian groups as the library's `AbstractGroup` interface presents them, and scalar multiples.

    A group works on the elements of `T` that satisfy `ok` (for instance the points of a curve).
    Each law is wrapped in a named predicate, so that a proof uses exactly the instances it names. */
module Groups {

  datatype Group<!T> = Group(ok: T -> bool, zero: T, plus: (T, T) -> T, neg: T -> T)

  ghost predicate ClosedAt<T>(g: Group<T>, a: T, b: T) {
    g.ok(a) && g.ok(b) ==> g.ok(g.plus(a, b))
  }

  ghost predicate AssocAt<T>(g: Group<T>, a: T, b: T, c: T) {
    g.ok(a) && g.ok(b) && g.ok(c) ==> g.plus(g.plus(a, b), c) == g.plus(a, g.plus(b, c))
  }

  ghost predicate CommAt<T>(g: Group<T>, a: T, b: T) {
    g.ok(a) && g.ok(b) ==> g.plus(a, b) == g.plus(b, a)
  }

  ghost predicate UnitAt<T>(g: Group<T>, a: T) {
    g.ok(a) ==> g.plus(a, g.zero) == a && g.ok(g.neg(a)) && g.plus(a, g.neg(a)) == g.zero
  }

  ghost predicate Abelian<T(!new)>(g: Group<T>) {
    && g.ok(g.zero)
    && (forall a, b :: ClosedAt(g, a, b))
    && (forall a, b, c :: AssocAt(g, a, b, c))
    && (forall a, b :: CommAt(g, a, b))
    && (forall a :: UnitAt(g, a))
  }

  function Add<T(!new)>(g: Group<T>, a: T, b: T): (r: T)
    requires Abelian(g) && g.ok(a) && g.ok(b)
    ensures g.ok(r)
  {
    assert ClosedAt(g, a, b);
    g.plus(a, b)
  }

  function Neg<T(!new)>(g: Group<T>, a: T): (r: T)
    requires Abelian(g) && g.ok(a)
    ensures g.ok(r)
  {
    assert UnitAt(g, a);
    g.neg(a)
  }

  lemma {:induction false} Assoc<T(!new)>(g: Group<T>, a: T, b: T, c: T)
    requires Abelian(g) && g.ok(a) && g.ok(b) && g.ok(c)
    ensures Add(g, Add(g, a, b), c) == Add(g, a, Add(g, b, c))
  {
    assert AssocAt(g, a, b, c);
  }

  lemma {:induction false} Comm<T(!new)>(g: Group<T>, a: T, b: T)
    requires Abelian(g) && g.ok(a) && g.ok(b)
    ensures Add(g, a, b) == Add(g, b, a)
  {
    assert CommAt(g, a, b);
  }

  lemma {:induction false} Unit<T(!new)>(g: Group<T>, a: T)
    requires Abelian(g) && g.ok(a)
    ensures Add(g, a, g.zero) == a && Add(g, g.zero, a) == a
    ensures Add(g, a, Neg(g, a)) == g.zero && Add(g, Neg(g, a), a) == g.zero
  {
    assert UnitAt(g, a);
    Comm(g, a, g.zero);
    Comm(g, a, Neg(g, a));
  }

  /** (a + b) + (c + d) == (a + c) + (b + d) */
  lemma {:induction false} Exchange<T(!new)>(g: Group<T>, a: T, b: T, c: T, d: T)
    requires Abelian(g) && g.ok(a) && g.ok(b) && g.ok(c) && g.ok(d)
    ensures Add(g, Add(g, a, b), Add(g, c, d)) == Add(g, Add(g, a, c), Add(g, b, d))
  {
    Assoc(g, a, b, Add(g, c, d));
    Assoc(g, b, c, d);
    Comm(g, b, c);
    Assoc(g, c, b, d);
    Assoc(g, a, c, Add(g, b, d));
  }

  lemma {:induction false} Cancel<T(!new)>(g: Group<T>, a: T, b: T, c: T)
    requires Abelian(g) && g.ok(a) && g.ok(b) && g.ok(c)
    requires Add(g, a, c) == Add(g, b, c)
    ensures a == b
  {
    Assoc(g, a, c, Neg(g, c));
    Assoc(g, b, c, Neg(g, c));
    Unit(g, a);
    Unit(g, b);
    Unit(g, c);
  }

  /** n times x, for every integer n: the meaning of every fast multiplication below. */
  ghost function Mul<T(!new)>(g: Group<T>, n: int, x: T): (r: T)
    requires Abelian(g) && g.ok(x)
    ensures g.ok(r)
    decreases n < 0, if n < 0 then -n else n
  {
    if n == 0 then g.zero
    else if n > 0 then Add(g, Mul(g, n - 1, x), x)
    else Neg(g, Mul(g, -n, x))
  }

  lemma {:induction false} MulOne<T(!new)>(g: Group<T>, x: T)
    requires Abelian(g) && g.ok(x)
    ensures Mul(g, 1, x) == x
    ensures Mul(g, 2, x) == Add(g, x, x)
  {
    Unit(g, x);
    assert Mul(g, 1, x) == Add(g, Mul(g, 0, x), x);
  }

  lemma {:induction false} NegZero<T(!new)>(g: Group<T>)
    requires Abelian(g)
    ensures Neg(g, g.zero) == g.zero
  {
    Unit(g, g.zero);
    Unit(g, Neg(g, g.zero));
  }

  /** The recursion of `Mul` holds on all integers. */
  lemma {:induction false} MulStep<T(!new)>(g: Group<T>, n: int, x: T)
    requires Abelian(g) && g.ok(x)
    ensures Mul(g, n + 1, x) == Add(g, Mul(g, n, x), x)
  {
    if n < 0 {
      // -m + x == -(m - 1) with m == (m - 1) + x
      var m1, m := Mul(g, -n - 1, x), Mul(g, -n, x);
      assert m == Add(g, m1, x);
      var lhs, rhs := Neg(g, m1), Add(g, Neg(g, m), x);
      Unit(g, m1);
      Unit(g, m);
      Assoc(g, Neg(g, m), x, m1);
      Comm(g, x, m1);
      Cancel(g, lhs, rhs, m1);
      if n == -1 { NegZero(g); }
    }
  }

  lemma {:induction false} MulAdd<T(!new)>(g: Group<T>, m: int, n: int, x: T)
    requires Abelian(g) && g.ok(x)
    ensures Mul(g, m + n, x) == Add(g, Mul(g, m, x), Mul(g, n, x))
    decreases if n < 0 then -n else n
  {
    hide Abelian;
    var mx := Mul(g, m, x);
    if n == 0 {
      Unit(g, mx);
    } else if n > 0 {
      MulAdd(g, m, n - 1, x);
      MulStep(g, m + n - 1, x);
      MulStep(g, n - 1, x);
      Assoc(g, mx, Mul(g, n - 1, x), x);
    } else {
      MulAdd(g, m, n + 1, x);
      MulStep(g, m + n, x);
      MulStep(g, n, x);
      Assoc(g, mx, Mul(g, n, x), x);
      Cancel(g, Mul(g, m + n, x), Add(g, mx, Mul(g, n, x)), x);
    }
  }

  lemma {:induction false} MulMul<T(!new)>(g: Group<T>, m: int, n: int, x: T)
    requires Abelian(g) && g.ok(x)
    ensures Mul(g, m * n, x) == Mul(g, m, Mul(g, n, x))
    decreases if m < 0 then -m else m
  {
    hide Abelian;
    var y := Mul(g, n, x);
    if m == 0 {
      assert m * n == 0;
    } else if m > 0 {
      var p := (m - 1) * n;
      assert p + n == m * n;
      MulMul(g, m - 1, n, x);
      MulAdd(g, p, n, x);
      MulStep(g, m - 1, y);
    } else {
      var p := m * n;
      assert p + n == (m + 1) * n;
      MulMul(g, m + 1, n, x);
      MulAdd(g, p, n, x);
      MulStep(g, m, y);
      Cancel(g, Mul(g, p, x), Mul(g, m, y), y);
    }
  }

  lemma {:induction false} MulNeg<T(!new)>(g: Group<T>, n: int, x: T)
    requires Abelian(g) && g.ok(x)
    ensures Mul(g, -n, x) == Mul(g, n, Neg(g, x)) == Neg(g, Mul(g, n, x))
  {
    MulOne(g, x);
    assert Mul(g, -1, x) == Neg(g, x);
    MulMul(g, n, -1, x);
    var y := Mul(g, n, x);
    MulAdd(g, n, -n, x);
    Unit(g, y);
    Comm(g, y, Mul(g, -n, x));
    Comm(g, y, Neg(g, y));
    Cancel(g, Mul(g, -n, x), Neg(g, y), y);
  }

  lemma {:induction false} MulDistributes<T(!new)>(g: Group<T>, n: nat, x: T, y: T)
    requires Abelian(g) && g.ok(x) && g.ok(y)
    ensures Mul(g, n, Add(g, x, y)) == Add(g, Mul(g, n, x), Mul(g, n, y))
  {
    if n == 0 {
      Unit(g, g.zero);
    } else {
      MulDistributes(g, n - 1, x, y);
      Exchange(g, Mul(g, n - 1, x), Mul(g, n - 1, y), x, y);
    }
  }

  lemma {:induction false} MulZero<T(!new)>(g: Group<T>, n: nat)
    requires Abelian(g)
    ensures Mul(g, n, g.zero) == g.zero
  {
    Unit(g, g.zero);
    if n == 0 {
    } else {
      MulZero(g, n - 1);
    }
  }

  /** A base with its exponent: one term of a linear combination (`BaseAndExponent`). */
  datatype Term<T> = Term(base: T, exponent: nat)

  ghost predicate TermsOk<T>(g: Group<T>, s: seq<Term<T>>) {
    forall i :: 0 <= i < |s| ==> g.ok(s[i].base)
  }

  /** The sum of exponent times base over a list of terms. */
  ghost function Combination<T(!new)>(g: Group<T>, s: seq<Term<T>>): (r: T)
    requires Abelian(g) && TermsOk(g, s)
    ensures g.ok(r)
  {
    if s == [] then g.zero
    else Add(g, Mul(g, s[0].exponent, s[0].base), Combination(g, s[1..]))
  }

  lemma {:induction false} CombinationConcat<T(!new)>(g: Group<T>, s: seq<Term<T>>, t: seq<Term<T>>)
    requires Abelian(g) && TermsOk(g, s) && TermsOk(g, t)
    ensures TermsOk(g, s + t)
    ensures Combination(g, s + t) == Add(g, Combination(g, s), Combination(g, t))
  {
    if s == [] {
      assert s + t == t;
      Unit(g, Combination(g, t));
    } else {
      CombinationConcat(g, s[1..], t);
      assert (s + t)[1..] == s[1..] + t;
      Assoc(g, Mul(g, s[0].exponent, s[0].base), Combination(g, s[1..]), Combination(g, t));
    }
  }

  lemma {:induction false} CombinationOne<T(!new)>(g: Group<T>, t: Term<T>)
    requires Abelian(g) && g.ok(t.base)
    ensures Combination(g, [t]) == Mul(g, t.exponent, t.base)
  {
    assert [t][1..] == [];
    Unit(g, Mul(g, t.exponent, t.base));
  }

  /** Moving one term to the front does not change the sum. */
  lemma {:induction false} CombinationPick<T(!new)>(g: Group<T>, s: seq<Term<T>>, k: nat)
    requires Abelian(g) && TermsOk(g, s) && k < |s|
    ensures TermsOk(g, s[..k] + s[k + 1..])
    ensures Combination(g, s) == Add(g, Mul(g, s[k].exponent, s[k].base), Combination(g, s[..k] + s[k + 1..]))
  {
    var a, b, m := s[..k], s[k + 1..], [s[k]];
    assert s == a + (m + b);
    CombinationConcat(g, m, b);
    CombinationConcat(g, a, m + b);
    CombinationConcat(g, a, b);
    CombinationOne(g, s[k]);
    var ca, cm, cb := Combination(g, a), Combination(g, m), Combination(g, b);
    Assoc(g, ca, cm, cb);
    Comm(g, ca, cm);
    Assoc(g, cm, ca, cb);
  }

  /** The sum depends only on which terms occur, not on their order. */
  lemma {:induction false} CombinationPermutes<T(!new)>(g: Group<T>, s: seq<Term<T>>, t: seq<Term<T>>)
    requires Abelian(g) && TermsOk(g, s)
    requires multiset(s) == multiset(t)
    ensures TermsOk(g, t) && Combination(g, s) == Combination(g, t)
    decreases |s|
  {
    PermutedTermsOk(g, s, t);
    if s == [] {
      assert |multiset(s)| == |multiset(t)|;
    } else {
      var k := PickOut(s, t);
      CombinationPermutes(g, s[1..], t[..k] + t[k + 1..]);
      CombinationPick(g, t, k);
    }
  }

  lemma SplitAt<T>(t: seq<T>, k: nat)
    requires k < |t|
    ensures multiset(t) == multiset{t[k]} + multiset(t[..k] + t[k + 1..])
  {
    assert t == t[..k] + [t[k]] + t[k + 1..];
  }

  /** Where the first element of a permuted sequence went. */
  lemma PickOut<T>(s: seq<T>, t: seq<T>) returns (k: nat)
    requires s != [] && multiset(s) == multiset(t)
    ensures k < |t| && t[k] == s[0] && multiset(s[1..]) == multiset(t[..k] + t[k + 1..])
  {
    assert s[0] in multiset(t);
    k :| 0 <= k < |t| && t[k] == s[0];
    assert s == [s[0]] + s[1..];
    assert multiset(s) == multiset{s[0]} + multiset(s[1..]);
    SplitAt(t, k);
    assert multiset(s[1..]) == multiset(s) - multiset{s[0]};
    assert multiset(t[..k] + t[k + 1..]) == multiset(t) - multiset{s[0]};
  }

  lemma {:induction false} PermutedTermsOk<T>(g: Group<T>, s: seq<Term<T>>, t: seq<Term<T>>)
    requires TermsOk(g, s) && multiset(s) == multiset(t)
    ensures TermsOk(g, t)
  {
    forall i | 0 <= i < |t| ensures g.ok(t[i].base) {
      assert t[i] in multiset(s);
    }
  }

  /** `f` carries g to h. */
  ghost predicate HomAt<T(!new), U(!new)>(g: Group<T>, h: Group<U>, f: T -> U, a: T, b: T)
    requires Abelian(g) && Abelian(h)
  {
    g.ok(a) && g.ok(b) ==>
      && h.ok(f(a)) && h.ok(f(b)) && f(Add(g, a, b)) == Add(h, f(a), f(b))
  }

  ghost predicate Homomorphism<T(!new), U(!new)>(g: Group<T>, h: Group<U>, f: T -> U)
    requires Abelian(g) && Abelian(h)
  {
    && h.ok(f(g.zero)) && f(g.zero) == h.zero
    && forall a, b :: HomAt(g, h, f, a, b)
  }

  /** A homomorphism carries multiples to multiples. */
  lemma {:induction false} HomMul<T(!new), U(!new)>(g: Group<T>, h: Group<U>, f: T -> U, n: nat, x: T)
    requires Abelian(g) && Abelian(h) && Homomorphism(g, h, f) && g.ok(x)
    ensures h.ok(f(x)) && f(Mul(g, n, x)) == Mul(h, n, f(x))
  {
    hide Abelian, Add;
    assert HomAt(g, h, f, x, x);
    if n == 0 {
    } else {
      HomMul(g, h, f, n - 1, x);
      assert HomAt(g, h, f, Mul(g, n - 1, x), x);
    }
  }
}

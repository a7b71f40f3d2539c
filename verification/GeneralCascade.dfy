/** Any number of bases and exponents: `GeneralCascadeMultiplication` repeatedly divides the largest exponent
    by the next largest, keeping the terms in a heap. */
module GeneralCascade {
  import opened Groups
  import opened Heaps
  import opened SimultaneousMultiplication
  import opened CascadeScalarMultiplication

  ghost function TotalExponent<T>(s: seq<Term<T>>): nat {
    if s == [] then 0 else s[0].exponent + TotalExponent(s[1..])
  }

  lemma {:induction false} TotalConcat<T>(s: seq<Term<T>>, t: seq<Term<T>>)
    ensures TotalExponent(s + t) == TotalExponent(s) + TotalExponent(t)
  {
    if s == [] {
      assert s + t == t;
    } else {
      assert (s + t)[1..] == s[1..] + t;
      TotalConcat(s[1..], t);
    }
  }

  lemma {:induction false} TotalPermutes<T>(s: seq<Term<T>>, t: seq<Term<T>>)
    requires multiset(s) == multiset(t)
    ensures TotalExponent(s) == TotalExponent(t)
    decreases |s|
  {
    if s == [] {
      assert |multiset(s)| == |multiset(t)|;
    } else {
      var k := PickOut(s, t);
      var a, b := t[..k], t[k + 1..];
      assert t == a + ([t[k]] + b);
      TotalPermutes(s[1..], a + b);
      TotalConcat(a, b);
      TotalConcat(a, [t[k]] + b);
    }
  }

  /** One division step on the first and the last term. */
  ghost function Divided<T(!new)>(g: Group<T>, s: seq<Term<T>>): seq<Term<T>>
    requires Abelian(g) && TermsOk(g, s) && |s| >= 2 && s[0].exponent > 0
  {
    var first, last := s[0], s[|s| - 1];
    var q, r := last.exponent / first.exponent, last.exponent % first.exponent;
    s[0 := Term(Add(g, first.base, Mul(g, q, last.base)), first.exponent)][|s| - 1 := Term(last.base, r)]
  }

  /** b * (B + q * C) + r * C == b * B + (q * b + r) * C */
  lemma DivisionStep<T(!new)>(g: Group<T>, B: T, C: T, b: nat, q: nat, r: nat, t: nat)
    requires Abelian(g) && g.ok(B) && g.ok(C) && t == b * q + r
    ensures Add(g, Mul(g, b, Add(g, B, Mul(g, q, C))), Mul(g, r, C)) == Add(g, Mul(g, b, B), Mul(g, t, C))
  {
    hide Abelian, Mul, Add;
    MulDistributes(g, b, B, Mul(g, q, C));
    MulMul(g, b, q, C);
    Assoc(g, Mul(g, b, B), Mul(g, b * q, C), Mul(g, r, C));
    MulAdd(g, b * q, r, C);
  }

  lemma EndsFirst<T(!new)>(g: Group<T>, s: seq<Term<T>>)
    requires Abelian(g) && TermsOk(g, s) && |s| >= 2
    ensures TermsOk(g, s[1..|s| - 1])
    ensures Combination(g, s)
         == Add(g, Add(g, Mul(g, s[0].exponent, s[0].base), Mul(g, s[|s| - 1].exponent, s[|s| - 1].base)),
                Combination(g, s[1..|s| - 1]))
    ensures TotalExponent(s) == s[0].exponent + s[|s| - 1].exponent + TotalExponent(s[1..|s| - 1])
  {
    hide Abelian, Mul;
    var mid, last := s[1..|s| - 1], [s[|s| - 1]];
    assert s[1..] == mid + last;
    CombinationConcat(g, mid, last);
    CombinationOne(g, last[0]);
    TotalConcat(mid, last);
    assert TotalExponent(last) == last[0].exponent + TotalExponent<T>([]);
    var cm, cl, c0 := Combination(g, mid), Mul(g, last[0].exponent, last[0].base), Mul(g, s[0].exponent, s[0].base);
    Comm(g, cm, cl);
    Assoc(g, c0, cl, cm);
  }

  /** A division step keeps the sum and lowers the exponent total. */
  lemma DividedKeeps<T(!new)>(g: Group<T>, s: seq<Term<T>>)
    requires Abelian(g) && TermsOk(g, s) && |s| >= 2 && 0 < s[0].exponent <= s[|s| - 1].exponent
    ensures TermsOk(g, Divided(g, s))
    ensures Combination(g, Divided(g, s)) == Combination(g, s)
    ensures TotalExponent(Divided(g, s)) < TotalExponent(s)
  {
    hide Abelian, Mul, Combination, TotalExponent;
    var d, n := Divided(g, s), |s|;
    var first, last := s[0], s[n - 1];
    EndsFirst(g, s);
    EndsFirst(g, d);
    assert d[1..n - 1] == s[1..n - 1];
    var q, r := last.exponent / first.exponent, last.exponent % first.exponent;
    DivMod(last.exponent, first.exponent);
    DivisionStep(g, first.base, last.base, first.exponent, q, r, last.exponent);
  }

  lemma DivMod(t: nat, b: nat)
    requires b > 0
    ensures t == b * (t / b) + t % b && t % b < b && t / b <= t
  {
    if t / b > t { ProductAtLeast(t / b - t, b); }
  }

  lemma ProductAtLeast(d: nat, b: nat)
    requires b > 0
    ensures d * b >= d
  {}

  lemma {:induction false} NoExponents<T(!new)>(g: Group<T>, s: seq<Term<T>>)
    requires Abelian(g) && TermsOk(g, s) && AllAtMost(s, 0)
    ensures Combination(g, s) == g.zero
  {
    if s == [] {
    } else {
      NoExponents(g, s[1..]);
      Unit(g, g.zero);
    }
  }

  /** When the heap's root is zero, only the last term is left. */
  lemma LastOnly<T(!new)>(g: Group<T>, s: seq<Term<T>>)
    requires Abelian(g) && TermsOk(g, s) && |s| >= 2 && IsHeap(s, |s| - 1) && s[0].exponent == 0
    ensures Combination(g, s) == Mul(g, s[|s| - 1].exponent, s[|s| - 1].base)
  {
    hide Abelian, Mul, Combination;
    var n := |s| - 1;
    var rest := s[..n] + s[n + 1..];
    forall i | 0 <= i < |rest| ensures rest[i].exponent <= 0 {
      RootIsMax(s, n, i);
    }
    CombinationPick(g, s, n);
    NoExponents(g, rest);
    Unit(g, Mul(g, s[n].exponent, s[n].base));
  }

  lemma DividedHeap<T(!new)>(g: Group<T>, s: seq<Term<T>>, m: nat)
    requires Abelian(g) && TermsOk(g, s) && |s| >= 2 && 0 < s[0].exponent
    requires IsHeap(s, |s| - 1) && AllAtMost(s, m)
    ensures IsHeap(Divided(g, s), |s| - 1) && AllAtMost(Divided(g, s), m)
    ensures s[|s| - 1].exponent / s[0].exponent <= m
  {
    hide Abelian, Mul;
    var d := Divided(g, s);
    forall k | 1 <= k < |s| - 1 ensures Above(d, k) {
      assert Above(s, k);
    }
    DivMod(s[|s| - 1].exponent, s[0].exponent);
    DivMod(s[|s| - 1].exponent % s[0].exponent, s[0].exponent);
  }

  /** The division step in place. */
  method DivideLargest<T(!new)>(g: Group<T>, eb: array<Term<T>>, inversionIsFast: bool)
    requires Abelian(g) && eb.Length >= 2 && TermsOk(g, eb[..]) && eb[0].exponent > 0
    modifies eb
    ensures eb[..] == old(Divided(g, eb[..]))
  {
    hide Abelian, Mul;
    var last := eb.Length - 1;
    var t := eb[last].exponent;
    var q := t / eb[0].exponent;
    ghost var s := eb[..];
    eb[last] := Term(eb[last].base, t % eb[0].exponent);
    var addend := eb[last].base;
    if q == 1 {
      MulOne(g, addend);
    } else {
      addend := ScalarMultiply(g, addend, q, inversionIsFast);
    }
    eb[0] := Term(Add(g, eb[0].base, addend), eb[0].exponent);
    assert eb[..] == Divided(g, s);
  }

  /** The sum of exponent times base for every non-empty list of terms. */
  method GeneralCascadeMultiplication<T(!new)>(g: Group<T>, eb: array<Term<T>>, inversionIsFast: bool, blank: T)
    returns (r: T)
    requires Abelian(g) && eb.Length >= 1 && TermsOk(g, eb[..])
    modifies eb
    ensures r == Combination(g, old(eb[..]))
  {
    hide Abelian, Mul, Combination;
    if eb.Length == 1 {
      assert eb[..] == [eb[0]];
      CombinationOne(g, eb[0]);
      r := ScalarMultiply(g, eb[0].base, eb[0].exponent, inversionIsFast);
    } else if eb.Length == 2 {
      TwoTerms(g, eb[..]);
      r := CascadeScalarMultiply(g, eb[0].base, eb[0].exponent, eb[1].base, eb[1].exponent, blank);
    } else {
      r := HeapCascade(g, eb, inversionIsFast);
    }
  }

  lemma TwoTerms<T(!new)>(g: Group<T>, s: seq<Term<T>>)
    requires Abelian(g) && TermsOk(g, s) && |s| == 2
    ensures Combination(g, s) == Combo(g, s[0].base, s[1].base, s[0].exponent, s[1].exponent)
  {
    assert s[1..] == [s[1]];
    CombinationOne(g, s[1]);
  }

  method HeapCascade<T(!new)>(g: Group<T>, eb: array<Term<T>>, inversionIsFast: bool)
    returns (r: T)
    requires Abelian(g) && eb.Length >= 3 && TermsOk(g, eb[..])
    modifies eb
    ensures r == Combination(g, old(eb[..]))
  {
    hide Abelian, Mul, Combination, IsHeap, TotalExponent, Divided;
    ghost var s0 := eb[..];
    MakeHeap(eb);
    PopHeap(eb);
    CombinationPermutes(g, s0, eb[..]);
    while eb[0].exponent != 0
      invariant TermsOk(g, eb[..]) && Combination(g, eb[..]) == Combination(g, s0)
      invariant IsHeap(eb[..], eb.Length - 1) && AllAtMost(eb[..], eb[eb.Length - 1].exponent)
      decreases TotalExponent(eb[..])
    {
      ghost var s := eb[..];
      DividedKeeps(g, s);
      DividedHeap(g, s, s[|s| - 1].exponent);
      DivideLargest(g, eb, inversionIsFast);
      ghost var d := eb[..];
      PushHeap(eb, eb.Length);
      PopHeap(eb);
      CombinationPermutes(g, d, eb[..]);
      TotalPermutes(d, eb[..]);
    }
    LastOnly(g, eb[..]);
    r := ScalarMultiply(g, eb[eb.Length - 1].base, eb[eb.Length - 1].exponent, inversionIsFast);
  }
}

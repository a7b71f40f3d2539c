/** Fixed-base tables: `DL_FixedBasePrecomputationImpl` keeps the base and its multiples by powers of
    2^windowSize, and writes an exponent in signed digits over that table. */
module FixedBasePrecomputation {
  import opened Bits
  import opened Groups
  import opened SimultaneousMultiplication
  import opened GeneralCascade

  /** `DL_GroupPrecomputation`: the group the table lives in and how elements enter and leave it. */
  datatype GroupPrecomputation<!T> = GroupPrecomputation(
    group: Group<T>, inversionIsFast: bool, needConversions: bool, convertIn: T -> T, convertOut: T -> T)
  {
    /** Elements that enter belong to the group; without conversions they stay as they are. */
    ghost predicate Accepts(x: T) {
      group.ok(if needConversions then convertIn(x) else x)
    }

    function In(x: T): T {
      if needConversions then convertIn(x) else x
    }
  }

  /** Each entry is 2^w times the one before. */
  ghost predicate Chain<T(!new)>(g: Group<T>, bases: seq<T>, w: nat)
    requires Abelian(g)
  {
    && AllOk(g, bases)
    && forall i :: 1 <= i < |bases| ==> bases[i] == Mul(g, Pow2(w), bases[i - 1])
  }

  /** Entry i of the table is 2^(i * w) times the base. */
  lemma {:induction false} ChainPowers<T(!new)>(g: Group<T>, bases: seq<T>, w: nat, i: nat)
    requires Abelian(g) && Chain(g, bases, w) && i < |bases|
    ensures i * w >= 0 && bases[i] == Mul(g, Pow2(i * w), bases[0])
    decreases i
  {
    hide Abelian, Mul, Shl, Pow2;
    if i == 0 {
      PowZero();
      MulOne(g, bases[0]);
    } else {
      ChainPowers(g, bases, w, i - 1);
      NextMultiple(i, w);
      Pow2Sum((i - 1) * w, w);
      MulMul(g, Pow2(w), Pow2((i - 1) * w), bases[0]);
    }
  }

  lemma NextMultiple(i: nat, w: nat)
    requires i >= 1
    ensures i * w == (i - 1) * w + w
  {}

  /** One digit of the exponent moves from `e` into the list; the sum with what is left of the exponent
      times the next table entry is unchanged. */
  lemma DigitStep<T(!new)>(g: Group<T>, b: T, e: nat, w: nat)
    requires Abelian(g) && g.ok(b)
    ensures Mul(g, e, b) == Add(g, Mul(g, Low(e, w), b), Mul(g, Shr(e, w), Mul(g, Pow2(w), b)))
    ensures Mul(g, e, b) == Add(g, Mul(g, Pow2(w) - Low(e, w), Neg(g, b)), Mul(g, Shr(e, w) + 1, Mul(g, Pow2(w), b)))
  {
    hide Abelian, Mul, Shl, Pow2, Shr, Low;
    var l: int, h: int, p: int := Low(e, w), Shr(e, w), Pow2(w);
    MulAdd(g, l, Shl(h, w), b);
    MulShl(g, h, w, b);
    MulNeg(g, p - l, b);
    MulAdd(g, l - p, Shl(h + 1, w), b);
    MulShl(g, h + 1, w, b);
    ShlAdd(h, 1, w);
    ShlOne(w);
  }

  lemma ShlOne(w: nat)
    ensures Shl(1, w) == Pow2(w)
  {}

  const UNSIGNED_LIMIT: nat := 0x1_0000_0000

  /** The exponents of the terms from i on and before j are at most b. */
  ghost predicate Small<T>(eb: seq<Term<T>>, i: nat, j: nat, b: nat)
    requires j <= |eb|
  {
    forall k :: i <= k < j ==> eb[k].exponent <= b
  }

  class FixedBase<T(!new, ==)> {
    var base: T
    var windowSize: nat
    var exponentBase: nat
    var bases: seq<T>

    ghost predicate Valid(pre: GroupPrecomputation<T>)
      requires Abelian(pre.group)
      reads this
    {
      && Chain(pre.group, bases, windowSize)
      && (|bases| > 1 ==> exponentBase == Pow2(windowSize))
      && (|bases| > 0 ==> bases[0] == pre.In(base))
    }

    constructor (pre: GroupPrecomputation<T>, blank: T)
      requires Abelian(pre.group)
      ensures Valid(pre) && bases == [] && windowSize == 0
    {
      base, windowSize, exponentBase, bases := blank, 0, 0, [];
    }

    /** A new base drops the table; the same base keeps it. */
    method SetBase(pre: GroupPrecomputation<T>, newBase: T)
      requires Abelian(pre.group) && Valid(pre) && pre.Accepts(newBase)
      modifies this
      ensures Valid(pre) && base == newBase && |bases| > 0 && bases[0] == pre.In(newBase)
      ensures windowSize == old(windowSize) && exponentBase == old(exponentBase)
      ensures bases == if old(bases) != [] && old(bases)[0] == pre.In(newBase) then old(bases) else [pre.In(newBase)]
    {
      base := if pre.needConversions then pre.convertIn(newBase) else newBase;
      if |bases| == 0 || base != bases[0] {
        bases := [base];
      }
      if pre.needConversions {
        base := newBase;
      }
    }

    /** Rebuilds the table with `storage` entries. The window size is computed in 32-bit arithmetic. */
    method Precompute(pre: GroupPrecomputation<T>, maxExpBits: nat, storage: nat)
      requires Abelian(pre.group) && Valid(pre) && |bases| > 0 && storage <= maxExpBits < UNSIGNED_LIMIT
      modifies this
      ensures Valid(pre) && base == old(base) && |bases| == storage
      ensures storage > 0 ==> bases[0] == old(bases)[0]
      ensures windowSize
        == if storage > 1 then (maxExpBits + storage - 1) % UNSIGNED_LIMIT / storage else old(windowSize)
    {
      hide Abelian, Mul, Shl;
      if storage > 1 {
        windowSize := (maxExpBits + storage - 1) % UNSIGNED_LIMIT / storage;
        exponentBase := Pow2(windowSize);
      }
      var table := if storage == 0 then [] else bases[..1];
      var i := 1;
      while i < storage
        invariant 1 <= i && (storage > 0 ==> i <= storage)
        invariant |table| == (if storage == 0 then 0 else i)
        invariant storage > 0 ==> table[0] == bases[0]
        invariant Chain(pre.group, table, windowSize)
        modifies {}
      {
        var next := ScalarMultiply(pre.group, table[i - 1], exponentBase, pre.inversionIsFast);
        table := table + [next];
        i := i + 1;
      }
      bases := table;
    }

    /** Digits are below 2^windowSize, and at most half of it where they can be negative. */
    function DigitBound(pre: GroupPrecomputation<T>): nat
      reads this
    {
      if pre.inversionIsFast && windowSize > 1 then Pow2(windowSize - 1) else Pow2(windowSize) - 1
    }

    /** Splits the lowest digit off an exponent of entry i; what is left is an exponent of the next entry. */
    method NextDigit(pre: GroupPrecomputation<T>, i: nat, e: nat) returns (t: Term<T>, left: nat)
      requires Abelian(pre.group) && Valid(pre) && i + 1 < |bases|
      ensures pre.group.ok(t.base) && pre.group.ok(bases[i]) && pre.group.ok(bases[i + 1])
      ensures Mul(pre.group, e, bases[i])
           == Add(pre.group, Mul(pre.group, t.exponent, t.base), Mul(pre.group, left, bases[i + 1]))
      ensures t.exponent <= DigitBound(pre)
    {
      hide Abelian, Mul, Add, Shl, Pow2, Bit, Shr, Low;
      var g := pre.group;
      var fastNegate := pre.inversionIsFast && windowSize > 1;
      var r := Low(e, windowSize);
      DigitStep(g, bases[i], e, windowSize);
      if windowSize > 1 { TopBitIff(r, windowSize); }
      assert bases[i + 1] == Mul(g, Pow2(windowSize), bases[i]);
      if fastNegate && Bit(r, windowSize - 1) {
        t, left := Term(Neg(g, bases[i]), exponentBase - r), Shr(e, windowSize) + 1;
      } else {
        t, left := Term(bases[i], r), Shr(e, windowSize);
      }
    }

    /** The exponent in signed digits over the table: the new terms sum to exponent times base. */
    method PrepareCascade(pre: GroupPrecomputation<T>, eb0: seq<Term<T>>, exponent: nat) returns (eb: seq<Term<T>>)
      requires Abelian(pre.group) && Valid(pre) && |bases| > 0 && TermsOk(pre.group, eb0)
      ensures |eb| == |eb0| + |bases| && TermsOk(pre.group, eb) && eb[..|eb0|] == eb0
      ensures Small(eb, |eb0|, |eb| - 1, DigitBound(pre))
      ensures Combination(pre.group, eb)
           == Add(pre.group, Combination(pre.group, eb0), Mul(pre.group, exponent, bases[0]))
    {
      hide Abelian, Mul, Add, Shl, Pow2, Combination, Bit, Shr, Low;
      var g, e := pre.group, exponent;
      ghost var total := Add(g, Combination(g, eb0), Mul(g, exponent, bases[0]));
      eb := eb0;
      var i := 0;
      while i + 1 < |bases|
        invariant 0 <= i < |bases| && |eb| == |eb0| + i && TermsOk(g, eb)
        invariant Add(g, Combination(g, eb), Mul(g, e, bases[i])) == total
        invariant eb[..|eb0|] == eb0 && Small(eb, |eb0|, |eb|, DigitBound(pre))
      {
        var t;
        t, e := NextDigit(pre, i, e);
        AppendTerm(g, eb, t, Mul(g, e, bases[i + 1]));
        eb := eb + [t];
        i := i + 1;
      }
      var t := Term(bases[i], e);
      Unit(g, Mul(g, e, bases[i]));
      AppendTerm(g, eb, t, g.zero);
      Unit(g, Combination(g, eb + [t]));
      eb := eb + [t];
    }

    /** exponent times the base, for every exponent, also those longer than the table was made for. */
    method Exponentiate(pre: GroupPrecomputation<T>, exponent: nat, blank: T) returns (r: T)
      requires Abelian(pre.group) && Valid(pre) && |bases| > 0
      ensures r == pre.convertOut(Mul(pre.group, exponent, pre.In(base)))
    {
      hide Abelian, Mul, Combination;
      var terms := PrepareCascade(pre, [], exponent);
      NoTerms(pre.group);
      Unit(pre.group, Mul(pre.group, exponent, bases[0]));
      var eb := ToArray(terms);
      var s := GeneralCascadeMultiplication(pre.group, eb, pre.inversionIsFast, blank);
      r := pre.convertOut(s);
    }

    /** exponent times this base plus exponent2 times the other base. */
    method CascadeExponentiate(pre: GroupPrecomputation<T>, exponent: nat, pc2: FixedBase<T>, exponent2: nat, blank: T)
      returns (r: T)
      requires Abelian(pre.group) && Valid(pre) && |bases| > 0 && pc2.Valid(pre) && |pc2.bases| > 0
      ensures r == pre.convertOut(Add(pre.group, Mul(pre.group, exponent, pre.In(base)),
                                      Mul(pre.group, exponent2, pre.In(pc2.base))))
    {
      hide Abelian, Mul, Combination;
      var terms := PrepareCascade(pre, [], exponent);
      NoTerms(pre.group);
      Unit(pre.group, Mul(pre.group, exponent, bases[0]));
      terms := pc2.PrepareCascade(pre, terms, exponent2);
      var eb := ToArray(terms);
      var s := GeneralCascadeMultiplication(pre.group, eb, pre.inversionIsFast, blank);
      r := pre.convertOut(s);
    }
  }

  lemma NoTerms<T(!new)>(g: Group<T>)
    requires Abelian(g)
    ensures Combination(g, []) == g.zero
  {}

  lemma AppendTerm<T(!new)>(g: Group<T>, eb: seq<Term<T>>, t: Term<T>, rest: T)
    requires Abelian(g) && TermsOk(g, eb) && g.ok(t.base) && g.ok(rest)
    ensures TermsOk(g, eb + [t])
    ensures Add(g, Combination(g, eb + [t]), rest)
         == Add(g, Combination(g, eb), Add(g, Mul(g, t.exponent, t.base), rest))
  {
    hide Abelian, Mul, Add, Combination;
    CombinationConcat(g, eb, [t]);
    CombinationOne(g, t);
    Assoc(g, Combination(g, eb), Mul(g, t.exponent, t.base), rest);
  }

  method ToArray<X>(s: seq<X>) returns (a: array<X>)
    ensures fresh(a) && a[..] == s
  {
    a := new X[|s|](i requires 0 <= i < |s| => s[i]);
  }

  // Conversions ----------------------------------------------------------------------------------------

  /** With conversions that undo each other and carry the table's group back to the caller's group,
      what `Exponentiate` returns is the exponent times the caller's base. */
  lemma ConvertedMultiple<T(!new)>(pre: GroupPrecomputation<T>, h: Group<T>, exponent: nat, base: T)
    requires Abelian(pre.group) && Abelian(h) && Homomorphism(pre.group, h, pre.convertOut)
    requires pre.Accepts(base) && pre.convertOut(pre.In(base)) == base
    ensures h.ok(base) && pre.convertOut(Mul(pre.group, exponent, pre.In(base))) == Mul(h, exponent, base)
  {
    HomMul(pre.group, h, pre.convertOut, exponent, pre.In(base));
  }
}

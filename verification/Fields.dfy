/** Fields as the curve code uses `ModularArithmetic`: addition, multiplication, halving, and an inverse that
    takes zero to zero. Like the group laws, each field law is used by naming its instance. */
module Fields {
  import opened Groups

  datatype Field<!F> = Field(zero: F, one: F, plus: (F, F) -> F, neg: F -> F, times: (F, F) -> F, inv: F -> F,
      half: F -> F)
  {
    function Sub(a: F, b: F): F {
      plus(a, neg(b))
    }

    function Sq(a: F): F {
      times(a, a)
    }

    function Dbl(a: F): F {
      plus(a, a)
    }

    function Additive(): Group<F> {
      Group(_ => true, zero, plus, neg)
    }
  }

  ghost predicate TimesAt<F>(f: Field<F>, a: F, b: F, c: F) {
    && f.times(a, b) == f.times(b, a)
    && f.times(f.times(a, b), c) == f.times(a, f.times(b, c))
    && f.times(f.plus(a, b), c) == f.plus(f.times(a, c), f.times(b, c))
  }

  ghost predicate OneAt<F>(f: Field<F>, a: F) {
    && f.times(a, f.one) == a
    && (a != f.zero ==> f.times(a, f.inv(a)) == f.one)
    && f.plus(f.half(a), f.half(a)) == a
  }

  /** A field in which 1 + 1 is not zero. */
  ghost predicate IsField<F(!new)>(f: Field<F>) {
    && Abelian(f.Additive())
    && f.one != f.zero && f.plus(f.one, f.one) != f.zero && f.inv(f.zero) == f.zero
    && (forall a, b, c :: TimesAt(f, a, b, c))
    && (forall a :: OneAt(f, a))
  }

  // Multiplication -------------------------------------------------------------------------------------

  lemma TimesComm<F(!new)>(f: Field<F>, a: F, b: F)
    requires IsField(f)
    ensures f.times(a, b) == f.times(b, a)
  {
    assert TimesAt(f, a, b, a);
  }

  lemma TimesAssoc<F(!new)>(f: Field<F>, a: F, b: F, c: F)
    requires IsField(f)
    ensures f.times(f.times(a, b), c) == f.times(a, f.times(b, c))
  {
    assert TimesAt(f, a, b, c);
  }

  lemma Distributes<F(!new)>(f: Field<F>, a: F, b: F, c: F)
    requires IsField(f)
    ensures f.times(f.plus(a, b), c) == f.plus(f.times(a, c), f.times(b, c))
  {
    assert TimesAt(f, a, b, c);
  }

  lemma TimesOne<F(!new)>(f: Field<F>, a: F)
    requires IsField(f)
    ensures f.times(a, f.one) == a && f.times(f.one, a) == a
  {
    assert OneAt(f, a);
    TimesComm(f, a, f.one);
  }

  /** (ab)(cd) == (ac)(bd) */
  lemma TimesExchange<F(!new)>(f: Field<F>, a: F, b: F, c: F, d: F)
    requires IsField(f)
    ensures f.times(f.times(a, b), f.times(c, d)) == f.times(f.times(a, c), f.times(b, d))
  {
    hide IsField;
    TimesAssoc(f, a, b, f.times(c, d));
    TimesAssoc(f, b, c, d);
    TimesComm(f, b, c);
    TimesAssoc(f, c, b, d);
    TimesAssoc(f, a, c, f.times(b, d));
  }

  /** a(bc) == b(ac) */
  lemma TimesLeftComm<F(!new)>(f: Field<F>, a: F, b: F, c: F)
    requires IsField(f)
    ensures f.times(a, f.times(b, c)) == f.times(b, f.times(a, c))
  {
    TimesAssoc(f, a, b, c);
    TimesComm(f, a, b);
    TimesAssoc(f, b, a, c);
  }

  // Addition and zero ----------------------------------------------------------------------------------

  lemma PlusUnit<F(!new)>(f: Field<F>, a: F)
    requires IsField(f)
    ensures f.plus(a, f.zero) == a && f.plus(f.zero, a) == a
    ensures f.plus(a, f.neg(a)) == f.zero && f.plus(f.neg(a), a) == f.zero
  {
    Unit(f.Additive(), a);
  }

  lemma PlusCancel<F(!new)>(f: Field<F>, a: F, b: F, c: F)
    requires IsField(f) && f.plus(a, c) == f.plus(b, c)
    ensures a == b
  {
    Cancel(f.Additive(), a, b, c);
  }

  lemma TimesZero<F(!new)>(f: Field<F>, a: F)
    requires IsField(f)
    ensures f.times(f.zero, a) == f.zero && f.times(a, f.zero) == f.zero
  {
    var z := f.times(f.zero, a);
    PlusUnit(f, f.zero);
    Distributes(f, f.zero, f.zero, a);
    PlusUnit(f, z);
    PlusCancel(f, z, f.zero, z);
    TimesComm(f, a, f.zero);
  }

  lemma TimesNeg<F(!new)>(f: Field<F>, a: F, c: F)
    requires IsField(f)
    ensures f.times(f.neg(a), c) == f.neg(f.times(a, c))
  {
    hide IsField;
    PlusUnit(f, a);
    Distributes(f, f.neg(a), a, c);
    TimesZero(f, c);
    PlusUnit(f, f.times(a, c));
    PlusCancel(f, f.times(f.neg(a), c), f.neg(f.times(a, c)), f.times(a, c));
  }

  lemma SubDistributes<F(!new)>(f: Field<F>, a: F, b: F, c: F)
    requires IsField(f)
    ensures f.times(f.Sub(a, b), c) == f.Sub(f.times(a, c), f.times(b, c))
  {
    Distributes(f, a, f.neg(b), c);
    TimesNeg(f, b, c);
  }

  lemma PlusComm<F(!new)>(f: Field<F>, a: F, b: F)
    requires IsField(f)
    ensures f.plus(a, b) == f.plus(b, a)
  {
    Comm(f.Additive(), a, b);
  }

  lemma PlusAssoc<F(!new)>(f: Field<F>, a: F, b: F, c: F)
    requires IsField(f)
    ensures f.plus(f.plus(a, b), c) == f.plus(a, f.plus(b, c))
  {
    Assoc(f.Additive(), a, b, c);
  }

  /** (a + b) + (c + d) == (a + c) + (b + d) */
  lemma PlusExchange<F(!new)>(f: Field<F>, a: F, b: F, c: F, d: F)
    requires IsField(f)
    ensures f.plus(f.plus(a, b), f.plus(c, d)) == f.plus(f.plus(a, c), f.plus(b, d))
  {
    Exchange(f.Additive(), a, b, c, d);
  }

  lemma NegPlus<F(!new)>(f: Field<F>, a: F, b: F)
    requires IsField(f)
    ensures f.neg(f.plus(a, b)) == f.plus(f.neg(a), f.neg(b))
    ensures f.neg(f.neg(a)) == a
  {
    hide IsField;
    var s := f.plus(a, b);
    PlusExchange(f, f.neg(a), f.neg(b), a, b);
    PlusUnit(f, a);
    PlusUnit(f, b);
    PlusUnit(f, s);
    PlusUnit(f, f.zero);
    PlusUnit(f, f.neg(a));
    PlusCancel(f, f.neg(s), f.plus(f.neg(a), f.neg(b)), s);
    PlusCancel(f, f.neg(f.neg(a)), a, f.neg(a));
  }

  // Differences ----------------------------------------------------------------------------------------

  /** (a + b) - (c + d) == (a - c) + (b - d) */
  lemma SubPlus<F(!new)>(f: Field<F>, a: F, b: F, c: F, d: F)
    requires IsField(f)
    ensures f.Sub(f.plus(a, b), f.plus(c, d)) == f.plus(f.Sub(a, c), f.Sub(b, d))
  {
    hide IsField;
    NegPlus(f, c, d);
    PlusExchange(f, a, b, f.neg(c), f.neg(d));
  }

  /** (a + c) - (b + c) == a - b */
  lemma SubSame<F(!new)>(f: Field<F>, a: F, b: F, c: F)
    requires IsField(f)
    ensures f.Sub(f.plus(a, c), f.plus(b, c)) == f.Sub(a, b)
  {
    hide IsField;
    SubPlus(f, a, c, b, c);
    PlusUnit(f, c);
    PlusUnit(f, f.Sub(a, b));
  }

  /** u - (a - b) == (u + b) - a */
  lemma SubOfSub<F(!new)>(f: Field<F>, u: F, a: F, b: F)
    requires IsField(f)
    ensures f.Sub(u, f.Sub(a, b)) == f.Sub(f.plus(u, b), a)
  {
    hide IsField;
    NegPlus(f, a, f.neg(b));
    NegPlus(f, b, b);
    PlusComm(f, f.neg(a), b);
    PlusAssoc(f, u, b, f.neg(a));
  }

  /** (a - b) + (b - c) == a - c */
  lemma SubChain<F(!new)>(f: Field<F>, a: F, b: F, c: F)
    requires IsField(f)
    ensures f.plus(f.Sub(a, b), f.Sub(b, c)) == f.Sub(a, c)
  {
    hide IsField;
    PlusComm(f, b, f.neg(c));
    PlusExchange(f, a, f.neg(b), f.neg(c), b);
    PlusUnit(f, b);
    PlusUnit(f, f.Sub(a, c));
  }

  lemma SubZero<F(!new)>(f: Field<F>, a: F, b: F)
    requires IsField(f)
    ensures f.Sub(a, b) == f.zero <==> a == b
    ensures f.neg(f.Sub(a, b)) == f.Sub(b, a)
  {
    hide IsField;
    PlusUnit(f, b);
    if f.Sub(a, b) == f.zero {
      PlusCancel(f, a, b, f.neg(b));
    }
    NegPlus(f, a, f.neg(b));
    NegPlus(f, b, b);
    PlusComm(f, f.neg(a), b);
  }

  /** (a - b) + b == a */
  lemma SubPlusBack<F(!new)>(f: Field<F>, a: F, b: F)
    requires IsField(f)
    ensures f.plus(f.Sub(a, b), b) == a
  {
    hide IsField;
    PlusAssoc(f, a, f.neg(b), b);
    PlusUnit(f, b);
    PlusUnit(f, a);
  }

  lemma TimesPlus<F(!new)>(f: Field<F>, a: F, b: F, c: F)
    requires IsField(f)
    ensures f.times(a, f.plus(b, c)) == f.plus(f.times(a, b), f.times(a, c))
  {
    hide IsField;
    Distributes(f, b, c, a);
    TimesComm(f, a, f.plus(b, c));
    TimesComm(f, a, b);
    TimesComm(f, a, c);
  }

  lemma TimesSub<F(!new)>(f: Field<F>, a: F, b: F, c: F)
    requires IsField(f)
    ensures f.times(a, f.Sub(b, c)) == f.Sub(f.times(a, b), f.times(a, c))
  {
    hide IsField;
    SubDistributes(f, b, c, a);
    TimesComm(f, a, f.Sub(b, c));
    TimesComm(f, a, b);
    TimesComm(f, a, c);
  }

  lemma NegSquare<F(!new)>(f: Field<F>, a: F)
    requires IsField(f)
    ensures f.Sq(f.neg(a)) == f.Sq(a)
  {
    hide IsField;
    TimesNeg(f, a, f.neg(a));
    TimesComm(f, a, f.neg(a));
    TimesNeg(f, a, a);
    NegPlus(f, f.Sq(a), a);
  }

  /** ab - cd == (a - c)b + c(b - d) */
  lemma SubProduct<F(!new)>(f: Field<F>, a: F, b: F, c: F, d: F)
    requires IsField(f)
    ensures f.Sub(f.times(a, b), f.times(c, d)) == f.plus(f.times(f.Sub(a, c), b), f.times(c, f.Sub(b, d)))
  {
    hide IsField;
    SubDistributes(f, a, c, b);
    TimesSub(f, c, b, d);
    SubChain(f, f.times(a, b), f.times(c, b), f.times(c, d));
  }

  lemma SubSquares<F(!new)>(f: Field<F>, a: F, b: F)
    requires IsField(f)
    ensures f.Sub(f.Sq(a), f.Sq(b)) == f.times(f.Sub(a, b), f.plus(a, b))
  {
    hide IsField;
    SubProduct(f, a, a, b, b);
    TimesComm(f, b, f.Sub(a, b));
    TimesPlus(f, f.Sub(a, b), a, b);
  }

  lemma InverseOf<F(!new)>(f: Field<F>, a: F)
    requires IsField(f) && a != f.zero
    ensures f.times(a, f.inv(a)) == f.one && f.times(f.inv(a), a) == f.one && f.inv(a) != f.zero
  {
    assert OneAt(f, a);
    TimesComm(f, a, f.inv(a));
    TimesZero(f, a);
  }

  /** The inverse is zero only at zero. */
  lemma InverseZero<F(!new)>(f: Field<F>, a: F)
    requires IsField(f)
    ensures f.inv(a) == f.zero <==> a == f.zero
  {
    if a != f.zero { InverseOf(f, a); }
  }

  /** There is only one inverse. */
  lemma InverseUnique<F(!new)>(f: Field<F>, a: F, b: F)
    requires IsField(f) && f.times(a, b) == f.one
    ensures a != f.zero && b == f.inv(a)
  {
    hide IsField;
    if a == f.zero {
      TimesZero(f, b);
      OneNotZero(f);
    } else {
      InverseOf(f, a);
      TimesAssoc(f, f.inv(a), a, b);
      TimesOne(f, b);
      TimesOne(f, f.inv(a));
    }
  }

  lemma OneNotZero<F(!new)>(f: Field<F>)
    requires IsField(f)
    ensures f.one != f.zero && f.plus(f.one, f.one) != f.zero && f.inv(f.zero) == f.zero
  {}

  /** A product is zero exactly when a factor is. */
  lemma ProductZero<F(!new)>(f: Field<F>, a: F, b: F)
    requires IsField(f)
    ensures f.times(a, b) == f.zero <==> a == f.zero || b == f.zero
  {
    hide IsField;
    TimesZero(f, a);
    TimesZero(f, b);
    if a != f.zero && f.times(a, b) == f.zero {
      InverseOf(f, a);
      TimesAssoc(f, f.inv(a), a, b);
      TimesOne(f, b);
      TimesZero(f, f.inv(a));
    }
  }

  lemma TimesCancel<F(!new)>(f: Field<F>, d: F, a: F, b: F)
    requires IsField(f) && d != f.zero && f.times(d, a) == f.times(d, b)
    ensures a == b
  {
    hide IsField;
    InverseOf(f, d);
    TimesAssoc(f, f.inv(d), d, a);
    TimesAssoc(f, f.inv(d), d, b);
    TimesOne(f, a);
    TimesOne(f, b);
  }

  /** Doubling loses nothing, so halves are unique. */
  lemma DoubleZero<F(!new)>(f: Field<F>, a: F)
    requires IsField(f)
    ensures f.Dbl(a) == f.zero <==> a == f.zero
    ensures f.Dbl(a) == f.times(f.plus(f.one, f.one), a)
  {
    hide IsField;
    Distributes(f, f.one, f.one, a);
    TimesOne(f, a);
    OneNotZero(f);
    ProductZero(f, f.plus(f.one, f.one), a);
  }

  lemma HalfUnique<F(!new)>(f: Field<F>, a: F, b: F)
    requires IsField(f) && f.Dbl(a) == b
    ensures f.half(b) == a
  {
    hide IsField;
    var h, two := f.half(b), f.plus(f.one, f.one);
    HalfOf(f, b);
    DoubleZero(f, a);
    DoubleZero(f, h);
    OneNotZero(f);
    InverseOf(f, two);
    TimesAssoc(f, f.inv(two), two, a);
    TimesAssoc(f, f.inv(two), two, h);
    TimesOne(f, a);
    TimesOne(f, h);
  }

  lemma HalfOf<F(!new)>(f: Field<F>, b: F)
    requires IsField(f)
    ensures f.Dbl(f.half(b)) == b
  {
    assert OneAt(f, b);
  }
}

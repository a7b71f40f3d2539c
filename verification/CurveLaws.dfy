/** The chord-and-tangent law: what the formulas of `ECP::Add` and `ECP::Double` compute, and the group laws
    that follow from the laws of the field. Associativity is the one law that is taken as a hypothesis. */
module CurveLaws {
  import opened Groups
  import opened Fields
  import opened Curves

  /** The right-hand side of the equation of the curve. */
  function Cubic<F(==)>(c: Curve<F>, u: F): F {
    var f := c.field;
    f.plus(f.plus(Cube(f, u), f.times(c.a, u)), c.b)
  }

  /** The test of a point is the Weierstrass equation y^2 = x^3 + ax + b. */
  lemma OnCurveIff<F(!new)>(c: Curve<F>, x: F, y: F)
    requires IsField(c.field)
    ensures c.OnCurve(Affine(x, y)) <==> c.field.Sq(y) == Cubic(c, x)
  {
    Distributes(c.field, c.field.Sq(x), c.a, x);
  }

  /** The difference of the cubic at two places is their distance times this. */
  function Quotient<F(==)>(c: Curve<F>, u: F, v: F): F {
    var f := c.field;
    f.plus(f.times(f.plus(u, v), u), f.plus(f.Sq(v), c.a))
  }

  lemma CubicDifference<F(!new)>(c: Curve<F>, u: F, v: F)
    requires IsField(c.field)
    ensures c.field.Sub(Cubic(c, u), Cubic(c, v)) == c.field.times(c.field.Sub(u, v), Quotient(c, u, v))
  {
    hide IsField;
    var f := c.field;
    var au, av, d := f.plus(f.Sq(u), c.a), f.plus(f.Sq(v), c.a), f.Sub(u, v);
    Distributes(f, f.Sq(u), c.a, u);
    Distributes(f, f.Sq(v), c.a, v);
    SubSame(f, f.times(au, u), f.times(av, v), c.b);
    SubSame(f, f.Sq(u), f.Sq(v), c.a);
    SubProduct(f, au, u, av, v);
    SubSquares(f, u, v);
    TimesAssoc(f, d, f.plus(u, v), u);
    TimesComm(f, av, d);
    TimesPlus(f, d, f.times(f.plus(u, v), u), av);
  }

  lemma QuotientDifference<F(!new)>(c: Curve<F>, u: F, w: F, v: F)
    requires IsField(c.field)
    ensures c.field.Sub(Quotient(c, u, v), Quotient(c, w, v))
         == c.field.times(c.field.Sub(u, w), c.field.plus(u, c.field.plus(w, v)))
  {
    hide IsField;
    var f := c.field;
    SubSame(f, f.times(f.plus(u, v), u), f.times(f.plus(w, v), w), f.plus(f.Sq(v), c.a));
    SubProduct(f, f.plus(u, v), u, f.plus(w, v), w);
    SubSame(f, u, w, v);
    TimesComm(f, f.plus(w, v), f.Sub(u, w));
    TimesPlus(f, f.Sub(u, w), u, f.plus(w, v));
  }

  // Lines ----------------------------------------------------------------------------------------------

  /** The height at u of the line of slope t through p. */
  function Line<F>(f: Field<F>, t: F, p: Point<F>, u: F): F
    requires p.Affine?
  {
    f.plus(f.times(t, f.Sub(u, p.x)), p.y)
  }

  lemma LineStarts<F(!new)>(f: Field<F>, t: F, p: Point<F>)
    requires IsField(f) && p.Affine?
    ensures Line(f, t, p, p.x) == p.y
  {
    PlusUnit(f, p.x);
    TimesZero(f, t);
    PlusUnit(f, p.y);
  }

  /** The line rises by its slope times the distance. */
  lemma LineRises<F(!new)>(f: Field<F>, t: F, p: Point<F>, u: F, w: F)
    requires IsField(f) && p.Affine?
    ensures f.Sub(Line(f, t, p, u), Line(f, t, p, w)) == f.times(t, f.Sub(u, w))
  {
    hide IsField;
    var du, dw := f.Sub(u, p.x), f.Sub(w, p.x);
    SubSame(f, f.times(t, du), f.times(t, dw), p.y);
    TimesSub(f, t, du, dw);
    SubSame(f, u, w, f.neg(p.x));
  }

  /** t is the slope of the chord through p and q, or of the tangent where they are one point. */
  ghost predicate Slope<F>(c: Curve<F>, t: F, p: Point<F>, q: Point<F>) {
    var f := c.field;
    && p.Affine? && q.Affine?
    && Line(f, t, p, q.x) == q.y
    && f.times(t, f.plus(q.y, p.y)) == Quotient(c, q.x, p.x)
  }

  /** A line through two points of the curve meets it in them and in one place more. */
  lemma LineMeets<F(!new)>(c: Curve<F>, t: F, p: Point<F>, q: Point<F>, u: F)
    requires IsField(c.field) && Slope(c, t, p, q) && c.OnCurve(p)
    ensures var f := c.field;
            f.Sub(Cubic(c, u), f.Sq(Line(f, t, p, u)))
            == f.times(f.Sub(u, p.x), f.times(f.Sub(u, q.x), f.Sub(u, c.Third(t, p, q.x).x)))
  {
    hide IsField, Quotient, Cubic, Line;
    var f := c.field;
    var y, d := Line(f, t, p, u), f.Sub(u, p.x);
    OnCurveIff(c, p.x, p.y);
    CubicDifference(c, u, p.x);
    LineStarts(f, t, p);
    LineRises(f, t, p, u, p.x);
    SubSquares(f, y, p.y);
    TimesComm(f, t, d);
    TimesAssoc(f, d, t, f.plus(y, p.y));
    SubSame(f, Cubic(c, u), f.Sq(y), f.neg(f.Sq(p.y)));
    TimesSub(f, d, Quotient(c, u, p.x), f.times(t, f.plus(y, p.y)));
    BracketFactors(c, t, p, q, u, y);
  }

  lemma BracketFactors<F(!new)>(c: Curve<F>, t: F, p: Point<F>, q: Point<F>, u: F, y: F)
    requires IsField(c.field) && Slope(c, t, p, q) && y == Line(c.field, t, p, u)
    ensures var f := c.field;
            f.Sub(Quotient(c, u, p.x), f.times(t, f.plus(y, p.y)))
            == f.times(f.Sub(u, q.x), f.Sub(u, c.Third(t, p, q.x).x))
  {
    hide IsField, Quotient, Line;
    var f := c.field;
    var e, s, k := f.Sub(u, q.x), f.plus(u, f.plus(q.x, p.x)), Quotient(c, q.x, p.x);
    QuotientDifference(c, u, q.x, p.x);
    LineRises(f, t, p, u, q.x);
    TimesSub(f, t, f.plus(y, p.y), f.plus(q.y, p.y));
    SubSame(f, y, q.y, p.y);
    TimesAssoc(f, t, t, e);
    TimesComm(f, f.Sq(t), e);
    SubSame(f, Quotient(c, u, p.x), f.times(t, f.plus(y, p.y)), f.neg(k));
    TimesSub(f, e, s, f.Sq(t));
    SubOfSub(f, u, f.Sub(f.Sq(t), p.x), q.x);
    SubOfSub(f, f.plus(u, q.x), f.Sq(t), p.x);
    PlusAssoc(f, u, q.x, p.x);
  }

  // The two slopes of the code -------------------------------------------------------------------------

  lemma DivideTimes<F(!new)>(f: Field<F>, num: F, den: F)
    requires IsField(f) && den != f.zero
    ensures f.times(f.times(num, f.inv(den)), den) == num
  {
    InverseOf(f, den);
    TimesAssoc(f, num, f.inv(den), den);
    TimesOne(f, num);
  }

  function ChordSlope<F>(f: Field<F>, p: Point<F>, q: Point<F>): F
    requires p.Affine? && q.Affine?
  {
    f.times(f.Sub(q.y, p.y), f.inv(f.Sub(q.x, p.x)))
  }

  lemma ChordHasSlope<F(!new)>(c: Curve<F>, p: Point<F>, q: Point<F>)
    requires IsField(c.field) && p.Affine? && q.Affine? && p.x != q.x && c.OnCurve(p) && c.OnCurve(q)
    ensures Slope(c, ChordSlope(c.field, p, q), p, q)
  {
    hide IsField, Quotient, Cubic;
    var f, t := c.field, ChordSlope(c.field, p, q);
    var d := f.Sub(q.x, p.x);
    SubZero(f, q.x, p.x);
    DivideTimes(f, f.Sub(q.y, p.y), d);
    SubPlusBack(f, q.y, p.y);
    OnCurveIff(c, p.x, p.y);
    OnCurveIff(c, q.x, q.y);
    CubicDifference(c, q.x, p.x);
    SubSquares(f, q.y, p.y);
    TimesComm(f, t, d);
    TimesAssoc(f, d, t, f.plus(q.y, p.y));
    TimesCancel(f, d, f.times(t, f.plus(q.y, p.y)), Quotient(c, q.x, p.x));
  }

  function TangentSlope<F(==)>(c: Curve<F>, p: Point<F>): F
    requires p.Affine?
  {
    c.field.times(c.TangentNumerator(p.x), c.field.inv(c.field.Dbl(p.y)))
  }

  lemma TangentHasSlope<F(!new)>(c: Curve<F>, p: Point<F>)
    requires IsField(c.field) && p.Affine? && p.y != c.field.zero
    ensures Slope(c, TangentSlope(c, p), p, p)
  {
    hide IsField;
    var f := c.field;
    DoubleZero(f, p.y);
    DivideTimes(f, c.TangentNumerator(p.x), f.Dbl(p.y));
    LineStarts(f, TangentSlope(c, p), p);
    Distributes(f, p.x, p.x, p.x);
    PlusAssoc(f, f.Dbl(f.Sq(p.x)), f.Sq(p.x), c.a);
  }

  // What the sum is ------------------------------------------------------------------------------------

  /** r is where the line of slope t through p and q meets the curve once more, mirrored: the line goes through
      both points, its intersections with the cubic are exactly p, q and r, and r lies under the last one. */
  ghost predicate ThirdPoint<F(!new)>(c: Curve<F>, t: F, p: Point<F>, q: Point<F>, r: Point<F>) {
    var f := c.field;
    && p.Affine? && q.Affine? && r.Affine?
    && Line(f, t, p, q.x) == q.y
    && r.y == f.neg(Line(f, t, p, r.x))
    && forall u :: Intersection(c, t, p, q, r, u)
  }

  ghost predicate Intersection<F>(c: Curve<F>, t: F, p: Point<F>, q: Point<F>, r: Point<F>, u: F)
    requires p.Affine? && q.Affine? && r.Affine?
  {
    var f := c.field;
    f.Sub(Cubic(c, u), f.Sq(Line(f, t, p, u)))
    == f.times(f.Sub(u, p.x), f.times(f.Sub(u, q.x), f.Sub(u, r.x)))
  }

  lemma SlopeMeets<F(!new)>(c: Curve<F>, t: F, p: Point<F>, q: Point<F>)
    requires IsField(c.field) && Slope(c, t, p, q) && c.OnCurve(p)
    ensures ThirdPoint(c, t, p, q, c.Third(t, p, q.x)) && c.OnCurve(c.Third(t, p, q.x))
  {
    hide IsField, Quotient, Cubic;
    var f, r := c.field, c.Third(t, p, q.x);
    forall u ensures Intersection(c, t, p, q, r, u) {
      LineMeets(c, t, p, q, u);
    }
    SubZero(f, r.x, p.x);
    TimesSwap(f, t, r.x, p.x);
    NegPlus(f, f.times(t, f.Sub(r.x, p.x)), p.y);
    var y := Line(f, t, p, r.x);
    assert r.y == f.neg(y);
    assert Intersection(c, t, p, q, r, r.x);
    PlusUnit(f, r.x);
    TimesZero(f, f.Sub(r.x, q.x));
    TimesZero(f, f.Sub(r.x, p.x));
    SubZero(f, Cubic(c, r.x), f.Sq(y));
    NegSquare(f, y);
    OnCurveIff(c, r.x, r.y);
  }

  /** t(a - b) == -(t(b - a)) */
  lemma TimesSwap<F(!new)>(f: Field<F>, t: F, a: F, b: F)
    requires IsField(f)
    ensures f.times(t, f.Sub(b, a)) == f.neg(f.times(t, f.Sub(a, b)))
  {
    hide IsField;
    SubZero(f, a, b);
    TimesComm(f, t, f.Sub(b, a));
    TimesComm(f, t, f.Sub(a, b));
    TimesNeg(f, f.Sub(a, b), t);
  }

  /** The sum of two points is the identity exactly for opposite points, and otherwise the mirrored third point of
      the chord or tangent through them. */
  lemma AddIsThirdPoint<F(!new)>(c: Curve<F>, p: Point<F>, q: Point<F>) returns (t: F)
    requires IsField(c.field) && c.OnCurve(p) && c.OnCurve(q)
    ensures p.Infinity? ==> c.Add(p, q) == q
    ensures q.Infinity? ==> c.Add(p, q) == p
    ensures c.Add(p, q).Infinity? <==> q == c.Inverse(p)
    ensures p.Affine? && q.Affine? && q != c.Inverse(p) ==> ThirdPoint(c, t, p, q, c.Add(p, q))
    ensures c.OnCurve(c.Add(p, q))
  {
    hide IsField, ThirdPoint, Slope;
    t := c.field.zero;
    if p.Affine? && q.Affine? {
      SameAbscissa(c, p, q);
      if p.x != q.x {
        t := ChordSlope(c.field, p, q);
        ChordHasSlope(c, p, q);
        SlopeMeets(c, t, p, q);
      } else if p.y == q.y && p.y != c.field.zero {
        t := TangentSlope(c, p);
        TangentHasSlope(c, p);
        SlopeMeets(c, t, p, p);
      }
    }
  }

  /** Points of the curve with the same x are equal or opposite. */
  lemma SameAbscissa<F(!new)>(c: Curve<F>, p: Point<F>, q: Point<F>)
    requires IsField(c.field) && p.Affine? && q.Affine? && c.OnCurve(p) && c.OnCurve(q)
    ensures p.x == q.x ==> q == p || q == c.Inverse(p)
    ensures p == c.Inverse(p) <==> p.y == c.field.zero
  {
    hide IsField;
    var f := c.field;
    if p.x == q.x {
      SubZero(f, f.Sq(p.y), f.Sq(q.y));
      SubSquares(f, p.y, q.y);
      ProductZero(f, f.Sub(p.y, q.y), f.plus(p.y, q.y));
      SubZero(f, p.y, q.y);
      OppositeIs(f, p.y, q.y);
    }
    OppositeIs(f, p.y, p.y);
    DoubleZero(f, p.y);
  }

  lemma OppositeIs<F(!new)>(f: Field<F>, a: F, b: F)
    requires IsField(f)
    ensures f.plus(a, b) == f.zero <==> b == f.neg(a)
  {
    hide IsField;
    PlusUnit(f, a);
    PlusComm(f, a, b);
    if f.plus(a, b) == f.zero {
      PlusCancel(f, b, f.neg(a), a);
    }
  }

  // The group laws -------------------------------------------------------------------------------------

  lemma AddCommutes<F(!new)>(c: Curve<F>, p: Point<F>, q: Point<F>)
    requires IsField(c.field) && c.OnCurve(p) && c.OnCurve(q)
    ensures c.Add(p, q) == c.Add(q, p)
  {
    hide IsField;
    if p.Affine? && q.Affine? && p.x != q.x {
      ChordCommutes(c, p, q);
    }
  }

  lemma ChordCommutes<F(!new)>(c: Curve<F>, p: Point<F>, q: Point<F>)
    requires IsField(c.field) && p.Affine? && q.Affine? && p.x != q.x
    ensures var f := c.field;
            ChordSlope(f, p, q) == ChordSlope(f, q, p)
            && c.Third(ChordSlope(f, p, q), p, q.x) == c.Third(ChordSlope(f, q, p), q, p.x)
  {
    hide IsField;
    var f := c.field;
    var t, d := ChordSlope(f, p, q), f.Sub(q.x, p.x);
    SubZero(f, q.x, p.x);
    SubZero(f, q.y, p.y);
    SubZero(f, p.x, q.x);
    DivideTimes(f, f.Sub(q.y, p.y), d);
    var t' := ChordSlope(f, q, p);
    DivideTimes(f, f.Sub(p.y, q.y), f.neg(d));
    TimesComm(f, t, d);
    TimesComm(f, t', f.neg(d));
    TimesNeg(f, d, t');
    NegPlus(f, f.times(d, t'), d);
    NegPlus(f, f.Sub(q.y, p.y), d);
    TimesCancel(f, d, t, t');
    var s := f.Sq(t);
    PlusAssoc(f, s, f.neg(p.x), f.neg(q.x));
    PlusAssoc(f, s, f.neg(q.x), f.neg(p.x));
    PlusComm(f, f.neg(p.x), f.neg(q.x));
    var x := c.Third(t, p, q.x).x;
    // t(q - x) - t(p - x) == t(q - p) == q.y - p.y
    TimesSub(f, t, f.Sub(q.x, x), f.Sub(p.x, x));
    SubSame(f, q.x, p.x, f.neg(x));
    Balance(f, f.times(t, f.Sub(q.x, x)), f.times(t, f.Sub(p.x, x)), q.y, p.y);
  }

  /** From a - b == c - d follows a - c == b - d. */
  lemma Balance<F(!new)>(f: Field<F>, a: F, b: F, c: F, d: F)
    requires IsField(f) && f.Sub(a, b) == f.Sub(c, d)
    ensures f.Sub(a, c) == f.Sub(b, d)
  {
    hide IsField;
    SubPlusBack(f, a, b);
    SubPlusBack(f, c, d);
    PlusComm(f, f.Sub(c, d), b);
    PlusComm(f, f.Sub(c, d), d);
    SubSame(f, b, d, f.Sub(c, d));
  }

  ghost predicate Associative<F(!new)>(c: Curve<F>) {
    forall p, q, r :: AssocAt(c.Points(), p, q, r)
  }

  /** The points of a curve over a field are an abelian group exactly when their addition is associative. */
  lemma AbelianIff<F(!new)>(c: Curve<F>)
    requires IsField(c.field)
    ensures Abelian(c.Points()) <==> Associative(c)
  {
    hide IsField;
    var g := c.Points();
    forall p, q ensures ClosedAt(g, p, q) && CommAt(g, p, q) {
      if c.OnCurve(p) && c.OnCurve(q) {
        var _ := AddIsThirdPoint(c, p, q);
        AddCommutes(c, p, q);
      }
    }
    forall p ensures UnitAt(g, p) {
      if c.OnCurve(p) { Opposite(c, p); }
    }
  }

  lemma Opposite<F(!new)>(c: Curve<F>, p: Point<F>)
    requires IsField(c.field) && c.OnCurve(p)
    ensures c.OnCurve(c.Inverse(p)) && c.Add(p, c.Inverse(p)) == Infinity && c.Add(p, Infinity) == p
  {
    hide IsField;
    if p.Affine? {
      NegSquare(c.field, p.y);
      var _ := AddIsThirdPoint(c, p, c.Inverse(p));
    }
  }

  /** A curve over a field whose addition of points is associative. */
  ghost predicate Lawful<F(!new)>(c: Curve<F>): (r: bool)
    ensures r <==> IsField(c.field) && Abelian(c.Points())
  {
    IsField(c.field) && (AbelianIff(c); Associative(c))
  }
}

/** Elliptic curves in short Weierstrass form: the affine point operations of `ECP` and the projective
    doubling that follows them without divisions. */
module Curves {
  import Bits
  import opened Groups
  import opened Fields

  datatype Point<F> = Infinity | Affine(x: F, y: F)

  datatype Curve<!F(==)> = Curve(field: Field<F>, a: F, b: F) {

    predicate OnCurve(p: Point<F>) {
      p.Affine? ==> field.Sq(p.y) == field.plus(field.times(field.plus(field.Sq(p.x), a), p.x), b)
    }

    function Inverse(p: Point<F>): Point<F> {
      if p.Infinity? then p else Affine(p.x, field.neg(p.y))
    }

    /** The slope of the tangent: (3x^2 + a) / 2y */
    function TangentNumerator(x: F): F {
      field.plus(field.plus(field.Dbl(field.Sq(x)), field.Sq(x)), a)
    }

    /** The third point on a line of slope t through p and a point with coordinate x2, mirrored. */
    function Third(t: F, p: Point<F>, x2: F): Point<F>
      requires p.Affine?
    {
      var x := field.Sub(field.Sub(field.Sq(t), p.x), x2);
      Affine(x, field.Sub(field.times(t, field.Sub(p.x, x)), p.y))
    }

    function Double(p: Point<F>): Point<F> {
      if p.Infinity? || p.y == field.zero then Infinity
      else Third(field.times(TangentNumerator(p.x), field.inv(field.Dbl(p.y))), p, p.x)
    }

    function Add(p: Point<F>, q: Point<F>): Point<F> {
      if p.Infinity? then q
      else if q.Infinity? then p
      else if p.x == q.x then (if p.y == q.y then Double(p) else Infinity)
      else Third(field.times(field.Sub(q.y, p.y), field.inv(field.Sub(q.x, p.x))), p, q.x)
    }

    /** The points of the curve with these operations. */
    function Points(): Group<Point<F>> {
      Group(p => OnCurve(p), Infinity, (p, q) => Add(p, q), p => Inverse(p))
    }

    /** n doublings of p */
    ghost function Doubled(p: Point<F>, n: nat): Point<F> {
      if n == 0 then p else Double(Doubled(p, n - 1))
    }
  }

  /** Adding a point to itself is doubling it, so n doublings multiply by 2^n. */
  lemma {:induction false} DoubledIsMultiple<F(!new)>(c: Curve<F>, p: Point<F>, n: nat)
    requires Abelian(c.Points()) && c.OnCurve(p)
    ensures c.OnCurve(c.Doubled(p, n)) && c.Doubled(p, n) == Mul(c.Points(), Bits.Pow2(n), p)
  {
    var g := c.Points();
    if n == 0 {
      MulOne(g, p);
    } else {
      DoubledIsMultiple(c, p, n - 1);
      var h := Bits.Pow2(n - 1);
      MulAdd(g, h, h, p);
      var d := c.Doubled(p, n - 1);
      assert Groups.Add(g, d, d) == c.Add(d, d) == c.Double(d);
    }
  }

  // Projective points ----------------------------------------------------------------------------------

  datatype ProjectivePoint<F> = ProjectivePoint(x: F, y: F, z: F)

  function Cube<F>(f: Field<F>, a: F): F {
    f.times(f.Sq(a), a)
  }

  function Fourth<F>(f: Field<F>, a: F): F {
    f.Sq(f.Sq(a))
  }

  /** (X, Y, Z) stands for (X/Z^2, Y/Z^3), and Z == 0 for the identity. */
  ghost predicate StandsFor<F>(f: Field<F>, q: ProjectivePoint<F>, p: Point<F>) {
    if p.Infinity? then q.z == f.zero
    else q.z != f.zero && q.x == f.times(p.x, f.Sq(q.z)) && q.y == f.times(p.y, Cube(f, q.z))
  }

  /** The projective coordinates of the double, as the doubling steps compute them. */
  datatype DoublingStep<F> = DoublingStep(d: F, s: F, m: F, q: ProjectivePoint<F>)

  function StepOf<F>(f: Field<F>, q: ProjectivePoint<F>, aZ4: F): DoublingStep<F> {
    var d := f.Dbl(q.y);
    var s := f.times(f.Sq(d), q.x);
    var m := f.plus(f.plus(f.Dbl(f.Sq(q.x)), f.Sq(q.x)), aZ4);
    var x := f.Sub(f.Sub(f.Sq(m), s), s);
    DoublingStep(d, s, m, ProjectivePoint(x, f.Sub(f.times(m, f.Sub(s, x)), f.half(Fourth(f, d))), f.times(q.z, d)))
  }

  /** With t the affine slope: t * Z' == M. */
  lemma SlopeScales<F(!new)>(f: Field<F>, a: F, p: Point<F>, q: ProjectivePoint<F>, t: F, num: F)
    requires IsField(f) && p.Affine? && StandsFor(f, q, p)
    requires num == f.plus(f.plus(f.Dbl(f.Sq(p.x)), f.Sq(p.x)), a) && f.times(t, f.Dbl(p.y)) == num
    ensures f.times(t, f.times(q.z, f.Dbl(q.y)))
      == f.plus(f.plus(f.Dbl(f.Sq(q.x)), f.Sq(q.x)), f.times(a, Fourth(f, q.z)))
  {
    hide IsField;
    var z2, z3, z4 := f.Sq(q.z), Cube(f, q.z), Fourth(f, q.z);
    var s := f.Dbl(p.y);
    Distributes(f, p.y, p.y, z3);
    assert f.Dbl(q.y) == f.times(s, z3);
    TimesLeftComm(f, q.z, s, z3);
    TimesAssoc(f, t, s, f.times(q.z, z3));
    TimesLeftComm(f, q.z, z2, q.z);
    assert f.times(t, f.times(q.z, f.Dbl(q.y))) == f.times(num, z4);
    var x2 := f.Sq(p.x);
    TimesExchange(f, p.x, z2, p.x, z2);
    assert f.Sq(q.x) == f.times(x2, z4);
    Distributes(f, f.plus(f.Dbl(x2), x2), a, z4);
    Distributes(f, f.Dbl(x2), x2, z4);
    Distributes(f, x2, x2, z4);
  }

  /** x * Z'^2 == S and y * Z'^3 == 8 Y^4. */
  lemma CoordinatesScale<F(!new)>(f: Field<F>, p: Point<F>, q: ProjectivePoint<F>)
    requires IsField(f) && p.Affine? && StandsFor(f, q, p)
    ensures f.times(p.x, f.Sq(f.times(q.z, f.Dbl(q.y)))) == f.times(f.Sq(f.Dbl(q.y)), q.x)
    ensures f.times(p.y, Cube(f, f.times(q.z, f.Dbl(q.y)))) == f.half(Fourth(f, f.Dbl(q.y)))
  {
    hide IsField;
    var z, d := q.z, f.Dbl(q.y);
    var z2, d2 := f.Sq(z), f.Sq(d);
    TimesExchange(f, z, d, z, d);
    TimesAssoc(f, p.x, z2, d2);
    TimesComm(f, d2, q.x);
    TimesExchange(f, z2, d2, z, d);
    var d3 := Cube(f, d);
    TimesAssoc(f, p.y, Cube(f, z), d3);
    assert f.times(p.y, Cube(f, f.times(z, d))) == f.times(q.y, d3);
    Distributes(f, q.y, q.y, d3);
    TimesLeftComm(f, d, d2, d);
    HalfUnique(f, f.times(q.y, d3), Fourth(f, d));
  }

  /** The third point of a line scales to the projective formulas. */
  lemma ThirdScales<F(!new)>(c: Curve<F>, p: Point<F>, t: F, z: F, m: F, s: F, w: F)
    requires IsField(c.field) && p.Affine?
    requires c.field.times(t, z) == m && c.field.times(p.x, c.field.Sq(z)) == s
      && c.field.times(p.y, Cube(c.field, z)) == w
    ensures var f := c.field; var r := c.Third(t, p, p.x);
            var x := f.Sub(f.Sub(f.Sq(m), s), s);
            && f.times(r.x, f.Sq(z)) == x
            && f.times(r.y, Cube(f, z)) == f.Sub(f.times(m, f.Sub(s, x)), w)
  {
    hide IsField;
    var f := c.field;
    var r, z2 := c.Third(t, p, p.x), f.Sq(z);
    TimesExchange(f, t, z, t, z);
    SubDistributes(f, f.Sub(f.Sq(t), p.x), p.x, z2);
    SubDistributes(f, f.Sq(t), p.x, z2);
    var u := f.Sub(p.x, r.x);
    SubDistributes(f, p.x, r.x, z2);
    TimesComm(f, z2, z);
    TimesExchange(f, t, u, z, z2);
    SubDistributes(f, f.times(t, u), p.y, Cube(f, z));
  }

  /** One projective doubling stands for one affine doubling. */
  lemma StepDoubles<F(!new)>(c: Curve<F>, p: Point<F>, q: ProjectivePoint<F>)
    requires IsField(c.field) && StandsFor(c.field, q, p)
    ensures StandsFor(c.field, StepOf(c.field, q, c.field.times(c.a, Fourth(c.field, q.z))).q, c.Double(p))
  {
    hide IsField;
    var f := c.field;
    var st := StepOf(f, q, f.times(c.a, Fourth(f, q.z)));
    ProductZero(f, q.z, st.d);
    DoubleZero(f, q.y);
    if p.Affine? {
      ProductZero(f, f.Sq(q.z), q.z);
      ProductZero(f, q.z, q.z);
      ProductZero(f, p.y, Cube(f, q.z));
      if p.y != f.zero {
        var num, den := c.TangentNumerator(p.x), f.Dbl(p.y);
        DoubleZero(f, p.y);
        InverseOf(f, den);
        var t := f.times(num, f.inv(den));
        TimesAssoc(f, num, f.inv(den), den);
        TimesOne(f, num);
        SlopeScales(f, c.a, p, q, t, num);
        CoordinatesScale(f, p, q);
        ThirdScales(c, p, t, st.q.z, st.m, st.s, f.half(Fourth(f, st.d)));
      }
    }
  }

  /** `ProjectiveDoubling`: doubles in place, carrying a * Z^4 along from step to step. */
  class ProjectiveDoubling<F(!new, ==)> {
    const curve: Curve<F>
    var P: ProjectivePoint<F>
    var sixteenY4: F
    var aZ4: F
    var twoY: F
    var fourY2: F
    var S: F
    var M: F

    ghost const start: Point<F>
    ghost var steps: nat

    /** The current point stands for `steps` doublings of the start, and a * Z^4 can be made in one product. */
    ghost predicate Valid()
      reads this
    {
      && IsField(curve.field)
      && curve.field.times(aZ4, sixteenY4) == curve.field.times(curve.a, Fourth(curve.field, P.z))
      && StandsFor(curve.field, P, curve.Doubled(start, steps))
    }

    constructor (c: Curve<F>, Q: Point<F>)
      requires IsField(c.field)
      ensures Valid() && curve == c && start == Q && steps == 0
    {
      var f := c.field;
      curve, start, steps := c, Q, 0;
      if Q.Infinity? {
        P := ProjectivePoint(f.one, f.one, f.zero);
        sixteenY4 := f.one;
        aZ4 := f.zero;
      } else {
        P := ProjectivePoint(Q.x, Q.y, f.one);
        sixteenY4 := f.one;
        aZ4 := c.a;
      }
      twoY, fourY2, S, M := f.zero, f.zero, f.zero, f.zero;
      new;
      StartsRight(c, Q);
    }

    method Double()
      requires Valid()
      modifies this
      ensures Valid() && steps == old(steps) + 1
    {
      hide IsField;
      var f := curve.field;
      StepDoubles(curve, curve.Doubled(start, steps), P);
      CarriesA(curve, P.z, f.Dbl(P.y));
      ghost var st := StepOf(f, P, f.times(curve.a, Fourth(f, P.z)));
      twoY := f.Dbl(P.y);
      P := P.(z := f.times(P.z, twoY));
      fourY2 := f.Sq(twoY);
      S := f.times(fourY2, P.x);
      aZ4 := f.times(aZ4, sixteenY4);
      M := f.Sq(P.x);
      M := f.plus(f.plus(f.Dbl(M), M), aZ4);
      P := P.(x := f.Sq(M));
      P := P.(x := f.Sub(P.x, S));
      P := P.(x := f.Sub(P.x, S));
      S := f.Sub(S, P.x);
      P := P.(y := f.times(M, S));
      sixteenY4 := f.Sq(fourY2);
      P := P.(y := f.Sub(P.y, f.half(sixteenY4)));
      assert P == st.q;
      steps := steps + 1;
    }
  }

  lemma StartsRight<F(!new)>(c: Curve<F>, Q: Point<F>)
    requires IsField(c.field)
    ensures var f := c.field;
            && f.times(f.zero, f.one) == f.times(c.a, Fourth(f, f.zero))
            && f.times(c.a, f.one) == f.times(c.a, Fourth(f, f.one))
            && (Q.Affine? ==> StandsFor(f, ProjectivePoint(Q.x, Q.y, f.one), Q))
  {
    hide IsField;
    var f := c.field;
    TimesZero(f, f.one);
    TimesZero(f, f.zero);
    TimesZero(f, c.a);
    TimesOne(f, f.one);
    OneNotZero(f);
    if Q.Affine? {
      TimesOne(f, Q.x);
      TimesOne(f, Q.y);
    }
  }

  /** (a * Z^4) * (2Y)^4 == a * (Z * 2Y)^4 */
  lemma CarriesA<F(!new)>(c: Curve<F>, z: F, d: F)
    requires IsField(c.field)
    ensures c.field.times(c.field.times(c.a, Fourth(c.field, z)), Fourth(c.field, d))
         == c.field.times(c.a, Fourth(c.field, c.field.times(z, d)))
  {
    hide IsField;
    var f := c.field;
    TimesAssoc(f, c.a, Fourth(f, z), Fourth(f, d));
    TimesExchange(f, f.Sq(z), f.Sq(z), f.Sq(d), f.Sq(d));
    TimesExchange(f, z, d, z, d);
  }

  // Back to affine coordinates -------------------------------------------------------------------------

  /** The affine point of a projective one whose z has been replaced by its inverse u. */
  function ToAffine<F(==)>(f: Field<F>, q: ProjectivePoint<F>, u: F): Point<F> {
    if u == f.zero then Infinity
    else Affine(f.times(q.x, f.Sq(u)), f.times(f.times(q.y, u), f.Sq(u)))
  }

  lemma AffineAgain<F(!new)>(f: Field<F>, q: ProjectivePoint<F>, p: Point<F>)
    requires IsField(f) && StandsFor(f, q, p)
    ensures ToAffine(f, q, f.inv(q.z)) == p
  {
    hide IsField;
    var z, u := q.z, f.inv(q.z);
    InverseZero(f, z);
    if p.Affine? {
      InverseOf(f, z);
      TimesExchange(f, z, z, u, u);
      TimesOne(f, f.one);
      assert f.times(f.Sq(z), f.Sq(u)) == f.one;
      TimesAssoc(f, p.x, f.Sq(z), f.Sq(u));
      TimesOne(f, p.x);
      TimesAssoc(f, q.y, u, f.Sq(u));
      TimesComm(f, u, f.Sq(u));
      TimesExchange(f, f.Sq(z), z, f.Sq(u), u);
      TimesAssoc(f, p.y, Cube(f, z), Cube(f, u));
      TimesOne(f, p.y);
    }
  }
}

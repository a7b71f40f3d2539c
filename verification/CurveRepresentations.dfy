/** A curve in another representation of its field (`MontgomeryRepresentation`): converting the points carries
    the whole group structure over. */
module CurveRepresentations {
  import opened Groups
  import opened Fields
  import opened Curves
  import opened CurveLaws

  function MapPoint<F, G>(f: F -> G, p: Point<F>): Point<G> {
    if p.Infinity? then Infinity else Affine(f(p.x), f(p.y))
  }

  function PointMap<F, G>(f: F -> G): Point<F> -> Point<G> {
    p => MapPoint(f, p)
  }

  ghost predicate IsoAt<F>(f: Field<F>, h: Field<F>, to: F -> F, from: F -> F, a: F, b: F) {
    && from(to(a)) == a && to(from(a)) == a
    && to(f.plus(a, b)) == h.plus(to(a), to(b))
    && to(f.times(a, b)) == h.times(to(a), to(b))
  }

  /** `to` re-represents the field f as h, and `from` undoes it. */
  ghost predicate Isomorphic<F(!new)>(f: Field<F>, h: Field<F>, to: F -> F, from: F -> F) {
    forall a, b :: IsoAt(f, h, to, from, a, b)
  }

  lemma IsoBasics<F(!new)>(f: Field<F>, h: Field<F>, to: F -> F, from: F -> F, a: F, b: F)
    requires IsField(f) && IsField(h) && Isomorphic(f, h, to, from)
    ensures from(to(a)) == a && to(from(a)) == a
    ensures to(f.zero) == h.zero && (to(a) == to(b) <==> a == b)
    ensures to(f.neg(a)) == h.neg(to(a)) && to(f.Sub(a, b)) == h.Sub(to(a), to(b))
    ensures to(f.plus(a, b)) == h.plus(to(a), to(b)) && to(f.times(a, b)) == h.times(to(a), to(b))
  {
    hide IsField;
    assert IsoAt(f, h, to, from, a, b);
    assert IsoAt(f, h, to, from, b, a);
    assert IsoAt(f, h, to, from, f.zero, f.zero);
    PlusUnit(f, f.zero);
    PlusUnit(h, to(f.zero));
    PlusCancel(h, to(f.zero), h.zero, to(f.zero));
    IsoNeg(f, h, to, from, a);
    IsoNeg(f, h, to, from, b);
    assert IsoAt(f, h, to, from, a, f.neg(b));
  }

  lemma IsoNeg<F(!new)>(f: Field<F>, h: Field<F>, to: F -> F, from: F -> F, a: F)
    requires IsField(f) && IsField(h) && Isomorphic(f, h, to, from) && to(f.zero) == h.zero
    ensures to(f.neg(a)) == h.neg(to(a))
  {
    hide IsField;
    assert IsoAt(f, h, to, from, f.neg(a), a);
    PlusUnit(f, a);
    PlusUnit(h, to(a));
    PlusCancel(h, to(f.neg(a)), h.neg(to(a)), to(a));
  }

  lemma IsoInv<F(!new)>(f: Field<F>, h: Field<F>, to: F -> F, from: F -> F, a: F)
    requires IsField(f) && IsField(h) && Isomorphic(f, h, to, from)
    ensures to(f.inv(a)) == h.inv(to(a))
  {
    hide IsField;
    IsoBasics(f, h, to, from, a, f.zero);
    OneNotZero(f);
    OneNotZero(h);
    if a != f.zero {
      // to(1) is a unit element of h, hence its one
      var u := to(f.one);
      InverseOf(f, a);
      IsoBasics(f, h, to, from, a, f.inv(a));
      IsoBasics(f, h, to, from, f.one, f.zero);
      IsoBasics(f, h, to, from, f.one, f.one);
      TimesOne(f, f.one);
      InverseOf(h, u);
      TimesAssoc(h, u, u, h.inv(u));
      TimesOne(h, u);
      InverseUnique(h, to(a), to(f.inv(a)));
    }
  }

  function Mapped<F>(c: Curve<F>, h: Field<F>, to: F -> F): Curve<F> {
    Curve(h, to(c.a), to(c.b))
  }

  lemma ThirdMaps<F(!new)>(c: Curve<F>, h: Field<F>, to: F -> F, from: F -> F, t: F, p: Point<F>, x2: F)
    requires IsField(c.field) && IsField(h) && Isomorphic(c.field, h, to, from) && p.Affine?
    ensures MapPoint(to, c.Third(t, p, x2)) == Mapped(c, h, to).Third(to(t), MapPoint(to, p), to(x2))
  {
    hide IsField, Isomorphic;
    var f := c.field;
    var x := f.Sub(f.Sub(f.Sq(t), p.x), x2);
    IsoBasics(f, h, to, from, t, t);
    IsoBasics(f, h, to, from, f.Sq(t), p.x);
    IsoBasics(f, h, to, from, f.Sub(f.Sq(t), p.x), x2);
    IsoBasics(f, h, to, from, p.x, x);
    IsoBasics(f, h, to, from, t, f.Sub(p.x, x));
    IsoBasics(f, h, to, from, f.times(t, f.Sub(p.x, x)), p.y);
  }

  lemma DoubleMaps<F(!new)>(c: Curve<F>, h: Field<F>, to: F -> F, from: F -> F, p: Point<F>)
    requires IsField(c.field) && IsField(h) && Isomorphic(c.field, h, to, from)
    ensures MapPoint(to, c.Double(p)) == Mapped(c, h, to).Double(MapPoint(to, p))
  {
    hide IsField, Isomorphic;
    var f := c.field;
    if p.Affine? {
      IsoBasics(f, h, to, from, p.y, f.zero);
      if p.y != f.zero {
        var q, num, den := f.Sq(p.x), c.TangentNumerator(p.x), f.Dbl(p.y);
        IsoBasics(f, h, to, from, p.x, p.x);
        IsoBasics(f, h, to, from, q, q);
        IsoBasics(f, h, to, from, f.Dbl(q), q);
        IsoBasics(f, h, to, from, f.plus(f.Dbl(q), q), c.a);
        IsoBasics(f, h, to, from, p.y, p.y);
        IsoInv(f, h, to, from, den);
        IsoBasics(f, h, to, from, num, f.inv(den));
        ThirdMaps(c, h, to, from, f.times(num, f.inv(den)), p, p.x);
      }
    }
  }

  lemma AddMaps<F(!new)>(c: Curve<F>, h: Field<F>, to: F -> F, from: F -> F, p: Point<F>, q: Point<F>)
    requires IsField(c.field) && IsField(h) && Isomorphic(c.field, h, to, from)
    ensures MapPoint(to, c.Add(p, q)) == Mapped(c, h, to).Add(MapPoint(to, p), MapPoint(to, q))
  {
    hide IsField, Isomorphic;
    var f := c.field;
    if p.Affine? && q.Affine? {
      IsoBasics(f, h, to, from, p.x, q.x);
      IsoBasics(f, h, to, from, p.y, q.y);
      DoubleMaps(c, h, to, from, p);
      if p.x != q.x {
        var num, den := f.Sub(q.y, p.y), f.Sub(q.x, p.x);
        IsoBasics(f, h, to, from, q.y, p.y);
        IsoBasics(f, h, to, from, q.x, p.x);
        IsoInv(f, h, to, from, den);
        IsoBasics(f, h, to, from, num, f.inv(den));
        ThirdMaps(c, h, to, from, f.times(num, f.inv(den)), p, q.x);
      }
    }
  }

  lemma OnCurveMaps<F(!new)>(c: Curve<F>, h: Field<F>, to: F -> F, from: F -> F, p: Point<F>)
    requires IsField(c.field) && IsField(h) && Isomorphic(c.field, h, to, from)
    ensures Mapped(c, h, to).OnCurve(MapPoint(to, p)) <==> c.OnCurve(p)
    ensures MapPoint(from, MapPoint(to, p)) == p && MapPoint(to, MapPoint(from, p)) == p
  {
    hide IsField, Isomorphic;
    var f := c.field;
    if p.Affine? {
      var q := f.Sq(p.x);
      IsoBasics(f, h, to, from, p.x, p.x);
      IsoBasics(f, h, to, from, p.y, p.y);
      IsoBasics(f, h, to, from, q, c.a);
      IsoBasics(f, h, to, from, f.plus(q, c.a), p.x);
      IsoBasics(f, h, to, from, f.times(f.plus(q, c.a), p.x), c.b);
      IsoBasics(f, h, to, from, f.Sq(p.y), f.plus(f.times(f.plus(q, c.a), p.x), c.b));
    }
  }

  /** The conversion carries the curve group, with its laws, to the converted curve. */
  lemma GroupMaps<F(!new)>(c: Curve<F>, h: Field<F>, to: F -> F, from: F -> F)
    requires Lawful(c) && IsField(h) && Isomorphic(c.field, h, to, from)
    ensures Lawful(Mapped(c, h, to))
    ensures Homomorphism(c.Points(), Mapped(c, h, to).Points(), PointMap(to))
  {
    hide IsField, Isomorphic;
    var c' := Mapped(c, h, to);
    var g, g' := c.Points(), c'.Points();
    forall p, q, r ensures AssocAt(g', p, q, r) {
      AssocMaps(c, h, to, from, p, q, r);
    }
    AbelianIff(c');
    var f := PointMap(to);
    forall p, q ensures HomAt(g, g', f, p, q) {
      OnCurveMaps(c, h, to, from, p);
      OnCurveMaps(c, h, to, from, q);
      AddMaps(c, h, to, from, p, q);
    }
  }

  /** The original of a converted point. */
  lemma Pull<F(!new)>(c: Curve<F>, h: Field<F>, to: F -> F, from: F -> F, p: Point<F>) returns (p0: Point<F>)
    requires IsField(c.field) && IsField(h) && Isomorphic(c.field, h, to, from)
    ensures MapPoint(to, p0) == p && (c.OnCurve(p0) <==> Mapped(c, h, to).OnCurve(p))
  {
    p0 := MapPoint(from, p);
    OnCurveMaps(c, h, to, from, p);
    OnCurveMaps(c, h, to, from, p0);
  }

  lemma AssocMaps<F(!new)>(c: Curve<F>, h: Field<F>, to: F -> F, from: F -> F, p: Point<F>, q: Point<F>, r: Point<F>)
    requires Lawful(c) && IsField(h) && Isomorphic(c.field, h, to, from)
    ensures AssocAt(Mapped(c, h, to).Points(), p, q, r)
  {
    hide IsField, Isomorphic;
    var p0 := Pull(c, h, to, from, p);
    var q0 := Pull(c, h, to, from, q);
    var r0 := Pull(c, h, to, from, r);
    assert AssocAt(c.Points(), p0, q0, r0);
    AddMaps(c, h, to, from, p0, q0);
    AddMaps(c, h, to, from, q0, r0);
    AddMaps(c, h, to, from, c.Add(p0, q0), r0);
    AddMaps(c, h, to, from, p0, c.Add(q0, r0));
  }
}

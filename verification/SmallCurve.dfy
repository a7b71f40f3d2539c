/** The hypotheses on fields and curves can be met: the field of three elements and the curve y^2 = x^3 + x over it,
    whose four points add like the integers modulo 4. */
module SmallCurve {
  import opened Groups
  import opened Fields
  import opened Curves
  import opened CurveLaws

  datatype Three = Zero | One | Two

  function Plus(a: Three, b: Three): Three {
    match (a, b)
    case (Zero, x) => x
    case (x, Zero) => x
    case (One, One) => Two
    case (Two, Two) => One
    case (_, _) => Zero
  }

  function Minus(a: Three): Three {
    match a
    case Zero => Zero
    case One => Two
    case Two => One
  }

  function Times(a: Three, b: Three): Three {
    match (a, b)
    case (Zero, _) => Zero
    case (One, x) => x
    case (Two, x) => Minus(x)
  }

  /** Every element is its own inverse, and half of it is its negative. */
  const FIELD: Field<Three> := Field(Zero, One, (a, b) => Plus(a, b), a => Minus(a), (a, b) => Times(a, b), a => a,
    a => Minus(a))

  const CURVE: Curve<Three> := Curve(FIELD, One, Zero)

  lemma ThreeIsField()
    ensures IsField(FIELD)
  {
    var g := FIELD.Additive();
    assert forall a, b :: ClosedAt(g, a, b) && CommAt(g, a, b);
    assert forall a, b, c :: AssocAt(g, a, b, c);
    assert forall a :: UnitAt(g, a);
  }

  /** Where a point of the curve stands among the multiples of (2, 1). */
  function Index(p: Point<Three>): nat {
    match p
    case Infinity => 0
    case Affine(x, y) => if y == One then 1 else if y == Zero then 2 else 3
  }

  lemma PointsAre(p: Point<Three>)
    ensures CURVE.OnCurve(p) <==>
            p == Infinity || p == Affine(Zero, Zero) || p == Affine(Two, One) || p == Affine(Two, Two)
  {}

  lemma IndexAdds(p: Point<Three>, q: Point<Three>)
    requires CURVE.OnCurve(p) && CURVE.OnCurve(q)
    ensures CURVE.OnCurve(CURVE.Add(p, q)) && Index(CURVE.Add(p, q)) == (Index(p) + Index(q)) % 4
  {
    PointsAre(p);
    PointsAre(q);
  }

  lemma IndexUnique(p: Point<Three>, q: Point<Three>)
    requires CURVE.OnCurve(p) && CURVE.OnCurve(q) && Index(p) == Index(q)
    ensures p == q
  {
    PointsAre(p);
    PointsAre(q);
  }

  lemma SmallAssociates(p: Point<Three>, q: Point<Three>, r: Point<Three>)
    requires CURVE.OnCurve(p) && CURVE.OnCurve(q) && CURVE.OnCurve(r)
    ensures CURVE.Add(CURVE.Add(p, q), r) == CURVE.Add(p, CURVE.Add(q, r))
  {
    hide Index, Curve.Add, Curve.OnCurve;
    IndexAdds(p, q);
    IndexAdds(q, r);
    IndexAdds(CURVE.Add(p, q), r);
    IndexAdds(p, CURVE.Add(q, r));
    ModFour(Index(p), Index(q), Index(r));
    IndexUnique(CURVE.Add(CURVE.Add(p, q), r), CURVE.Add(p, CURVE.Add(q, r)));
  }

  lemma ModFour(a: nat, b: nat, c: nat)
    ensures ((a + b) % 4 + c) % 4 == (a + (b + c) % 4) % 4
  {}

  lemma SmallIsLawful()
    ensures Lawful(CURVE)
  {
    hide IsField, Curve.Add, Curve.OnCurve, Abelian;
    ThreeIsField();
    AbelianIff(CURVE);
    forall p, q, r ensures AssocAt(CURVE.Points(), p, q, r) {
      if CURVE.OnCurve(p) && CURVE.OnCurve(q) && CURVE.OnCurve(r) {
        SmallAssociates(p, q, r);
      }
    }
  }
}

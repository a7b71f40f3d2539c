/** Scalar multiplication on a curve: `ECP::SimultaneousMultiply` collects signed 5-bit windows over projective
    doublings of the point, brings the doublings back to affine form with one batch inversion, and sums the
    windows in a cascade. */
module EcpMultiplication {
  import opened Bits
  import opened Groups
  import opened Fields
  import opened Curves
  import opened CurveLaws
  import opened CurveRepresentations
  import opened WindowSliders
  import opened SimultaneousMultiplication
  import opened CascadeScalarMultiplication
  import opened Heaps
  import opened GeneralCascade
  import opened ParallelInversion
  import opened FixedBasePrecomputation

  const WINDOW: nat := 5
  const MAX_WINDOW: nat := 31

  /** One window of one exponent: which doubling it applies to, its sign and its size
      (`baseIndices`, `negateBase`, `exponentWindows`). */
  datatype Record = Record(baseIndex: nat, negate: bool, window: nat) {
    function Digit(): int {
      if negate then -(window as int) else window
    }
  }

  ghost predicate RecordsOk(recs: seq<Record>, n: nat) {
    forall j :: 0 <= j < |recs| ==> recs[j].baseIndex < n && 1 <= recs[j].window <= MAX_WINDOW
  }

  /** The exponent the records spell, when entry k of the doublings stands for 2^pos[k] times the point. */
  ghost function Value(recs: seq<Record>, pos: seq<nat>): int
    requires RecordsOk(recs, |pos|)
  {
    if recs == [] then 0
    else
      var last := recs[|recs| - 1];
      Value(recs[..|recs| - 1], pos) + Shl(last.Digit(), pos[last.baseIndex])
  }

  lemma {:induction false} ValueExtends(recs: seq<Record>, pos: seq<nat>, p: nat)
    requires RecordsOk(recs, |pos|)
    ensures RecordsOk(recs, |pos + [p]|) && Value(recs, pos + [p]) == Value(recs, pos)
  {
    if recs == [] {
    } else {
      ValueExtends(recs[..|recs| - 1], pos, p);
    }
  }

  lemma ValueAppends(recs: seq<Record>, pos: seq<nat>, r: Record)
    requires RecordsOk(recs, |pos|) && r.baseIndex < |pos| && 1 <= r.window <= MAX_WINDOW
    ensures RecordsOk(recs + [r], |pos|)
    ensures Value(recs + [r], pos) == Value(recs, pos) + Shl(r.Digit(), pos[r.baseIndex])
  {
    assert (recs + [r])[..|recs|] == recs;
  }

  ghost predicate BasesOk<F(!new)>(c: Curve<F>, P: Point<F>, bases: seq<ProjectivePoint<F>>, pos: seq<nat>) {
    |bases| == |pos| && forall k :: 0 <= k < |bases| ==> StandsFor(c.field, bases[k], c.Doubled(P, pos[k]))
  }

  /** One exponent's slider with the windows recorded so far; only a non-zero exponent has any. */
  ghost predicate Lane(e: nat, s: WindowSlider, recs: seq<Record>, pos: seq<nat>)
    reads s
  {
    && s.Valid() && !s.firstTime && s.original == e && s.windowSize == WINDOW
    && RecordsOk(recs, |pos|) && Value(recs, pos) == s.taken
    && (recs != [] ==> e > 0)
  }

  ghost predicate Lanes(exps: seq<nat>, sliders: seq<WindowSlider>, records: seq<seq<Record>>, pos: seq<nat>)
    reads sliders
  {
    && |sliders| == |exps| == |records|
    && (forall i :: 0 <= i < |exps| ==> Lane(exps[i], sliders[i], records[i], pos))
    && (forall i, j :: 0 <= i < j < |sliders| ==> sliders[i] != sliders[j])
  }

  lemma LanesAreSliders(exps: seq<nat>, sliders: seq<WindowSlider>, records: seq<seq<Record>>, pos: seq<nat>)
    requires Lanes(exps, sliders, records, pos)
    ensures Sliders(exps, sliders)
  {
    hide Accounted;
    forall i | 0 <= i < |sliders|
      ensures sliders[i].Valid() && !sliders[i].firstTime
        && sliders[i].original == exps[i]
    {
      assert Lane(exps[i], sliders[i], records[i], pos);
    }
  }

  lemma LanesExtend(exps: seq<nat>, sliders: seq<WindowSlider>, records: seq<seq<Record>>, pos: seq<nat>, p: nat)
    requires Lanes(exps, sliders, records, pos)
    ensures Lanes(exps, sliders, records, pos + [p])
  {
    hide Accounted, Value;
    forall i | 0 <= i < |exps| ensures Lane(exps[i], sliders[i], records[i], pos + [p]) {
      assert Lane(exps[i], sliders[i], records[i], pos);
      ValueExtends(records[i], pos, p);
    }
  }

  method OpenLane(e: nat) returns (s: WindowSlider)
    ensures fresh(s) && Lane(e, s, [], [])
  {
    s := new WindowSlider(e, true, WINDOW);
    s.FindNextWindow();
  }

  /** Records the current window against the latest doubling. */
  method RecordWindow(ghost e: nat, s: WindowSlider, recs: seq<Record>, nBases: nat, ghost pos: seq<nat>)
    returns (recs': seq<Record>)
    requires Lane(e, s, recs, pos) && !s.finished
    requires |pos| == nBases >= 1 && pos[nBases - 1] == s.windowBegin
    modifies s
    ensures Lane(e, s, recs', pos)
    ensures !s.finished ==> s.windowBegin > old(s.windowBegin)
  {
    hide Shl, Pow2, Accounted, Value;
    WindowFits(s);
    var r := Record(nBases - 1, s.negateNext, s.expWindow);
    recs' := recs + [r];
    ValueAppends(recs, pos, r);
    s.FindNextWindow();
  }

  lemma WindowFits(s: WindowSlider)
    requires s.Valid() && !s.firstTime && !s.finished && s.windowSize == WINDOW
    ensures 1 <= s.expWindow <= MAX_WINDOW && s.original > 0
  {
    assert Pow2(5) == 32;
  }

  /** The lane of exponent i takes its window; no other lane changes. */
  method StepLane(exps: seq<nat>, i: nat, sliders: seq<WindowSlider>, records: seq<seq<Record>>, nBases: nat,
        ghost pos: seq<nat>,
                  ghost at: nat)
    returns (records': seq<seq<Record>>)
    requires Lanes(exps, sliders, records, pos) && i < |exps| && !sliders[i].finished && sliders[i].windowBegin == at
    requires |pos| == nBases >= 1 && pos[nBases - 1] == at && Reached(sliders, i, at)
    modifies sliders[i]
    ensures Lanes(exps, sliders, records', pos) && Reached(sliders, i + 1, at)
  {
    hide Lane;
    var recs := RecordWindow(exps[i], sliders[i], records[i], nBases, pos);
    records' := records[i := recs];
  }

  lemma PassedBy(sliders: seq<WindowSlider>, i: nat, at: nat)
    requires Reached(sliders, i, at) && i < |sliders| && (sliders[i].finished || sliders[i].windowBegin != at)
    ensures Reached(sliders, i + 1, at)
  {}

  lemma LaneCount(exps: seq<nat>, sliders: seq<WindowSlider>, records: seq<seq<Record>>, pos: seq<nat>)
    requires Lanes(exps, sliders, records, pos)
    ensures |sliders| == |exps| == |records|
    ensures forall i, j :: 0 <= i < j < |sliders| ==> sliders[i] != sliders[j]
  {}

  /** One bit position of the collecting loop. */
  method CollectRound<F(!new, ==)>(c: Curve<F>, P: Point<F>, exps: seq<nat>, cur: ProjectivePoint<F>, at: nat,
                                   sliders: seq<WindowSlider>, bases0: seq<ProjectivePoint<F>>, ghost pos0: seq<nat>,
                                   records0: seq<seq<Record>>)
    returns (notDone: bool, bases: seq<ProjectivePoint<F>>, ghost pos: seq<nat>, records: seq<seq<Record>>)
    requires StandsFor(c.field, cur, c.Doubled(P, at)) && BasesOk(c, P, bases0, pos0)
    requires Lanes(exps, sliders, records0, pos0) && Reached(sliders, 0, at)
    modifies sliders
    ensures BasesOk(c, P, bases, pos) && Lanes(exps, sliders, records, pos)
    ensures Reached(sliders, |sliders|, at)
    ensures notDone <==> !AllFinished(sliders)
    ensures bases == bases0 || bases == bases0 + [cur]
  {
    hide Lanes, Reached, BasesOk, StandsFor;
    bases, pos, records, notDone := bases0, pos0, records0, false;
    var baseAdded := false;
    LaneCount(exps, sliders, records, pos);
    for i := 0 to |exps|
      invariant BasesOk(c, P, bases, pos) && Lanes(exps, sliders, records, pos)
      invariant bases == if baseAdded then bases0 + [cur] else bases0
      invariant baseAdded ==> |pos| >= 1 && pos[|pos| - 1] == at
      invariant Reached(sliders, i, at)
      invariant notDone <==> exists j :: 0 <= j < i && !sliders[j].finished
    {
      if !sliders[i].finished && at == sliders[i].windowBegin {
        BasesExtend(c, P, bases, pos, cur, at);
        if !baseAdded {
          LanesExtend(exps, sliders, records, pos, at);
          bases, pos := bases + [cur], pos + [at];
          baseAdded := true;
        }
        records := StepLane(exps, i, sliders, records, |bases|, pos, at);
      } else {
        PassedBy(sliders, i, at);
      }
      notDone := notDone || !sliders[i].finished;
    }
  }

  lemma BasesExtend<F(!new)>(c: Curve<F>, P: Point<F>, bases: seq<ProjectivePoint<F>>, pos: seq<nat>,
        cur: ProjectivePoint<F>, at: nat)
    requires BasesOk(c, P, bases, pos) && StandsFor(c.field, cur, c.Doubled(P, at))
    ensures |bases| == |pos| && BasesOk(c, P, bases + [cur], pos + [at])
  {
    hide StandsFor;
  }

  /** The collecting loop: doublings of P where a window begins, and windows that spell every exponent. */
  method Collect<F(!new, ==)>(c: Curve<F>, P: Point<F>, exps: seq<nat>)
    returns (bases: seq<ProjectivePoint<F>>, ghost pos: seq<nat>, records: seq<seq<Record>>)
    requires IsField(c.field)
    ensures BasesOk(c, P, bases, pos) && |records| == |exps|
    ensures forall i :: 0 <= i < |exps| ==>
              && RecordsOk(records[i], |pos|) && Value(records[i], pos) == exps[i]
              && (records[i] == [] <==> exps[i] == 0)
  {
    hide IsField, Lane, StandsFor, Shl, Total, Sliders, Reached, AllFinished;
    var sliders: seq<WindowSlider> := [];
    records := [];
    for i := 0 to |exps|
      invariant fresh(sliders)
      invariant Lanes(exps[..i], sliders, records, [])
    {
      var s := OpenLane(exps[i]);
      assert forall j :: 0 <= j < i ==> Lane(exps[..i][j], sliders[j], records[j], []);
      sliders, records := sliders + [s], records + [[]];
    }
    assert exps[..|exps|] == exps;
    bases, pos, records := RunLanes(c, P, exps, sliders, records);
  }

  method RunLanes<F(!new, ==)>(c: Curve<F>, P: Point<F>, exps: seq<nat>, sliders: seq<WindowSlider>,
        records0: seq<seq<Record>>)
    returns (bases: seq<ProjectivePoint<F>>, ghost pos: seq<nat>, records: seq<seq<Record>>)
    requires IsField(c.field) && Lanes(exps, sliders, records0, [])
    modifies sliders
    ensures BasesOk(c, P, bases, pos) && |records| == |exps|
    ensures forall i :: 0 <= i < |exps| ==>
              && RecordsOk(records[i], |pos|) && Value(records[i], pos) == exps[i]
              && (records[i] == [] <==> exps[i] == 0)
  {
    hide IsField, StandsFor, Shl, Total, Lanes, Sliders, Reached, AllFinished;
    var rd := new ProjectiveDoubling(c, P);
    bases, pos, records := [], [], records0;
    var expBitPosition, notDone := 0, true;
    ghost var bound := 2 * Total(exps);
    Untouched(sliders);
    while notDone
      invariant rd.Valid() && rd.curve == c && rd.start == P && rd.steps == expBitPosition
      invariant BasesOk(c, P, bases, pos) && Lanes(exps, sliders, records, pos)
      invariant notDone ==> Reached(sliders, 0, expBitPosition)
      invariant expBitPosition <= bound
      invariant !notDone ==> AllFinished(sliders)
      decreases bound - expBitPosition, notDone
    {
      notDone, bases, pos, records := CollectRound(c, P, exps, rd.P, expBitPosition, sliders, bases, pos, records);
      if notDone {
        LanesAreSliders(exps, sliders, records, pos);
        MoveOn(exps, sliders, expBitPosition);
        rd.Double();
        expBitPosition := expBitPosition + 1;
      }
    }
    Spelled(exps, sliders, records, pos);
  }

  lemma Spelled(exps: seq<nat>, sliders: seq<WindowSlider>, records: seq<seq<Record>>, pos: seq<nat>)
    requires Lanes(exps, sliders, records, pos) && AllFinished(sliders)
    ensures |records| == |exps|
    ensures forall i :: 0 <= i < |exps| ==>
              && RecordsOk(records[i], |pos|) && Value(records[i], pos) == exps[i]
              && (records[i] == [] <==> exps[i] == 0)
  {
    hide Accounted, Shl;
    forall i | 0 <= i < |exps| ensures
        && RecordsOk(records[i], |pos|) && Value(records[i], pos) == exps[i]
        && (records[i] == [] <==> exps[i] == 0)
    {
      assert Lane(exps[i], sliders[i], records[i], pos);
    }
  }

  // From windows to results ----------------------------------------------------------------------------

  /** All collected doublings in affine form, with one batch inversion. */
  method AffineBases<F(!new, ==)>(c: Curve<F>, P: Point<F>, bases: seq<ProjectivePoint<F>>, ghost pos: seq<nat>)
    returns (points: seq<Point<F>>)
    requires IsField(c.field) && BasesOk(c, P, bases, pos)
    ensures |points| == |pos| && forall k :: 0 <= k < |pos| ==> points[k] == c.Doubled(P, pos[k])
  {
    hide IsField, StandsFor, ToAffine;
    var f := c.field;
    var zs := new F[|bases|](k requires 0 <= k < |bases| => bases[k].z);
    ParallelInvert(f, zs);
    points := [];
    for k := 0 to |bases|
      invariant |points| == k
      invariant forall j :: 0 <= j < k ==> points[j] == c.Doubled(P, pos[j])
      invariant forall j :: 0 <= j < |bases| ==> zs[j] == f.inv(bases[j].z)
    {
      AffineAgain(f, bases[k], c.Doubled(P, pos[k]));
      points := points + [ToAffine(f, bases[k], zs[k])];
    }
  }

  /** The cascade of one exponent: each recorded window with its point, mirrored where the window is negative. */
  function Cascade<F>(c: Curve<F>, recs: seq<Record>, points: seq<Point<F>>): (terms: seq<Term<Point<F>>>)
    requires RecordsOk(recs, |points|)
    ensures |terms| == |recs| && AllAtMost(terms, MAX_WINDOW)
  {
    seq(|recs|, j requires 0 <= j < |recs| =>
      var p := points[recs[j].baseIndex];
      Term(if recs[j].negate then c.Inverse(p) else p, recs[j].window))
  }

  /** The cascade sums to the spelled exponent times the point. */
  lemma {:induction false} CascadeSum<F(!new)>(c: Curve<F>, P: Point<F>, recs: seq<Record>, points: seq<Point<F>>,
        pos: seq<nat>)
    requires Abelian(c.Points()) && c.OnCurve(P) && RecordsOk(recs, |pos|)
    requires |points| == |pos| && forall k :: 0 <= k < |pos| ==> points[k] == c.Doubled(P, pos[k])
    ensures TermsOk(c.Points(), Cascade(c, recs, points))
    ensures Combination(c.Points(), Cascade(c, recs, points)) == Mul(c.Points(), Value(recs, pos), P)
  {
    hide Abelian, Mul, Shl, Combination, Pow2;
    var g, n := c.Points(), |recs|;
    if n == 0 {
      NoCascade(g, P);
    } else {
      var init, last := recs[..n - 1], recs[n - 1];
      CascadeSum(c, P, init, points, pos);
      var k := pos[last.baseIndex];
      DoubledIsMultiple(c, P, k);
      var d := c.Doubled(P, k);
      var t := Term(if last.negate then c.Inverse(d) else d, last.window);
      assert c.Inverse(d) == Neg(g, d);
      assert Cascade(c, recs, points) == Cascade(c, init, points) + [t];
      CombinationConcat(g, Cascade(c, init, points), [t]);
      CombinationOne(g, t);
      MulNeg(g, last.window, d);
      MulShl(g, last.Digit(), k, P);
      MulAdd(g, Value(init, pos), Shl(last.Digit(), k), P);
    }
  }

  lemma NoCascade<T(!new)>(g: Group<T>, x: T)
    requires Abelian(g) && g.ok(x)
    ensures Combination(g, []) == Mul(g, 0, x)
  {}

  // The virtual calls ----------------------------------------------------------------------------------

  /** How the curve's field is represented: already in Montgomery form, or to be converted for the work. */
  datatype Representation<!F> = InPlace | Convert(field: Field<F>, to: F -> F, from: F -> F)

  ghost predicate Sound<F(!new)>(c: Curve<F>, rep: Representation<F>) {
    rep.Convert? ==> IsField(rep.field) && Isomorphic(c.field, rep.field, rep.to, rep.from)
  }

  /** Scalars of at most 31 take the short path; the recursion goes from the others down to these. */
  ghost function Rank(k: nat): nat {
    if k <= MAX_WINDOW then 0 else 1
  }

  lemma ShortScalar(k: nat)
    ensures BitCount(k) <= 5 <==> k <= MAX_WINDOW
  {
    assert Pow2(5) == 32;
    BitCountBound(k);
    if BitCount(k) > 5 {
      Pow2Monotone(5, BitCount(k) - 1);
    } else {
      Pow2Monotone(BitCount(k), 5);
    }
  }

  /** `ECP::ScalarMultiply`: short scalars go to the generic algorithm, long ones through the cascade. */
  method ScalarMultiply<F(!new, ==)>(c: Curve<F>, rep: Representation<F>, P: Point<F>, k: nat) returns (r: Point<F>)
    requires Lawful(c) && c.OnCurve(P) && Sound(c, rep)
    ensures r == Mul(c.Points(), k, P)
    decreases Rank(k), 0
  {
    hide Lawful, IsField, Isomorphic, Abelian, Mul, BitCount;
    ShortScalar(k);
    if BitCount(k) <= 5 {
      r := SimultaneousMultiplication.ScalarMultiply(c.Points(), P, k, true);
    } else {
      var results := SimultaneousMultiply(c, rep, P, [k]);
      r := results[0];
    }
  }

  /** `ECP::CascadeScalarMultiply`: the generic cascade, in converted form where necessary. */
  method CascadeScalarMultiply<F(!new, ==)>(c: Curve<F>, rep: Representation<F>, P: Point<F>, k1: nat, Q: Point<F>,
        k2: nat)
    returns (r: Point<F>)
    requires Lawful(c) && c.OnCurve(P) && c.OnCurve(Q) && Sound(c, rep)
    ensures r == Combo(c.Points(), P, Q, k1, k2)
    decreases rep.Convert?
  {
    hide Lawful, IsField, Isomorphic, Abelian, Combo;
    if rep.Convert? {
      var c' := Mapped(c, rep.field, rep.to);
      GroupMaps(c, rep.field, rep.to, rep.from);
      OnCurveMaps(c, rep.field, rep.to, rep.from, P);
      OnCurveMaps(c, rep.field, rep.to, rep.from, Q);
      var s := CascadeScalarMultiply(c', InPlace, MapPoint(rep.to, P), k1, MapPoint(rep.to, Q), k2);
      ComboMaps(c, rep, P, k1, Q, k2);
      r := MapPoint(rep.from, s);
    } else {
      r := CascadeScalarMultiplication.CascadeScalarMultiply(c.Points(), P, k1, Q, k2, Infinity);
    }
  }

  lemma ComboMaps<F(!new)>(c: Curve<F>, rep: Representation<F>, P: Point<F>, k1: nat, Q: Point<F>, k2: nat)
    requires Lawful(c) && c.OnCurve(P) && c.OnCurve(Q) && Sound(c, rep) && rep.Convert?
    ensures var c' := Mapped(c, rep.field, rep.to);
            && Lawful(c') && c'.OnCurve(MapPoint(rep.to, P)) && c'.OnCurve(MapPoint(rep.to, Q))
            && MapPoint(rep.from, Combo(c'.Points(), MapPoint(rep.to, P), MapPoint(rep.to, Q), k1, k2))
               == Combo(c.Points(), P, Q, k1, k2)
  {
    hide Lawful, IsField, Isomorphic, Abelian, Mul;
    var c' := Mapped(c, rep.field, rep.to);
    var g, g' := c.Points(), c'.Points();
    GroupMaps(c, rep.field, rep.to, rep.from);
    OnCurveMaps(c, rep.field, rep.to, rep.from, P);
    OnCurveMaps(c, rep.field, rep.to, rep.from, Q);
    HomMul(g, g', PointMap(rep.to), k1, P);
    HomMul(g, g', PointMap(rep.to), k2, Q);
    assert HomAt(g, g', PointMap(rep.to), Mul(g, k1, P), Mul(g, k2, Q));
    OnCurveMaps(c, rep.field, rep.to, rep.from, Combo(g, P, Q, k1, k2));
  }

  // The cascade on the curve, which multiplies by its scalars through the curve's own `ScalarMultiply` -----------

  /** The division step in place. */
  method DivideLargest<F(!new, ==)>(c: Curve<F>, rep: Representation<F>, eb: array<Term<Point<F>>>, ghost limit: nat)
    requires Lawful(c) && Sound(c, rep)
    requires eb.Length >= 2 && TermsOk(c.Points(), eb[..]) && eb[0].exponent > 0 && AllAtMost(eb[..], limit)
    modifies eb
    ensures eb[..] == old(Divided(c.Points(), eb[..]))
    decreases Rank(limit), 1
  {
    hide Lawful, IsField, Isomorphic, Abelian, Mul;
    var last := eb.Length - 1;
    var t := eb[last].exponent;
    DivMod(t, eb[0].exponent);
    var q := t / eb[0].exponent;
    ghost var s := eb[..];
    eb[last] := Term(eb[last].base, t % eb[0].exponent);
    var addend := eb[last].base;
    if q == 1 {
      MulOne(c.Points(), addend);
    } else {
      addend := ScalarMultiply(c, rep, addend, q);
    }
    eb[0] := Term(Groups.Add(c.Points(), eb[0].base, addend), eb[0].exponent);
    assert eb[..] == Divided(c.Points(), s);
  }

  method HeapCascade<F(!new, ==)>(c: Curve<F>, rep: Representation<F>, eb: array<Term<Point<F>>>, ghost limit: nat)
    returns (r: Point<F>)
    requires Lawful(c) && Sound(c, rep)
    requires eb.Length >= 3 && TermsOk(c.Points(), eb[..]) && AllAtMost(eb[..], limit)
    modifies eb
    ensures r == Combination(c.Points(), old(eb[..]))
    decreases Rank(limit), 2
  {
    hide Lawful, IsField, Isomorphic, Abelian, Mul, Combination, IsHeap, TotalExponent, Divided;
    ghost var g, s0 := c.Points(), eb[..];
    MakeHeap(eb);
    PopHeap(eb);
    CombinationPermutes(g, s0, eb[..]);
    PermutedAtMost(s0, eb[..], limit);
    while eb[0].exponent != 0
      invariant TermsOk(g, eb[..]) && Combination(g, eb[..]) == Combination(g, s0)
      invariant IsHeap(eb[..], eb.Length - 1) && AllAtMost(eb[..], eb[eb.Length - 1].exponent)
        && AllAtMost(eb[..], limit)
      decreases TotalExponent(eb[..])
    {
      ghost var s := eb[..];
      DividedKeeps(g, s);
      DividedHeap(g, s, limit);
      DivideLargest(c, rep, eb, limit);
      ghost var d := eb[..];
      PushHeap(eb, eb.Length);
      PopHeap(eb);
      CombinationPermutes(g, d, eb[..]);
      TotalPermutes(d, eb[..]);
      PermutedAtMost(d, eb[..], limit);
    }
    LastOnly(g, eb[..]);
    r := ScalarMultiply(c, rep, eb[eb.Length - 1].base, eb[eb.Length - 1].exponent);
  }

  /** `GeneralCascadeMultiplication` on the curve, for terms with exponents up to a limit. */
  method GeneralCascadeMultiplication<F(!new, ==)>(c: Curve<F>, rep: Representation<F>, eb: array<Term<Point<F>>>,
        ghost limit: nat)
    returns (r: Point<F>)
    requires Lawful(c) && Sound(c, rep)
    requires eb.Length >= 1 && TermsOk(c.Points(), eb[..]) && AllAtMost(eb[..], limit)
    modifies eb
    ensures r == Combination(c.Points(), old(eb[..]))
    decreases Rank(limit), 3
  {
    hide Lawful, IsField, Isomorphic, Abelian, Mul, Combination;
    if eb.Length == 1 {
      assert eb[..] == [eb[0]];
      CombinationOne(c.Points(), eb[0]);
      r := ScalarMultiply(c, rep, eb[0].base, eb[0].exponent);
    } else if eb.Length == 2 {
      TwoTerms(c.Points(), eb[..]);
      r := CascadeScalarMultiply(c, rep, eb[0].base, eb[0].exponent, eb[1].base, eb[1].exponent);
    } else {
      r := HeapCascade(c, rep, eb, limit);
    }
  }

  /** The body of `ECP::SimultaneousMultiply` in its own field representation: every exponent times the point. Its
      cascades hold windows of at most 31, so the scalars they hand back to `ScalarMultiply` take the short path. */
  method CollectAndSum<F(!new, ==)>(c: Curve<F>, P: Point<F>, exps: seq<nat>) returns (results: seq<Point<F>>)
    requires Lawful(c) && c.OnCurve(P)
    requires forall i :: 0 <= i < |exps| ==> exps[i] > 0
    ensures |results| == |exps|
    ensures forall i :: 0 <= i < |exps| ==> results[i] == Mul(c.Points(), exps[i], P)
    decreases 0, 4
  {
    hide Lawful, IsField, Abelian, Mul, Combination, Shl, Value;
    var bases, pos, records := Collect(c, P, exps);
    var points := AffineBases(c, P, bases, pos);
    results := [];
    for i := 0 to |exps|
      invariant |results| == i
      invariant forall j :: 0 <= j < i ==> results[j] == Mul(c.Points(), exps[j], P)
    {
      CascadeSum(c, P, records[i], points, pos);
      var finalCascade := ToArray(Cascade(c, records[i], points));
      var r := GeneralCascadeMultiplication(c, InPlace, finalCascade, MAX_WINDOW);
      results := results + [r];
    }
  }

  /** Every exponent times the point, whether or not the field is converted first. */
  method SimultaneousMultiply<F(!new, ==)>(c: Curve<F>, rep: Representation<F>, P: Point<F>, exps: seq<nat>)
    returns (results: seq<Point<F>>)
    requires Lawful(c) && c.OnCurve(P) && Sound(c, rep)
    requires forall i :: 0 <= i < |exps| ==> exps[i] > 0
    ensures |results| == |exps|
    ensures forall i :: 0 <= i < |exps| ==> results[i] == Mul(c.Points(), exps[i], P)
    decreases 0, if rep.Convert? then 6 else 5
  {
    hide Lawful, IsField, Isomorphic, Abelian, Mul, Homomorphism;
    if rep.InPlace? {
      results := CollectAndSum(c, P, exps);
    } else {
      var c' := Mapped(c, rep.field, rep.to);
      GroupMaps(c, rep.field, rep.to, rep.from);
      OnCurveMaps(c, rep.field, rep.to, rep.from, P);
      var converted := SimultaneousMultiply(c', InPlace, MapPoint(rep.to, P), exps);
      results := [];
      for i := 0 to |exps|
        invariant |results| == i
        invariant forall j :: 0 <= j < i ==> results[j] == Mul(c.Points(), exps[j], P)
      {
        HomMul(c.Points(), c'.Points(), PointMap(rep.to), exps[i], P);
        OnCurveMaps(c, rep.field, rep.to, rep.from, Mul(c.Points(), exps[i], P));
        results := results + [MapPoint(rep.from, converted[i])];
      }
    }
  }
}

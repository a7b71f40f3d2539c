/** One base, many exponents: `AbstractGroup::SimultaneousMultiply` adds doublings of the base into
    per-digit buckets and then weighs each bucket with its odd digit by suffix sums. */
module SimultaneousMultiplication {
  import opened Bits
  import opened Groups
  import opened WindowSliders

  ghost predicate AllOk<T>(g: Group<T>, s: seq<T>) {
    forall i :: 0 <= i < |s| ==> g.ok(s[i])
  }

  /** The sum of (2j + 1) * s[j] over j >= k: what the buckets stand for. */
  ghost function Weighted<T(!new)>(g: Group<T>, s: seq<T>, k: nat): (r: T)
    requires Abelian(g) && AllOk(g, s) && k <= |s|
    ensures g.ok(r)
    decreases |s| - k
  {
    if k == |s| then g.zero else Add(g, Mul(g, 2 * k + 1, s[k]), Weighted(g, s, k + 1))
  }

  /** The sum of s[j] over j >= k. */
  ghost function Suffix<T(!new)>(g: Group<T>, s: seq<T>, k: nat): (r: T)
    requires Abelian(g) && AllOk(g, s) && k <= |s|
    ensures g.ok(r)
    decreases |s| - k
  {
    if k == |s| then g.zero else Add(g, s[k], Suffix(g, s, k + 1))
  }

  /** The sum of the suffix sums from k on. */
  ghost function Stacked<T(!new)>(g: Group<T>, s: seq<T>, k: nat): (r: T)
    requires Abelian(g) && AllOk(g, s) && k <= |s|
    ensures g.ok(r)
    decreases |s| - k
  {
    if k == |s| then g.zero else Add(g, Stacked(g, s, k + 1), Suffix(g, s, k))
  }

  /** Twice the stacked suffix sums above k plus 2k + 1 times the suffix sum at k is the weighted sum. */
  lemma {:induction false} WeightedByStacks<T(!new)>(g: Group<T>, s: seq<T>, k: nat)
    requires Abelian(g) && AllOk(g, s) && k < |s|
    ensures Weighted(g, s, k) == Add(g, Mul(g, 2, Stacked(g, s, k + 1)), Mul(g, 2 * k + 1, Suffix(g, s, k)))
    decreases |s| - k
  {
    hide Abelian, Mul;
    var w, x, below := 2 * k + 1, s[k], Suffix(g, s, k + 1);
    if k + 1 == |s| {
      Unit(g, x);
      MulZero(g, 2);
      Unit(g, Mul(g, w, x));
    } else {
      WeightedByStacks(g, s, k + 1);
      // (2k+1)x + (2 S + (2k+3) below)  ==  (2 S + 2 below) + ((2k+1)x + (2k+1)below)
      var st := Mul(g, 2, Stacked(g, s, k + 2));
      MulAdd(g, 2, w, below);
      MulDistributes(g, w, x, below);
      MulDistributes(g, 2, Stacked(g, s, k + 2), below);
      var twice, wx, wb := Mul(g, 2, below), Mul(g, w, x), Mul(g, w, below);
      Assoc(g, st, twice, wb);
      Comm(g, wx, Add(g, Add(g, st, twice), wb));
      Assoc(g, Add(g, st, twice), wb, wx);
      Comm(g, wb, wx);
    }
  }

  /** Adding d to bucket j adds (2j + 1) * d to the weighted sum. */
  lemma {:induction false} WeightedUpdate<T(!new)>(g: Group<T>, s: seq<T>, j: nat, d: T, k: nat)
    requires Abelian(g) && AllOk(g, s) && k <= |s| && j < |s| && g.ok(d)
    ensures AllOk(g, s[j := Add(g, s[j], d)])
    ensures Weighted(g, s[j := Add(g, s[j], d)], k)
         == if k <= j then Add(g, Weighted(g, s, k), Mul(g, 2 * j + 1, d)) else Weighted(g, s, k)
    decreases |s| - k
  {
    hide Abelian, Mul;
    var s' := s[j := Add(g, s[j], d)];
    if k >= |s| {
    } else {
      WeightedUpdate(g, s, j, d, k + 1);
      var head, rest, md := Mul(g, 2 * k + 1, s[k]), Weighted(g, s, k + 1), Mul(g, 2 * j + 1, d);
      if k < j {
        Assoc(g, head, rest, md);
      } else if k == j {
        MulDistributes(g, 2 * k + 1, s[k], d);
        Assoc(g, head, md, rest);
        Comm(g, md, rest);
        Assoc(g, head, rest, md);
      }
    }
  }

  lemma {:induction false} WeightedEmpty<T(!new)>(g: Group<T>, n: nat, k: nat)
    requires Abelian(g) && k <= n
    ensures Weighted(g, seq(n, _ => g.zero), k) == g.zero
    decreases n - k
  {
    if k >= n {
    } else {
      WeightedEmpty(g, n, k + 1);
      MulZero(g, 2 * k + 1);
      Unit(g, g.zero);
    }
  }

  /** The suffix-sum pass over one row of buckets. */
  method SumBuckets<T(!new)>(g: Group<T>, bucket: seq<T>) returns (r: T)
    requires Abelian(g) && AllOk(g, bucket) && |bucket| >= 1
    ensures r == Weighted(g, bucket, 0)
  {
    hide Abelian, Mul, Weighted;
    var b := bucket;
    r := b[|b| - 1];
    Unit(g, r);
    WeightedByStacks(g, bucket, 0);
    MulOne(g, Suffix(g, bucket, 0));
    MulOne(g, Stacked(g, bucket, 1));
    if |b| > 1 {
      var j := |b| - 2;
      while j >= 1
        invariant 0 <= j <= |b| - 2 && |b| == |bucket| && AllOk(g, b)
        invariant forall i :: 0 <= i <= j ==> b[i] == bucket[i]
        invariant b[j + 1] == Suffix(g, bucket, j + 1) && r == Stacked(g, bucket, j + 1)
      {
        b := b[j := Add(g, b[j], b[j + 1])];
        r := Add(g, r, b[j]);
        j := j - 1;
      }
      b := b[0 := Add(g, b[0], b[1])];
      r := Add(g, Add(g, r, r), b[0]);
    } else {
      MulZero(g, 2);
    }
  }

  /** Multiplying by a shifted number is doubling first. */
  lemma {:induction false} MulShl<T(!new)>(g: Group<T>, n: int, b: nat, x: T)
    requires Abelian(g) && g.ok(x)
    ensures Mul(g, Shl(n, b), x) == Mul(g, n, Mul(g, Pow2(b), x))
  {
    hide Abelian, Mul;
    ShlIsTimesPow2(n, b);
    MulMul(g, n, Pow2(b), x);
  }

  /** One exponent's slider together with its buckets: the buckets hold the windows taken so far. */
  ghost predicate Lane<T(!new)>(g: Group<T>, base: T, e: nat, s: WindowSlider, b: seq<T>)
    requires Abelian(g) && g.ok(base)
    reads s
  {
    && s.Valid() && !s.firstTime && s.original == e
    && |b| == Pow2(s.windowSize - 1) && AllOk(g, b)
    && Weighted(g, b, 0) == Mul(g, s.taken, base)
  }

  /** A new lane: slider on its first window, all buckets at the identity. */
  method OpenLane<T(!new)>(g: Group<T>, base: T, e: nat, inversionIsFast: bool)
    returns (s: WindowSlider, b: seq<T>)
    requires Abelian(g) && g.ok(base)
    ensures fresh(s) && Lane(g, base, e, s, b)
  {
    s := new WindowSlider(e, inversionIsFast, 0);
    s.FindNextWindow();
    b := seq(Pow2(s.windowSize - 1), _ => g.zero);
    WeightedEmpty(g, Pow2(s.windowSize - 1), 0);
  }

  /** Adds the current doubling of the base into the bucket of the current window. */
  method TakeWindow<T(!new)>(g: Group<T>, base: T, ghost e: nat, cur: T, ghost pos: nat, s: WindowSlider, b: seq<T>)
    returns (b': seq<T>)
    requires Abelian(g) && g.ok(base) && cur == Mul(g, Pow2(pos), base)
    requires Lane(g, base, e, s, b) && !s.finished && s.windowBegin == pos
    modifies s
    ensures Lane(g, base, e, s, b')
    ensures !s.finished ==> s.windowBegin > pos
  {
    hide Abelian, Mul, Weighted, Shl, Pow2, Accounted;
    ghost var digit, taken := s.Digit(), s.taken;
    BucketIndex(s.expWindow, s.windowSize);
    var j := s.expWindow / 2;
    var d := if s.negateNext then Neg(g, cur) else cur;
    b' := b[j := Add(g, b[j], d)];
    WeightedUpdate(g, b, j, d, 0);
    MulNeg(g, s.expWindow, cur);
    MulShl(g, digit, pos, base);
    MulAdd(g, taken, Shl(digit, pos), base);
    s.FindNextWindow();
  }

  /** An odd window has its own bucket. */
  lemma BucketIndex(window: nat, w: nat)
    requires Odd(window) && w >= 1 && window < Pow2(w)
    ensures window / 2 < Pow2(w - 1) && 2 * (window / 2) + 1 == window
  {}

  ghost predicate Lanes<T(!new)>(g: Group<T>, base: T, exps: seq<nat>, sliders: seq<WindowSlider>, buckets: seq<seq<T>>)
    requires Abelian(g) && g.ok(base)
    reads sliders
  {
    && |sliders| == |exps| == |buckets|
    && (forall i :: 0 <= i < |exps| ==> Lane(g, base, exps[i], sliders[i], buckets[i]))
    && (forall i, j :: 0 <= i < j < |sliders| ==> sliders[i] != sliders[j])
  }

  /** Every exponent times the base, for any list of exponents, with and without fast inversion. */
  method SimultaneousMultiply<T(!new)>(g: Group<T>, base: T, exps: seq<nat>, inversionIsFast: bool)
    returns (results: seq<T>)
    requires Abelian(g) && g.ok(base)
    ensures |results| == |exps|
    ensures forall i :: 0 <= i < |exps| ==> results[i] == Mul(g, exps[i], base)
  {
    hide Abelian, Mul, Weighted, Shl, Pow2;
    var sliders: seq<WindowSlider>, buckets: seq<seq<T>> := [], [];
    for i := 0 to |exps|
      invariant fresh(sliders)
      invariant Lanes(g, base, exps[..i], sliders, buckets)
    {
      var s, b := OpenLane(g, base, exps[i], inversionIsFast);
      assert forall j :: 0 <= j < i ==> Lane(g, base, exps[..i][j], sliders[j], buckets[j]);
      sliders, buckets := sliders + [s], buckets + [b];
    }
    assert exps[..|exps|] == exps;
    results := RunLanes(g, base, exps, sliders, buckets);
  }

  /** `AbstractGroup::ScalarMultiply`: the same with a single exponent. */
  method ScalarMultiply<T(!new)>(g: Group<T>, base: T, e: nat, inversionIsFast: bool) returns (r: T)
    requires Abelian(g) && g.ok(base)
    ensures r == Mul(g, e, base)
  {
    var results := SimultaneousMultiply(g, base, [e], inversionIsFast);
    r := results[0];
  }

  /** The doubling loop and the final pass over the buckets. */
  method RunLanes<T(!new)>(g: Group<T>, base: T, exps: seq<nat>, sliders: seq<WindowSlider>, buckets0: seq<seq<T>>)
    returns (results: seq<T>)
    requires Abelian(g) && g.ok(base)
    requires Lanes(g, base, exps, sliders, buckets0)
    modifies sliders
    ensures |results| == |exps|
    ensures forall i :: 0 <= i < |exps| ==> results[i] == Mul(g, exps[i], base)
  {
    hide Abelian, Mul, Shl, Pow2, Total, Lanes, Sliders, Reached, AllFinished;
    var buckets := buckets0;
    var expBitPosition, cur, notDone := 0, base, true;
    ghost var bound := 2 * Total(exps);
    PowZero();
    MulOne(g, base);
    Untouched(sliders);
    while notDone
      invariant Lanes(g, base, exps, sliders, buckets)
      invariant notDone ==> Reached(sliders, 0, expBitPosition)
      invariant cur == Mul(g, Pow2(expBitPosition), base)
      invariant expBitPosition <= bound
      invariant !notDone ==> AllFinished(sliders)
      decreases bound - expBitPosition, notDone
    {
      notDone, buckets := OneRound(g, base, exps, cur, expBitPosition, sliders, buckets);
      if notDone {
        LanesAreSliders(g, base, exps, sliders, buckets);
        MoveOn(exps, sliders, expBitPosition);
        PowDoubles(expBitPosition);
        MulAdd(g, Pow2(expBitPosition), Pow2(expBitPosition), base);
        cur := Add(g, cur, cur);
        expBitPosition := expBitPosition + 1;
      }
    }
    results := CloseLanes(g, base, exps, sliders, buckets);
  }

  lemma LanesAreSliders<T(!new)>(g: Group<T>, base: T, exps: seq<nat>, sliders: seq<WindowSlider>, buckets: seq<seq<T>>)
    requires Abelian(g) && g.ok(base) && Lanes(g, base, exps, sliders, buckets)
    ensures Sliders(exps, sliders)
  {
    hide Abelian, Mul, Weighted, Accounted;
    forall i | 0 <= i < |sliders|
      ensures sliders[i].Valid() && !sliders[i].firstTime
        && sliders[i].original == exps[i]
    {
      assert Lane(g, base, exps[i], sliders[i], buckets[i]);
    }
  }

  /** One bit position: every exponent whose window begins here takes it. */
  method OneRound<T(!new)>(g: Group<T>, base: T, exps: seq<nat>, cur: T, pos: nat,
                           sliders: seq<WindowSlider>, buckets0: seq<seq<T>>)
    returns (notDone: bool, buckets: seq<seq<T>>)
    requires Abelian(g) && g.ok(base) && cur == Mul(g, Pow2(pos), base)
    requires Lanes(g, base, exps, sliders, buckets0) && Reached(sliders, 0, pos)
    modifies sliders
    ensures Lanes(g, base, exps, sliders, buckets)
    ensures Reached(sliders, |sliders|, pos)
    ensures notDone <==> !AllFinished(sliders)
  {
    hide Abelian, Mul, Shl, Pow2, Lane;
    buckets, notDone := buckets0, false;
    for i := 0 to |exps|
      invariant Lanes(g, base, exps, sliders, buckets)
      invariant Reached(sliders, i, pos)
      invariant notDone <==> exists j :: 0 <= j < i && !sliders[j].finished
    {
      if !sliders[i].finished && pos == sliders[i].windowBegin {
        var b := TakeWindow(g, base, exps[i], cur, pos, sliders[i], buckets[i]);
        buckets := buckets[i := b];
      }
      notDone := notDone || !sliders[i].finished;
    }
  }

  method CloseLanes<T(!new)>(g: Group<T>, base: T, exps: seq<nat>, sliders: seq<WindowSlider>, buckets: seq<seq<T>>)
    returns (results: seq<T>)
    requires Abelian(g) && g.ok(base)
    requires Lanes(g, base, exps, sliders, buckets) && AllFinished(sliders)
    ensures |results| == |exps|
    ensures forall i :: 0 <= i < |exps| ==> results[i] == Mul(g, exps[i], base)
  {
    hide Abelian, Mul, Weighted, Shl;
    results := [];
    for i := 0 to |exps|
      invariant |results| == i
      invariant forall j :: 0 <= j < i ==> results[j] == Mul(g, exps[j], base)
    {
      assert Lane(g, base, exps[i], sliders[i], buckets[i]);
      var r := SumBuckets(g, buckets[i]);
      results := results + [r];
    }
  }

  lemma PowZero()
    ensures Pow2(0) == 1
  {}

  lemma PowDoubles(n: nat)
    ensures Pow2(n + 1) == Pow2(n) + Pow2(n)
  {}
}

/** The signed sliding window that cuts an exponent into odd digits, lowest first. */
module WindowSliders {
  import opened Bits

  const WORD_BITS: nat := 32

  /** `WordCount() * WORD_BITS` */
  function WordAlignedBits(e: nat): (r: nat)
    ensures e < Pow2(r)
  {
    var r := (BitCount(e) + WORD_BITS - 1) / WORD_BITS * WORD_BITS;
    BitCountBound(e);
    Pow2Monotone(BitCount(e), r);
    r
  }

  /** The window width chosen from the length of the exponent. */
  function DefaultWindowSize(expLen: nat): (w: nat)
    ensures 1 <= w <= 7
  {
    if expLen <= 17 then 1 else if expLen <= 24 then 2 else if expLen <= 70 then 3
    else if expLen <= 197 then 4 else if expLen <= 539 then 5 else if expLen <= 1434 then 6 else 7
  }

  class WindowSlider {
    var exp: nat
    var windowBegin: nat
    var expWindow: nat
    var negateNext: bool
    var firstTime: bool
    var finished: bool
    const windowSize: nat
    const fastNegate: bool

    ghost const original: nat  // the exponent the slider was made from
    ghost var taken: int       // signed value of the windows before the current one

    /** The current window with its sign. */
    ghost function Digit(): int
      reads this
    {
      if negateNext then -(expWindow as int) else expWindow
    }

    /** The part of the exponent above the current window. */
    ghost function Rest(): nat
      reads this
    {
      if firstTime then exp else Shr(exp, windowSize)
    }

    /** Everything below `RestBegin` has been accounted for, with value `Below`. */
    ghost function RestBegin(): nat
      reads this
    {
      if firstTime then windowBegin else windowBegin + windowSize
    }

    ghost function Below(): int
      reads this
    {
      if firstTime then taken else taken + Shl(Digit(), windowBegin)
    }

    ghost predicate Valid()
      reads this
    {
      && windowSize >= 1
      && (firstTime ==> exp == original && windowBegin == 0 && taken == 0 && !finished)
      && (finished ==> taken == original)
      && (!firstTime && !finished ==>
            && 1 <= expWindow < Pow2(windowSize) && Odd(expWindow)
            && (negateNext ==> fastNegate && !Odd(Rest()))
            && Accounted(original, taken, Digit(), windowBegin, Rest(), RestBegin()))
    }

    constructor (e: nat, fastNegate: bool, windowSizeIn: nat)
      ensures Valid() && firstTime && original == e && this.fastNegate == fastNegate
      ensures windowSize == if windowSizeIn == 0 then DefaultWindowSize(BitCount(e)) else windowSizeIn
    {
      exp, windowBegin, expWindow := e, 0, 0;
      this.fastNegate, negateNext, firstTime, finished := fastNegate, false, true, false;
      windowSize := if windowSizeIn == 0 then DefaultWindowSize(BitCount(e)) else windowSizeIn;
      original, taken := e, 0;
    }

    /** Moves to the next odd window. The slider finishes exactly when nothing is left of the exponent;
        otherwise the part above the window strictly shrinks, also when a negated window carries into it. */
    method FindNextWindow()
      requires Valid() && !finished
      modifies this
      ensures Valid() && !firstTime
      ensures taken == old(Below())
      ensures finished <==> old(Rest()) == 0
      ensures !finished ==> windowBegin >= old(RestBegin()) && Rest() < old(Rest())
    {
      hide Accounted, Odd, WordAlignedBits, Shl, Pow2, Low, Shr;
      ghost var rest, restBegin, below := Rest(), RestBegin(), Below();
      var start := if firstTime then 0 else windowSize;
      var found, skipCount := FindSetBit(exp, start, WordAlignedBits(exp));
      if firstTime {
        NothingTaken(exp);
      } else {
        HandOut(original, taken, Digit(), windowBegin, rest, windowSize);
      }
      taken := below;
      if !found {
        ShlZero(restBegin);
        firstTime, finished := false, true;
        return;
      }
      NextWindow(original, taken, rest, restBegin, Shr(exp, skipCount), skipCount - start, windowSize);
      firstTime := false;
      exp := Shr(exp, skipCount);
      windowBegin := windowBegin + skipCount;
      expWindow := Low(exp, windowSize);
      if fastNegate && Bit(exp, windowSize) {
        negateNext := true;
        expWindow := Pow2(windowSize) - expWindow;
        exp := exp + Pow2(windowSize);
      } else {
        negateNext := false;
      }
    }
  }

  /** The exponent is the windows taken, the current digit at `begin` and `rest` at `restBegin`; what has
      been borrowed below `begin` is at most half of its weight, which bounds `begin` by the exponent. */
  ghost predicate Accounted(original: nat, taken: int, digit: int, begin: nat, rest: nat, restBegin: nat) {
    && original == taken + Shl(digit, begin) + Shl(rest, restBegin)
    && 2 * taken + Pow2(begin) >= 0
    && Pow2(begin) <= 2 * original
  }

  lemma {:induction false} NothingTaken(e: nat)
    ensures Shr(e, 0) == e && Shl(e, 0) == e
  {}

  /** From an exponent with `rest` left, of which `e` is the odd part, to its next window, plain or negated. */
  lemma {:induction false} NextWindow(original: nat, below: int, rest: nat, restBegin: nat, e: nat, k: nat, w: nat)
    requires w >= 1 && Odd(e)
    requires original == below + Shl(rest, restBegin) && rest == Shl(e, k)
    requires 2 * below + Pow2(if Odd(rest) then restBegin else restBegin + 1) >= 0
    ensures 1 <= Low(e, w) < Pow2(w) && Odd(Low(e, w)) && Odd(Pow2(w) - Low(e, w))
    ensures Shr(e, w) < rest
    ensures Accounted(original, below, Low(e, w), restBegin + k, Shr(e, w), restBegin + k + w)
    ensures Bit(e, w) ==>
              && Shr(e + Pow2(w), w) == Shr(e, w) + 1 < rest && !Odd(Shr(e, w) + 1)
              && Accounted(original, below, -(Pow2(w) - Low(e, w)), restBegin + k, Shr(e, w) + 1, restBegin + k + w)
  {
    hide Odd, Shl, Shr, Low;
    var begin := restBegin + k;
    if k == 0 { NothingTaken(e); }
    OddFacts(e);
    ShlShl(e, k, restBegin);
    Shrinks(e, w);
    LowOdd(e, w);
    OddFacts(Low(e, w));
    OddFacts(Shr(e, w));
    ShrPlusPower(e, w);
    Pow2Monotone(if Odd(rest) then restBegin else restBegin + 1, begin);
    ShlMonotone(1, e, begin);
    SplitWindow(e, w, begin);
  }

  lemma OddFacts(n: nat)
    ensures Odd(n) ==> n >= 1 && !Odd(n + 1)
  {}

  lemma {:induction false} Shrinks(e: nat, w: nat)
    requires Odd(e) && w >= 1
    ensures e >= 1 + 2 * Shr(e, w)
  {
    var l, h := Low(e, w), Shl(Shr(e, w), w - 1);
    assert e == l + 2 * h;
    SameParity(e, l, h);
  }

  /** An exponent is its low window plus the rest, or the low window minus the window modulus plus one
      more of the rest. */
  lemma {:induction false} SplitWindow(e: nat, w: nat, begin: nat)
    ensures Shl(e, begin) == Shl(Low(e, w), begin) + Shl(Shr(e, w), begin + w)
    ensures Shl(e, begin) == Shl(-(Pow2(w) - Low(e, w)), begin) + Shl(Shr(e, w) + 1, begin + w)
  {
    hide Shl, Shr, Low;
    var l, h := Low(e, w), Shr(e, w);
    ShlAdd(l, Shl(h, w), begin);
    ShlShl(h, w, begin);
    ShlAdd(-(Pow2(w) - l), Pow2(w), begin);
    ShlShl(1, w, begin);
    ShlAdd(h, 1, begin + w);
  }

  /** Handing out the current window keeps the borrow within half of the next weight. */
  lemma {:induction false} HandOut(original: nat, taken: int, digit: int, begin: nat, rest: nat, w: nat)
    requires Accounted(original, taken, digit, begin, rest, begin + w)
    requires digit > 0 || (!Odd(rest) && digit > -(Pow2(w) as int))
    ensures original == taken + Shl(digit, begin) + Shl(rest, begin + w)
    ensures 2 * (taken + Shl(digit, begin)) + Pow2(if Odd(rest) then begin + w else begin + w + 1) >= 0
  {
    if digit > 0 {
      ShlMonotone(1, digit, begin);
    } else {
      ShlMonotone(-(Pow2(w) - 1), digit, begin);
      ShlAdd(-(Pow2(w) - 1), Pow2(w) - 1, begin);
      ShlAdd(Pow2(w) - 1, 1, begin);
      ShlZero(begin);
      ShlShl(1, w, begin);
    }
  }

  /** The scan over zero bits, from `start` up to the first set bit or past the last word. */
  method FindSetBit(exp: nat, start: nat, expLen: nat) returns (found: bool, skipCount: nat)
    requires exp < Pow2(expLen)
    ensures !found ==> Shr(exp, start) == 0
    ensures found ==> skipCount >= start && Bit(exp, skipCount)
                      && Shr(exp, start) == Shl(Shr(exp, skipCount), skipCount - start)
  {
    skipCount := start;
    while !Bit(exp, skipCount)
      invariant skipCount >= start
      invariant Shr(exp, start) == Shl(Shr(exp, skipCount), skipCount - start)
      decreases expLen - skipCount
    {
      if skipCount >= expLen {
        Pow2Monotone(expLen, skipCount);
        ShrSmall(exp, skipCount);
        ShlZero(skipCount - start);
        return false, skipCount;
      }
      ShlTwice(Shr(exp, skipCount) / 2, skipCount - start);
      skipCount := skipCount + 1;
    }
    found := true;
  }

  // Several exponents at once --------------------------------------------------------------------------

  /** One started slider for each exponent. */
  ghost predicate Sliders(exps: seq<nat>, sliders: seq<WindowSlider>)
    reads sliders
  {
    && |sliders| == |exps|
    && (forall i :: 0 <= i < |sliders| ==>
         sliders[i].Valid() && !sliders[i].firstTime && sliders[i].original == exps[i])
    && (forall i, j :: 0 <= i < j < |sliders| ==> sliders[i] != sliders[j])
  }

  /** Sliders below i have moved past bit position pos, the others are at or past it. */
  ghost predicate Reached(sliders: seq<WindowSlider>, i: nat, pos: nat)
    reads sliders
  {
    && (forall j :: 0 <= j < i && j < |sliders| && !sliders[j].finished ==> sliders[j].windowBegin > pos)
    && (forall j :: i <= j < |sliders| && !sliders[j].finished ==> sliders[j].windowBegin >= pos)
  }

  ghost predicate AllFinished(sliders: seq<WindowSlider>)
    reads sliders
  {
    forall i :: 0 <= i < |sliders| ==> sliders[i].finished
  }

  ghost function Total(exps: seq<nat>): (r: nat)
    ensures forall i :: 0 <= i < |exps| ==> exps[i] <= r
  {
    if exps == [] then 0 else exps[0] + Total(exps[1..])
  }

  lemma Untouched(sliders: seq<WindowSlider>)
    ensures Reached(sliders, 0, 0)
  {}

  /** The begin of an unfinished window is bounded by the exponent. */
  lemma BeginBounded(s: WindowSlider)
    requires s.Valid() && !s.firstTime && !s.finished
    ensures s.windowBegin < 2 * s.original
  {
    Pow2Exceeds(s.windowBegin);
  }

  /** After a round with work left, the next bit position is still within the exponents. */
  lemma MoveOn(exps: seq<nat>, sliders: seq<WindowSlider>, pos: nat)
    requires Sliders(exps, sliders) && Reached(sliders, |sliders|, pos) && !AllFinished(sliders)
    ensures Reached(sliders, 0, pos + 1) && pos < 2 * Total(exps)
  {
    hide Shl, Pow2, Total;
    var j :| 0 <= j < |sliders| && !sliders[j].finished;
    BeginBounded(sliders[j]);
    assert exps[j] <= Total(exps);
  }
}

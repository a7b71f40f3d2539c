/** Codes whose digits are groups of 1 to 7 bits: encoder, decoder and line grouper, resumable when the
    output blocks. */
module BaseCode {
  import opened Bits
  import opened BitStrings
  import opened Remainders

  lemma Pow2OfEight()
    ensures Pow2(8) == 256
  {
    assert Shl(1, 2) == 4 && Shl(1, 4) == 16;
    assert Shl(1, 6) == 64;
  }

  // Digits ---------------------------------------------------------------------------------------------

  /** The w-bit forms of the values, one after the other. */
  function Packed(values: seq<nat>, w: nat): (r: seq<bool>)
    decreases |values|
  {
    if values == [] then [] else Packed(values[..|values| - 1], w) + BitsOf(values[|values| - 1], w)
  }

  ghost predicate Below(values: seq<nat>, w: nat) {
    forall i :: 0 <= i < |values| ==> values[i] < Pow2(w)
  }

  lemma {:induction false} PackedLength(values: seq<nat>, w: nat)
    ensures |Packed(values, w)| == w * |values|
  {
    if values == [] {
    } else {
      PackedLength(values[..|values| - 1], w);
      assert w * (|values| - 1) + w == w * |values|;
    }
  }

  lemma PackedNone(w: nat)
    ensures Packed([], w) == []
  {}

  lemma PackedAppend(values: seq<nat>, x: nat, w: nat)
    ensures Packed(values + [x], w) == Packed(values, w) + BitsOf(x, w)
  {
    assert (values + [x])[..|values|] == values;
  }

  lemma {:induction false} PackedConcat(x: seq<nat>, y: seq<nat>, w: nat)
    ensures Packed(x + y, w) == Packed(x, w) + Packed(y, w)
    decreases |y|
  {
    if y == [] {
      assert x + y == x;
    } else {
      var y', l := y[..|y| - 1], y[|y| - 1];
      assert x + y == x + y' + [l] && y == y' + [l];
      PackedConcat(x, y', w);
      PackedAppend(x + y', l, w);
      assert Packed(x, w) + Packed(y', w) + BitsOf(l, w) == Packed(x, w) + (Packed(y', w) + BitsOf(l, w));
    }
  }

  /** Values below 2^w with the same packed form are the same. */
  lemma {:induction false} PackedUnique(x: seq<nat>, y: seq<nat>, w: nat)
    requires |x| == |y| && Below(x, w) && Below(y, w) && Packed(x, w) == Packed(y, w)
    ensures x == y
  {
    if x == [] {
    } else {
      var n := |x| - 1;
      PackedLength(x[..n], w);
      PackedLength(y[..n], w);
      var k := |Packed(x[..n], w)|;
      assert Packed(x, w)[..k] == Packed(x[..n], w) && Packed(y, w)[..k] == Packed(y[..n], w);
      assert Packed(x, w)[k..] == BitsOf(x[n], w) && Packed(y, w)[k..] == BitsOf(y[n], w);
      PackedUnique(x[..n], y[..n], w);
      BitsOfUnique(x[n], y[n], w);
      assert x == x[..n] + [x[n]] && y == y[..n] + [y[n]];
    }
  }

  /** A string of bits cut into w-bit digits, with zeros behind its end. */
  function Digits(bits: seq<bool>, w: nat): (r: seq<nat>)
    requires w >= 1
    ensures Below(r, w)
    decreases |bits|
  {
    if bits == [] then []
    else if |bits| <= w then [FromBits(bits + Falses(w - |bits|))]
    else [FromBits(bits[..w])] + Digits(bits[w..], w)
  }

  lemma {:induction false} DigitsPacked(bits: seq<bool>, w: nat) returns (k: nat)
    requires w >= 1
    ensures k < w && Packed(Digits(bits, w), w) == bits + Falses(k)
    decreases |bits|
  {
    hide FromBits, BitsOf, Packed;
    PackedNone(w);
    var d := Digits(bits, w);
    if bits == [] {
      k := 0;
    } else if |bits| <= w {
      k := w - |bits|;
      PackedAppend([], d[0], w);
      BitsOfFrom(bits + Falses(k));
      assert [] + d == d;
    } else {
      k := DigitsPacked(bits[w..], w);
      PackedAppend([], d[0], w);
      assert [] + [d[0]] == [d[0]];
      BitsOfFrom(bits[..w]);
      PackedConcat([d[0]], Digits(bits[w..], w), w);
      assert bits == bits[..w] + bits[w..];
    }
  }

  /** They are the only digits that pack to the string with fewer than w zeros behind it. */
  lemma DigitsUnique(bits: seq<bool>, w: nat, d: seq<nat>, k: nat)
    requires w >= 1 && k < w && Below(d, w) && Packed(d, w) == bits + Falses(k)
    ensures d == Digits(bits, w)
  {
    var k' := DigitsPacked(bits, w);
    var e := Digits(bits, w);
    PackedLength(d, w);
    PackedLength(e, w);
    SameQuotient(w, |d|, |e|, k, k', |bits|);
    PackedUnique(d, e, w);
  }

  lemma SameQuotient(w: nat, a: nat, b: nat, k: nat, k': nat, n: nat)
    requires w >= 1 && k < w && k' < w && w * a == n + k && w * b == n + k'
    ensures a == b && k == k'
  {
    assert w * (a + 1) == w * a + w && w * (b + 1) == w * b + w;
    if a < b {
      ProductMonotone(w, a + 1, b);
    } else if b < a {
      ProductMonotone(w, b + 1, a);
    }
  }

  // Filling a buffer of digits -------------------------------------------------------------------------

  /** The buffer holds the given bits: whole digits, then the first bits of one digit, then zeros. */
  ghost predicate Holding(buf: seq<nat>, w: nat, bytePos: nat, bitPos: nat, bits: seq<bool>) {
    && bytePos <= |buf| && bitPos < w && Below(buf, w)
    && (if bytePos == |buf| then bitPos == 0 && bits == Packed(buf, w)
        else
          && bits == Packed(buf[..bytePos], w) + BitsOf(buf[bytePos], w)[..bitPos]
          && BitsOf(buf[bytePos], w)[bitPos..] == Falses(w - bitPos)
          && forall j :: bytePos < j < |buf| ==> buf[j] == 0)
  }

  /** As long as bits fit, there is a digit to put them in. */
  lemma HoldingRoom(buf: seq<nat>, w: nat, bytePos: nat, bitPos: nat, bits: seq<bool>)
    requires Holding(buf, w, bytePos, bitPos, bits)
    ensures |bits| <= w * |buf|
    ensures bytePos == |buf| <==> |bits| == w * |buf|
    ensures |bits| == w * bytePos + bitPos && bitPos < w && bytePos <= |buf|
  {
    if bytePos < |buf| {
      PackedLength(buf[..bytePos], w);
      ProductMonotone(w, bytePos + 1, |buf|);
      assert w * (bytePos + 1) == w * bytePos + w;
    } else {
      PackedLength(buf, w);
    }
  }

  lemma HoldingNone(buf: seq<nat>, w: nat)
    requires w >= 1 && |buf| >= 1 && forall j :: 0 <= j < |buf| ==> buf[j] == 0
    ensures Holding(buf, w, 0, 0, [])
  {
    ZeroBits(w);
    Pow2Exceeds(w);
    assert buf[..0] == [];
    assert BitsOf(buf[0], w)[0..] == BitsOf(0, w) && BitsOf(buf[0], w)[..0] == [];
  }

  lemma ZeroBits(w: nat)
    ensures BitsOf(0, w) == Falses(w)
  {
    forall i | 0 <= i < w ensures BitsOf(0, w)[i] == Falses(w)[i] {
      Pow2Exceeds(0);
      HighBit(0, 0, w - 1 - i);
    }
  }

  /** The digit after adding a new tail of bits to it. */
  lemma OrTail(old_: nat, y: nat, w: nat, at: nat, tail: seq<bool>)
    requires at < w && old_ < Pow2(w) && y < Pow2(w) && |tail| == w - at
    requires BitsOf(old_, w)[at..] == Falses(w - at) && BitsOf(y, w) == Falses(at) + tail
    ensures Or(old_, y) < Pow2(w) && BitsOf(Or(old_, y), w) == BitsOf(old_, w)[..at] + tail
  {
    OrBound(old_, y, w);
    OrBits(old_, y, w);
    var a, b, r := BitsOf(old_, w), BitsOf(y, w), BitsOf(Or(old_, y), w);
    forall i | 0 <= i < w ensures r[i] == (a[..at] + tail)[i] {
      if i >= at {
        assert a[i] == a[at..][i - at] == false;
      }
    }
  }

  /** Completing the current digit. */
  lemma FillDigit(buf: seq<nat>, w: nat, bytePos: nat, bitPos: nat, bits: seq<bool>, x: nat, tail: seq<bool>)
    requires Holding(buf, w, bytePos, bitPos, bits) && bytePos < |buf|
    requires x < Pow2(w) && BitsOf(x, w) == BitsOf(buf[bytePos], w)[..bitPos] + tail && |tail| == w - bitPos
    ensures Holding(buf[bytePos := x], w, bytePos + 1, 0, bits + tail)
  {
    hide BitsOf, Packed;
    var buf' := buf[bytePos := x];
    assert buf'[..bytePos + 1] == buf[..bytePos] + [x];
    PackedAppend(buf[..bytePos], x, w);
    var p := Packed(buf[..bytePos], w);
    assert p + BitsOf(x, w) == bits + tail;
    if bytePos + 1 == |buf| {
      assert buf' == buf'[..bytePos + 1];
    } else {
      ZeroBits(w);
      assert BitsOf(buf'[bytePos + 1], w)[0..] == BitsOf(0, w) && BitsOf(buf'[bytePos + 1], w)[..0] == [];
    }
  }

  /** Adding bits that do not complete the current digit. */
  lemma ExtendDigit(buf: seq<nat>, w: nat, bytePos: nat, bitPos: nat, bits: seq<bool>, x: nat, more: seq<bool>)
    requires Holding(buf, w, bytePos, bitPos, bits) && bytePos < |buf| && bitPos + |more| < w
    requires x < Pow2(w) && BitsOf(x, w) == BitsOf(buf[bytePos], w)[..bitPos] + (more + Falses(w - bitPos - |more|))
    ensures Holding(buf[bytePos := x], w, bytePos, bitPos + |more|, bits + more)
  {
    hide BitsOf, Packed;
    var buf' := buf[bytePos := x];
    assert buf'[..bytePos] == buf[..bytePos];
    var head := BitsOf(buf[bytePos], w)[..bitPos];
    assert BitsOf(x, w)[..bitPos + |more|] == head + more;
    assert Packed(buf[..bytePos], w) + (head + more) == bits + more;
  }

  /** The smallest number of digits that make up whole bytes. */
  ghost predicate SmallestBlock(w: nat, n: nat) {
    n >= 1 && (w * n) % 8 == 0 && forall m :: 1 <= m < n ==> (w * m) % 8 != 0
  }
}

/** Numbers as strings of bits, most significant first. */
module BitStrings {
  import opened Bits

  /** The n low bits of x. */
  function BitsOf(x: nat, n: nat): (r: seq<bool>)
    ensures |r| == n
  {
    seq(n, i requires 0 <= i < n => Bit(x, n - 1 - i))
  }

  function FromBits(s: seq<bool>): (r: nat)
    ensures r < Pow2(|s|)
    decreases |s|
  {
    if s == [] then 0 else 2 * FromBits(s[..|s| - 1]) + if s[|s| - 1] then 1 else 0
  }

  function Falses(n: nat): (r: seq<bool>)
    ensures |r| == n
  {
    seq(n, i => false)
  }

  /** Bitwise or. */
  function Or(x: nat, y: nat): nat
    decreases x + y
  {
    if x == 0 && y == 0 then 0 else 2 * Or(x / 2, y / 2) + if Odd(x) || Odd(y) then 1 else 0
  }

  lemma HalfBit(x: nat, k: nat)
    ensures Bit(x, k + 1) == Bit(x / 2, k)
  {
    ShrShr(x, 1, k);
    assert Shr(x, 1) == Shr(x, 0) / 2;
  }

  lemma {:induction false} OrBit(x: nat, y: nat, k: nat)
    ensures Bit(Or(x, y), k) == (Bit(x, k) || Bit(y, k))
    decreases k
  {
    if k == 0 {
    } else {
      HalfBit(x, k - 1);
      HalfBit(y, k - 1);
      HalfBit(Or(x, y), k - 1);
      OrHalf(x, y);
      OrBit(x / 2, y / 2, k - 1);
    }
  }

  lemma OrHalf(x: nat, y: nat)
    ensures Or(x, y) / 2 == Or(x / 2, y / 2)
  {}

  lemma {:induction false} OrBound(x: nat, y: nat, n: nat)
    requires x < Pow2(n) && y < Pow2(n)
    ensures Or(x, y) < Pow2(n)
    decreases n
  {
    if n == 0 {
    } else {
      OrBound(x / 2, y / 2, n - 1);
    }
  }

  lemma OrBits(x: nat, y: nat, n: nat)
    ensures forall i :: 0 <= i < n ==> BitsOf(Or(x, y), n)[i] == (BitsOf(x, n)[i] || BitsOf(y, n)[i])
  {
    forall i | 0 <= i < n ensures BitsOf(Or(x, y), n)[i] == (BitsOf(x, n)[i] || BitsOf(y, n)[i]) {
      OrBit(x, y, n - 1 - i);
    }
  }

  lemma HighBit(x: nat, n: nat, k: nat)
    requires x < Pow2(n) && k >= n
    ensures !Bit(x, k)
  {
    Pow2Monotone(n, k);
    ShrSmall(x, k);
  }

  /** Shifting right leaves the first bits, behind zeros. */
  lemma ShrBits(x: nat, n: nat, t: nat, w: nat)
    requires x < Pow2(n) && t <= n && t <= w
    ensures BitsOf(Shr(x, n - t), w) == Falses(w - t) + BitsOf(x, n)[..t]
    ensures Shr(x, n - t) < Pow2(t)
  {
    hide Shr, Shl;
    var s, r := BitsOf(Shr(x, n - t), w), Falses(w - t) + BitsOf(x, n)[..t];
    forall i | 0 <= i < w ensures s[i] == r[i] {
      var k := n - t + (w - 1 - i);
      ShrShr(x, n - t, w - 1 - i);
      assert s[i] == Bit(x, k);
      if i < w - t {
        HighBit(x, n, k);
        assert r[i] == Falses(w - t)[i];
      } else {
        assert r[i] == BitsOf(x, n)[i - (w - t)] == Bit(x, k);
      }
    }
    assert n - t + t == n;
    ShrBound(x, n - t, t);
  }

  lemma {:induction false} ShrBound(x: nat, i: nat, j: nat)
    requires x < Pow2(i + j)
    ensures Shr(x, i) < Pow2(j)
  {
    assert x == Low(x, i) + Shl(Shr(x, i), i);
    if Shr(x, i) >= Pow2(j) {
      ShlMonotone(Pow2(j), Shr(x, i), i);
      ShlShl(1, j, i);
    }
  }

  /** Shifting left and keeping n bits drops the first bits. */
  lemma ShlBits(x: nat, n: nat, t: nat)
    requires t <= n
    ensures BitsOf(Low(Shl(x, t), n), n) == BitsOf(x, n)[t..] + Falses(t)
  {
    hide Shr, Shl, Low;
    var s, r := BitsOf(Low(Shl(x, t), n), n), BitsOf(x, n)[t..] + Falses(t);
    forall i | 0 <= i < n ensures s[i] == r[i] {
      var k := n - 1 - i;
      LowBit(Shl(x, t), n, k);
      ShlBit(x, t, k);
    }
  }

  lemma {:induction false} LowBit(x: nat, n: nat, k: nat)
    requires k < n
    ensures Bit(Low(x, n), k) == Bit(x, k)
    decreases k
  {
    var h := Shl(Shr(x, n), n - k);
    assert x == Low(x, n) + Shl(Shr(x, n), n);
    ShlShl(Shr(x, n), n - k, k);
    ShrPlus(Low(x, n), k, h);
    assert h == 2 * Shl(Shr(x, n), n - k - 1);
    SameParity(Shr(x, k), Shr(Low(x, n), k), Shl(Shr(x, n), n - k - 1));
  }

  lemma ShrPlus(e: nat, i: nat, h: nat)
    ensures Shr(e + Shl(h, i), i) == Shr(e, i) + h
  {
    ShlAdd(Shr(e, i), h, i);
    ShrUnique(e + Shl(h, i), i, Shr(e, i) + h, Low(e, i));
  }

  lemma {:induction false} ShlBit(x: nat, t: nat, k: nat)
    ensures Bit(Shl(x, t), k) == (k >= t && Bit(x, k - t))
    decreases t
  {
    if t == 0 {
    } else {
      if k == 0 {
        assert Shl(x, t) == 2 * Shl(x, t - 1);
      } else {
        HalfBit(Shl(x, t), k - 1);
        assert Shl(x, t) / 2 == Shl(x, t - 1);
        ShlBit(x, t - 1, k - 1);
      }
    }
  }

  lemma {:induction false} FromBitsOf(x: nat, n: nat)
    requires x < Pow2(n)
    ensures FromBits(BitsOf(x, n)) == x
    decreases n
  {
    if n == 0 {
    } else {
      var s := BitsOf(x, n);
      assert s[..n - 1] == BitsOf(x / 2, n - 1) by {
        forall i | 0 <= i < n - 1 ensures s[i] == BitsOf(x / 2, n - 1)[i] {
          HalfBit(x, n - 2 - i);
        }
      }
      assert s[n - 1] == Bit(x, 0) == Odd(x);
      FromBitsOf(x / 2, n - 1);
    }
  }

  lemma {:induction false} BitsOfFrom(s: seq<bool>)
    ensures BitsOf(FromBits(s), |s|) == s
    decreases |s|
  {
    if s == [] {
    } else {
      var n, x := |s|, FromBits(s);
      BitsOfFrom(s[..n - 1]);
      forall i | 0 <= i < n ensures BitsOf(x, n)[i] == s[i] {
        if i < n - 1 {
          HalfBit(x, n - 2 - i);
          assert x / 2 == FromBits(s[..n - 1]);
          assert BitsOf(FromBits(s[..n - 1]), n - 1)[i] == s[i];
        } else {
          assert Bit(x, 0) == Odd(x);
        }
      }
    }
  }

  /** Numbers below 2^n with the same n bits are the same. */
  lemma BitsOfUnique(x: nat, y: nat, n: nat)
    requires x < Pow2(n) && y < Pow2(n) && BitsOf(x, n) == BitsOf(y, n)
    ensures x == y
  {
    FromBitsOf(x, n);
    FromBitsOf(y, n);
  }
}

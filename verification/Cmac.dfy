/** CMAC (NIST SP 800-38B): subkeys by multiplication with u, and a running register that always holds the
    last block back. */
module Cmac {
  import opened BlockChaining
  import opened Remainders

  // Subkeys --------------------------------------------------------------------------------------------

  function Mask(j: nat): bv8
    requires j < 8
  {
    if j == 0 then 0x01 else if j == 1 then 0x02 else if j == 2 then 0x04 else if j == 3 then 0x08
    else if j == 4 then 0x10 else if j == 5 then 0x20 else if j == 6 then 0x40 else 0x80
  }

  /** Bit j of a byte. */
  predicate Bit8(x: bv8, j: nat)
    requires j < 8
  {
    x & Mask(j) != 0
  }

  /** The coefficient of u^e in the polynomial over GF(2) whose bits, highest first, are the bytes of k. */
  predicate Coefficient(k: block, e: nat)
    requires e < 8 * |k|
  {
    Bit8(k[|k| - 1 - e / 8], e % 8)
  }

  /** The exponents that occur in the polynomial of k. */
  ghost function Poly(k: block): (s: set<nat>)
    ensures forall e: nat :: e in s <==> e < 8 * |k| && Coefficient(k, e)
  {
    set e: nat | e < 8 * |k| && Coefficient(k, e)
  }

  ghost function TimesU(s: set<nat>): (r: set<nat>)
    ensures forall e: nat :: e in r <==> e >= 1 && e - 1 in s
  {
    set e: nat | e in s :: e + 1
  }

  /** The sum of two polynomials over GF(2). */
  ghost function Plus(a: set<nat>, b: set<nat>): (r: set<nat>)
    ensures forall e: nat :: e in r <==> (e in a) != (e in b)
  {
    (a - b) + (b - a)
  }

  predicate Supported(n: nat) {
    n == 8 || n == 16 || n == 32
  }

  /** x shifted left, with the top bit of the next byte moved in. */
  function ShiftByte(x: bv8, next: bv8): bv8 {
    (x << 1) + (next >> 7)
  }

  const ZERO: bv8 := 0

  /** k shifted left by one bit. */
  function Shifted(k: block): (r: block)
    ensures |r| == |k|
  {
    seq(|k|, i requires 0 <= i < |k| => ShiftByte(k[i], if i + 1 < |k| then k[i + 1] else ZERO))
  }

  lemma ShiftBit(x: bv8, w: bv8, j: nat)
    requires j < 8
    ensures Bit8(ShiftByte(x, w), j) == if j == 0 then Bit8(w, 7) else Bit8(x, j - 1)
  {
    hide Mask;
    LowestMask();
    if j == 0 {
      ShiftLowest(x, w);
    } else {
      NextMask(j);
      ShiftMask(x, w, Mask(j - 1));
    }
  }

  lemma LowestMask()
    ensures Mask(0) == 1 && Mask(7) == 0x80
  {}

  lemma NextMask(j: nat)
    requires 1 <= j < 8
    ensures Mask(j) == Mask(j - 1) << 1 && Mask(j - 1) & 0x80 == 0
  {}

  lemma ShiftLowest(x: bv8, w: bv8)
    ensures (ShiftByte(x, w) & 1 != 0) == (w & 0x80 != 0)
  {}

  lemma ShiftMask(x: bv8, w: bv8, m: bv8)
    requires m & 0x80 == 0
    ensures (ShiftByte(x, w) & (m << 1) != 0) == (x & m != 0)
  {}

  lemma ShiftedCoefficient(k: block, e: nat)
    requires e < 8 * |k|
    ensures Coefficient(Shifted(k), e) <==> e >= 1 && Coefficient(k, e - 1)
  {
    var i := |k| - 1 - e / 8;
    ShiftBit(k[i], if i + 1 < |k| then k[i + 1] else ZERO, e % 8);
    if e >= 1 {
      if e % 8 == 0 {
        assert (e - 1) / 8 == e / 8 - 1 && (e - 1) % 8 == 7;
      } else {
        assert (e - 1) / 8 == e / 8 && (e - 1) % 8 == e % 8 - 1;
      }
    }
  }

  lemma XorBit(x: bv8, c: bv8, j: nat)
    requires j < 8
    ensures Bit8(x ^ c, j) == (Bit8(x, j) != Bit8(c, j))
  {
    hide Mask;
    SingleBit(j);
    XorMask(x, c, Mask(j));
  }

  /** A mask has one bit. */
  lemma SingleBit(j: nat)
    requires j < 8
    ensures Mask(j) & (Mask(j) - 1) == 0
  {}

  lemma XorMask(x: bv8, c: bv8, m: bv8)
    requires m & (m - 1) == 0
    ensures ((x ^ c) & m != 0) == ((x & m != 0) != (c & m != 0))
  {}

  /** The top bit, which the shift loses. */
  predicate Top(k: block) {
    |k| > 0 && Bit8(k[0], 7)
  }

  /** The constants that the code folds in for a lost top bit. */
  function Folded(k: block): (r: block)
    requires Supported(|k|)
    ensures |r| == |k|
  {
    if |k| == 8 then k[7 := k[7] ^ 0x1b]
    else if |k| == 16 then k[15 := k[15] ^ 0x87]
    else k[30 := k[30] ^ 0x04][31 := k[31] ^ 0x23]
  }

  function Times(k: block): (r: block)
    requires Top(k) ==> Supported(|k|)
    ensures |r| == |k|
  {
    if Top(k) then Folded(Shifted(k)) else Shifted(k)
  }

  /** The polynomial of the folded constants, without the leading term. */
  ghost function Constant(n: nat): set<nat>
    requires Supported(n)
  {
    if n == 8 then {4, 3, 1, 0} else if n == 16 then {7, 2, 1, 0} else {10, 5, 1, 0}
  }

  ghost function Modulus(n: nat): set<nat>
    requires Supported(n)
  {
    Constant(n) + {8 * n}
  }

  /** The residue of s modulo a polynomial p of degree n, for s of degree at most n. */
  ghost function Residue(s: set<nat>, p: set<nat>, n: nat): set<nat> {
    if n in s then Plus(s, p) else s
  }

  lemma ConstantBits(j: nat)
    requires j < 8
    ensures Bit8(0x1b, j) <==> j in {4, 3, 1, 0}
    ensures Bit8(0x87, j) <==> j in {7, 2, 1, 0}
    ensures Bit8(0x23, j) <==> j in {5, 1, 0}
    ensures Bit8(0x04, j) <==> j == 2
  {}

  /** Folding a byte into one place flips the coefficients of its bits. */
  lemma UpdatedCoefficient(k: block, at: nat, c: bv8, e: nat)
    requires e < 8 * |k| && at < |k|
    ensures Coefficient(k[at := k[at] ^ c], e) == (Coefficient(k, e) != (e / 8 == |k| - 1 - at && Bit8(c, e % 8)))
  {
    hide Mask;
    XorBit(k[at], c, e % 8);
  }

  lemma ConstantPlaces(e: nat)
    ensures e in {4, 3, 1, 0} <==> e / 8 == 0 && e % 8 in {4, 3, 1, 0}
    ensures e in {7, 2, 1, 0} <==> e / 8 == 0 && e % 8 in {7, 2, 1, 0}
    ensures e in {10, 5, 1, 0} <==> (e / 8 == 0 && e % 8 in {5, 1, 0}) || (e / 8 == 1 && e % 8 == 2)
  {
    assert e == 8 * (e / 8) + e % 8;
  }

  lemma FoldedCoefficient(k: block, e: nat)
    requires Supported(|k|) && e < 8 * |k|
    ensures Coefficient(Folded(k), e) == (Coefficient(k, e) != (e in Constant(|k|)))
  {
    hide Bit8, Mask, Coefficient;
    ConstantBits(e % 8);
    ConstantPlaces(e);
    if |k| == 8 {
      UpdatedCoefficient(k, 7, 0x1b, e);
    } else if |k| == 16 {
      UpdatedCoefficient(k, 15, 0x87, e);
    } else {
      UpdatedCoefficient(k, 30, 0x04, e);
      UpdatedCoefficient(k[30 := k[30] ^ 0x04], 31, 0x23, e);
    }
  }

  lemma TopCoefficient(k: block)
    requires |k| > 0
    ensures Top(k) <==> Coefficient(k, 8 * |k| - 1)
  {
    assert (8 * |k| - 1) / 8 == |k| - 1 && (8 * |k| - 1) % 8 == 7;
  }

  /** The new key is u times the old one, reduced modulo the code's polynomial. */
  lemma TimesIsTimesU(k: block)
    requires Supported(|k|)
    ensures Poly(Times(k)) == Residue(TimesU(Poly(k)), Modulus(|k|), 8 * |k|)
  {
    hide Coefficient, Folded, Shifted, Constant;
    TopCoefficient(k);
    SmallConstant(|k|);
    var lhs, rhs := Poly(Times(k)), Residue(TimesU(Poly(k)), Modulus(|k|), 8 * |k|);
    forall e: nat ensures e in lhs <==> e in rhs {
      if e < 8 * |k| {
        ShiftedCoefficient(k, e);
        FoldedCoefficient(Shifted(k), e);
      }
    }
  }

  lemma SmallConstant(n: nat)
    requires Supported(n)
    ensures forall e: nat :: e in Constant(n) ==> e < 8 * n
  {}

  ghost function Next(s: block, i: int): bv8
    requires -1 <= i < |s|
  {
    if i + 1 < |s| then s[i + 1] else ZERO
  }

  lemma ShiftedAt(s: block, i: nat)
    requires i < |s|
    ensures Shifted(s)[i] == ShiftByte(s[i], Next(s, i))
  {}

  /** The shift of `MulU`, two bytes at a time from the end. */
  method ShiftInPlace(k: array<bv8>) returns (carry: bv8)
    requires k.Length % 2 == 0
    modifies k
    ensures k[..] == Shifted(old(k[..]))
    ensures carry == if k.Length == 0 then 0 else old(k[0]) >> 7
  {
    hide ShiftByte, Shifted;
    ghost var s := k[..];
    carry := 0;
    NoCarry();
    var i := k.Length - 1;
    while i >= 1
      invariant -1 <= i < k.Length && (i + 1) % 2 == 0
      invariant forall j :: 0 <= j <= i ==> k[j] == s[j]
      invariant forall j :: i < j < k.Length ==> k[j] == Shifted(s)[j]
      invariant carry == Next(s, i) >> 7
    {
      ShiftedAt(s, i);
      ShiftedAt(s, i - 1);
      ShiftAdds(s[i], carry, Next(s, i));
      ShiftAdds(s[i - 1], s[i] >> 7, s[i]);
      var carry2 := k[i] >> 7;
      k[i] := k[i] + k[i] + carry;
      carry := k[i - 1] >> 7;
      k[i - 1] := k[i - 1] + k[i - 1] + carry2;
      i := i - 2;
    }
  }

  lemma NoCarry()
    ensures ZERO >> 7 == 0
  {}

  /** `MulU` fails only where it has no polynomial for a lost top bit. */
  method MulU(k: array<bv8>) returns (ok: bool)
    requires k.Length % 2 == 0
    modifies k
    ensures ok <==> (Top(old(k[..])) ==> Supported(k.Length))
    ensures ok ==> k[..] == Times(old(k[..]))
  {
    hide Folded, Mask, Shifted;
    ghost var s := k[..];
    if s != [] { TopBitSet(s[0]); }
    var carry := ShiftInPlace(k);
    if carry != 0 {
      if k.Length == 8 {
        k[7] := k[7] ^ 0x1b;
      } else if k.Length == 16 {
        k[15] := k[15] ^ 0x87;
      } else if k.Length == 32 {
        k[30] := k[30] ^ 0x04;
        k[31] := k[31] ^ 0x23;
      } else {
        return false;
      }
      FoldedIs(Shifted(s), k[..]);
    }
    ok := true;
  }

  lemma FoldedIs(a: block, b: block)
    requires Supported(|a|)
    requires |a| == 8 ==> b == a[7 := a[7] ^ 0x1b]
    requires |a| == 16 ==> b == a[15 := a[15] ^ 0x87]
    requires |a| == 32 ==> b == a[30 := a[30] ^ 0x04][31 := a[31] ^ 0x23]
    ensures b == Folded(a)
  {}

  lemma ShiftAdds(x: bv8, carry: bv8, next: bv8)
    requires carry == next >> 7
    ensures x + x + carry == ShiftByte(x, next)
  {}

  lemma TopBitSet(x: bv8)
    ensures Bit8(x, 7) <==> x >> 7 != 0
  {}

  // The 32-byte polynomial -----------------------------------------------------------------------------

  /** u^256 + u^10 + u^5 + u^2 + 1, the irreducible polynomial usual for GF(2^256). */
  ghost const STANDARD_256: set<nat> := {256, 10, 5, 2, 0}

  /** For 32-byte blocks the code multiplies modulo another polynomial: it agrees with GF(2^256) exactly when
      the top bit is clear. */
  lemma Field256Iff(k: block)
    requires |k| == 32
    ensures Poly(Times(k)) == Residue(TimesU(Poly(k)), STANDARD_256, 256) <==> !Top(k)
  {
    hide Times, Coefficient;
    TimesIsTimesU(k);
    TopCoefficient(k);
    var s := TimesU(Poly(k));
    if Top(k) {
      assert 1 in Plus(s, Modulus(32)) <==> 1 !in Plus(s, STANDARD_256);
    }
  }

  /** (u^2 + u + 1) * q */
  ghost function TimesTrinomial(q: set<nat>): set<nat> {
    Plus(Plus(TimesU(TimesU(q)), TimesU(q)), q)
  }

  lemma TrinomialAdds(a: set<nat>, b: set<nat>)
    ensures TimesTrinomial(Plus(a, b)) == Plus(TimesTrinomial(a), TimesTrinomial(b))
  {
    hide Plus, TimesU;
    TimesUAdds(a, b);
    TimesUAdds(TimesU(a), TimesU(b));
    var a1, b1, a2, b2 := TimesU(a), TimesU(b), TimesU(TimesU(a)), TimesU(TimesU(b));
    assert Plus(Plus(Plus(a2, b2), Plus(a1, b1)), Plus(a, b)) == Plus(Plus(Plus(a2, a1), a), Plus(Plus(b2, b1), b));
  }

  lemma TimesUAdds(a: set<nat>, b: set<nat>)
    ensures TimesU(Plus(a, b)) == Plus(TimesU(a), TimesU(b))
  {
    hide Plus, TimesU;
  }

  /** (u^2 + u + 1)(u^(b+1) + u^b) == u^(b+3) + u^b */
  lemma TrinomialStep(b: nat)
    ensures TimesTrinomial({b + 1, b}) == {b + 3, b}
  {
    hide Plus, TimesU;
    assert TimesU({b + 1, b}) == {b + 2, b + 1};
    assert TimesU({b + 2, b + 1}) == {b + 3, b + 2};
  }

  /** The cofactor of u^(a+3k) + u^a. */
  ghost function Cofactor(a: nat, k: nat): set<nat> {
    if k == 0 then {} else Plus(Cofactor(a, k - 1), {a + 3 * k - 2, a + 3 * k - 3})
  }

  lemma {:induction false} CofactorIs(a: nat, k: nat)
    ensures TimesTrinomial(Cofactor(a, k)) == Plus({a + 3 * k}, {a})
  {
    hide TimesTrinomial, TimesU;
    if k == 0 {
      TrinomialNone();
    } else {
      CofactorIs(a, k - 1);
      TrinomialStep(a + 3 * k - 3);
      TrinomialAdds(Cofactor(a, k - 1), {a + 3 * k - 2, a + 3 * k - 3});
    }
  }

  lemma TrinomialNone()
    ensures TimesTrinomial({}) == {} && TimesTrinomial({0}) == {2, 1, 0}
  {
    hide Plus, TimesU;
    assert TimesU({0}) == {1} && TimesU({1}) == {2};
  }

  /** u^2 + u + 1 divides the code's polynomial, so residues modulo it do not form a field. */
  lemma Modulus256Factors() returns (q: set<nat>)
    ensures TimesTrinomial(q) == Modulus(32)
  {
    hide TimesTrinomial, TimesU, Cofactor;
    CofactorIs(1, 85);
    CofactorIs(1, 3);
    CofactorIs(2, 1);
    TrinomialNone();
    var q1 := Plus(Cofactor(1, 85), Cofactor(1, 3));
    var q2 := Plus(q1, Cofactor(2, 1));
    q := Plus(q2, {0});
    TrinomialAdds(Cofactor(1, 85), Cofactor(1, 3));
    TrinomialAdds(q1, Cofactor(2, 1));
    TrinomialAdds(q2, {0});
  }

  // The tag --------------------------------------------------------------------------------------------

  const MARK: bv8 := 0x80

  /** A short block completed by a one bit and zeros. */
  function Padded(m: block, n: nat): (r: block)
    requires |m| < n
    ensures |r| == n
  {
    m + [MARK] + Zeros(n - |m| - 1)
  }

  /** Section 6.2 of SP 800-38B: the last block is masked with K1 if complete and padded and masked with K2 if not. */
  function LastBlock(k1: block, k2: block, m: block): (r: block)
    requires |k1| == |k2| && |m| <= |k1|
    ensures |r| == |k1|
  {
    if |m| == |k1| then XorInto(k1, 0, m) else XorInto(k2, 0, Padded(m, |k2|))
  }

  /** The tag of the definition: all blocks but the last are chained, the last one masked. */
  function Tag(cipher: block -> block, k1: block, k2: block, c: block, msg: block): (r: block)
    requires BlockCipher(cipher, |c|) && |k1| == |k2| == |c|
    ensures |r| == |c|
    decreases |msg|
  {
    if |msg| <= |c| then Absorb(cipher, c, LastBlock(k1, k2, msg))
    else Tag(cipher, k1, k2, Absorb(cipher, c, msg[..|c|]), msg[|c|..])
  }

  /** Section 6.2 of SP 800-38B by the length of the message: a complete last block is masked with K1; any other, the
      empty one of the empty message too, is completed by a one bit and zeros and masked with K2. */
  ghost predicate IsTag(cipher: block -> block, k1: block, k2: block, c: block, msg: block, size: nat, mac: block)
    requires BlockCipher(cipher, |c|) && |k1| == |k2| == |c| && size <= |c|
  {
    var n, j := |c|, |msg| % |c|;
    LessRemainder(|msg|, n);
    if j == 0 && msg != [] then
      FirstBlock(|msg|, n);
      var m := msg[..|msg| - n] + XorInto(msg[|msg| - n..], 0, k1);
      |m| % n == 0 && mac == Chain(cipher, c, m)[..size]
    else
      var m := msg[..|msg| - j] + XorInto(msg[|msg| - j..] + [0x80] + Zeros(n - j - 1), 0, k2);
      |m| % n == 0 && mac == Chain(cipher, c, m)[..size]
  }

  /** The register holds the chained blocks with the last `counter` bytes folded in. */
  ghost predicate Held(cipher: block -> block, n: nat, reg: block, counter: nat, msg: block)
    requires BlockCipher(cipher, n)
  {
    && counter <= n && counter <= |msg| && (|msg| - counter) % n == 0
    && reg == XorInto(Chain(cipher, Zeros(n), msg[..|msg| - counter]), 0, msg[|msg| - counter..])
  }

  lemma HeldStart(cipher: block -> block, n: nat)
    requires BlockCipher(cipher, n)
    ensures Held(cipher, n, Zeros(n), 0, [])
  {
    ChainNone(cipher, Zeros(n));
  }

  lemma HeldExtends(cipher: block -> block, n: nat, reg: block, counter: nat, msg: block, d: block)
    requires BlockCipher(cipher, n) && Held(cipher, n, reg, counter, msg) && counter + |d| <= n
    ensures |reg| == n && Held(cipher, n, XorInto(reg, counter, d), counter + |d|, msg + d)
  {
    hide Chain, XorInto;
    var done, pending := msg[..|msg| - counter], msg[|msg| - counter..];
    var m := msg + d;
    assert m[..|m| - (counter + |d|)] == done && m[|m| - (counter + |d|)..] == pending + d;
    XorTwice(Chain(cipher, Zeros(n), done), pending, d);
  }

  lemma HeldFlushes(cipher: block -> block, n: nat, reg: block, msg: block)
    requires BlockCipher(cipher, n) && Held(cipher, n, reg, n, msg)
    ensures Held(cipher, n, cipher(reg), 0, msg)
  {
    hide Chain, XorInto;
    var done, pending := msg[..|msg| - n], msg[|msg| - n..];
    OneBlock(cipher, Chain(cipher, Zeros(n), done), pending);
    ChainConcat(cipher, Zeros(n), done, pending);
    assert done + pending == msg && msg[..|msg| - 0] == msg;
    NothingPending(Chain(cipher, Zeros(n), msg), msg[|msg| - 0..]);
  }

  lemma NothingPending(c: block, d: block)
    requires d == []
    ensures XorInto(c, 0, d) == c
  {}

  lemma HeldBlocks(cipher: block -> block, n: nat, reg: block, msg: block, d: block)
    requires BlockCipher(cipher, n) && Held(cipher, n, reg, 0, msg) && |d| % n == 0
    ensures |reg| == n && Held(cipher, n, Chain(cipher, reg, d), 0, msg + d)
  {
    hide Chain, XorInto;
    assert msg[..|msg| - 0] == msg && msg[|msg| - 0..] == [];
    NothingPending(Chain(cipher, Zeros(n), msg), msg[|msg| - 0..]);
    ChainConcat(cipher, Zeros(n), msg, d);
    var m := msg + d;
    assert m[..|m| - 0] == m && m[|m| - 0..] == [];
    NothingPending(Chain(cipher, Zeros(n), m), m[|m| - 0..]);
  }

  /** Chaining all but the last block and finishing with it is the tag. */
  lemma {:induction false} TagOfChain(cipher: block -> block, k1: block, k2: block, c: block, done: block, last: block)
    requires BlockCipher(cipher, |c|) && |k1| == |k2| == |c| && |done| % |c| == 0 && |last| <= |c|
    requires done != [] ==> last != []
    ensures Tag(cipher, k1, k2, c, done + last) == Absorb(cipher, Chain(cipher, c, done), LastBlock(k1, k2, last))
    decreases |done|
  {
    hide Absorb, LastBlock;
    if done == [] {
      assert done + last == last;
    } else {
      var n := |c|;
      FirstBlock(|done|, n);
      assert (done + last)[..n] == done[..n] && (done + last)[n..] == done[n..] + last;
      TagOfChain(cipher, k1, k2, Absorb(cipher, c, done[..n]), done[n..], last);
    }
  }

  /** The tag defined block by block is the masked message chained. */
  lemma TagIsChain(cipher: block -> block, k1: block, k2: block, c: block, msg: block, size: nat)
    requires BlockCipher(cipher, |c|) && |k1| == |k2| == |c| && size <= |c|
    ensures IsTag(cipher, k1, k2, c, msg, size, Tag(cipher, k1, k2, c, msg)[..size])
  {
    hide Chain, Tag, XorInto;
    var n := |c|;
    LessRemainder(|msg|, n);
    var j := if msg != [] && |msg| % n == 0 then n else |msg| % n;
    if j == n {
      FirstBlock(|msg|, n);
      XorComm(k1, msg[|msg| - n..]);
    } else {
      XorComm(k2, msg[|msg| - j..] + [MARK] + Zeros(n - j - 1));
    }
    var done, last := msg[..|msg| - j], msg[|msg| - j..];
    assert done + last == msg;
    TagOfChain(cipher, k1, k2, c, done, last);
    OneBlock(cipher, Chain(cipher, c, done), LastBlock(k1, k2, last));
    ChainConcat(cipher, c, done, LastBlock(k1, k2, last));
  }

  /** Masking the register is absorbing the masked last block. */
  lemma MaskFull(c: block, m: block, k: block)
    requires |m| == |k| == |c|
    ensures XorInto(XorInto(c, 0, m), 0, k) == XorInto(c, 0, XorInto(k, 0, m))
  {}

  lemma MaskShort(c: block, m: block, k: block)
    requires |k| == |c| && |m| < |c|
    ensures XorInto(XorInto(XorInto(c, 0, m), |m|, [MARK]), 0, k) == XorInto(c, 0, XorInto(k, 0, Padded(m, |k|)))
  {
    var l, r := XorInto(XorInto(XorInto(c, 0, m), |m|, [MARK]), 0, k), XorInto(c, 0, XorInto(k, 0, Padded(m, |k|)));
    forall i | 0 <= i < |c| ensures l[i] == r[i] {
    }
  }

  /** `CMAC_Base`: the register `m_reg`, the two subkeys behind it and the count of bytes folded in. */
  class CMAC {
    const cipher: block -> block
    const n: nat
    var reg: block
    var k1: block
    var k2: block
    var counter: nat

    ghost var msg: block  // everything since the last tag

    /** After any input at all, between one byte and a whole block is held back. */
    ghost predicate Valid()
      reads this
    {
      && BlockCipher(cipher, n) && |k1| == |k2| == n
      && Held(cipher, n, reg, counter, msg)
      && (counter == 0 <==> msg == [])
    }

    /** An object with its subkeys. */
    constructor (cipher: block -> block, n: nat, k1: block, k2: block)
      requires BlockCipher(cipher, n) && |k1| == |k2| == n
      ensures Valid() && msg == [] && this.cipher == cipher && this.n == n && this.k1 == k1 && this.k2 == k2
    {
      this.cipher, this.n, this.k1, this.k2 := cipher, n, k1, k2;
      reg, counter, msg := Zeros(n), 0, [];
      HeldStart(cipher, n);
    }

    method Update(input: block)
      requires Valid()
      modifies this
      ensures Valid() && msg == old(msg) + input && k1 == old(k1) && k2 == old(k2)
    {
      hide Held, XorInto, Chain, BlockCipher;
      if |input| == 0 {
        assert msg + input == msg;
        return;
      }
      var rest := input;
      ghost var all := msg + input;
      if counter > 0 {
        rest := FillPending(input);
      }
      HeldSize(cipher, n, reg, counter, msg);
      if |rest| > n {
        var left;
        reg, left := AbsorbAllButLast(rest);
        assert rest[..|rest| - left] + rest[|rest| - left..] == rest;
        msg := msg + rest[..|rest| - left];
        rest := rest[|rest| - left..];
        assert msg + rest == all;
      }
      if |rest| > 0 {
        HeldExtends(cipher, n, reg, counter, msg, rest);
        reg := XorInto(reg, counter, rest);
        counter := counter + |rest|;
        msg := msg + rest;
      } else {
        assert msg + rest == msg;
      }
    }

    /** Completes the block held back, and lets it go if more input follows. */
    method FillPending(input: block) returns (rest: block)
      requires BlockCipher(cipher, n) && Held(cipher, n, reg, counter, msg) && counter > 0 && |input| > 0
      modifies this`reg, this`counter, this`msg
      ensures Held(cipher, n, reg, counter, msg) && msg + rest == old(msg) + input && msg != []
      ensures rest != [] <==> counter == 0
    {
      hide Held, XorInto, Chain, BlockCipher;
      HeldSize(cipher, n, reg, counter, msg);
      var len := if n - counter < |input| then n - counter else |input|;
      HeldExtends(cipher, n, reg, counter, msg, input[..len]);
      reg := XorInto(reg, counter, input[..len]);
      msg := msg + input[..len];
      rest := input[len..];
      assert input[..len] + rest == input;
      counter := counter + len;
      HeldSize(cipher, n, reg, counter, msg);
      if counter == n && |rest| > 0 {
        HeldFlushes(cipher, n, reg, msg);
        reg, counter := cipher(reg), 0;
      }
      NonEmpty(cipher, n, old(reg), old(counter), old(msg));
    }

    /** Runs the block loop over all but the last byte, so that at least one byte stays. */
    method AbsorbAllButLast(rest: block) returns (reg': block, left: nat)
      requires BlockCipher(cipher, n) && Held(cipher, n, reg, 0, msg) && |rest| > n
      ensures 1 <= left <= n && left <= |rest|
      ensures Held(cipher, n, reg', 0, msg + rest[..|rest| - left])
    {
      hide Held, XorInto, Chain, BlockCipher;
      HeldSize(cipher, n, reg, 0, msg);
      var data := rest[..|rest| - 1];
      var leftOver;
      reg', leftOver := AdvancedProcessBlocks(cipher, reg, data);
      left := 1 + leftOver;
      ghost var blocks := data[..|data| - leftOver];
      assert blocks == rest[..|rest| - left];
      HeldBlocks(cipher, n, reg, msg, blocks);
    }

    /** The tag of everything since the last one, cut to the requested size; longer than a block there is none. */
    method TruncatedFinal(size: nat) returns (ok: bool, mac: block)
      requires Valid()
      modifies this
      ensures Valid() && k1 == old(k1) && k2 == old(k2) && |Zeros(n)| == n
      ensures ok <==> size <= n
      ensures msg == if ok then [] else old(msg)
      ensures ok ==> mac == Tag(cipher, k1, k2, Zeros(n), old(msg))[..size]
      ensures ok ==> IsTag(cipher, k1, k2, Zeros(n), old(msg), size, mac)
    {
      hide XorInto, Chain, Tag, Padded;
      if size > n {
        return false, [];
      }
      TagIsChain(cipher, k1, k2, Zeros(n), msg, size);
      Finish();
      mac := reg[..size];
      counter, reg, msg := 0, Zeros(n), [];
      HeldStart(cipher, n);
      ok := true;
    }

    /** Masks the last block in the register and enciphers it. */
    method Finish()
      requires Valid()
      modifies this`reg
      ensures |Zeros(n)| == n && reg == Tag(cipher, k1, k2, Zeros(n), msg)
    {
      hide XorInto, Chain, Tag, Padded;
      ghost var done, pending := msg[..|msg| - counter], msg[|msg| - counter..];
      ghost var c := Chain(cipher, Zeros(n), done);
      assert done + pending == msg;
      TagOfChain(cipher, k1, k2, Zeros(n), done, pending);
      if counter < n {
        MaskShort(c, pending, k2);
        reg := XorInto(reg, counter, [MARK]);
        reg := Absorb(cipher, reg, k2);
      } else {
        MaskFull(c, pending, k1);
        reg := Absorb(cipher, reg, k1);
      }
    }
  }

  /** Whether no subkey loses a bit that has no polynomial. */
  predicate HasSubkeys(l: block) {
    (Top(l) ==> Supported(|l|)) && (Top(Times(l)) ==> Supported(|l|))
  }

  /** Key setup: K1 is u times the cipher of zero, K2 is u times K1. It fails exactly when one of them loses a bit and
      the block has none of the three supported sizes. */
  method UncheckedSetKey(cipher: block -> block, n: nat) returns (mac: CMAC?)
    requires BlockCipher(cipher, n) && n % 2 == 0
    ensures |cipher(Zeros(n))| == n
    ensures mac != null <==> HasSubkeys(cipher(Zeros(n)))
    ensures mac != null ==>
              && fresh(mac) && mac.Valid() && mac.msg == [] && mac.cipher == cipher && mac.n == n
              && mac.k1 == Times(cipher(Zeros(n))) && mac.k2 == Times(mac.k1)
  {
    hide Times, Top, BlockCipher, Held;
    SubkeySize(cipher, n);
    var l := cipher(Zeros(n));
    var k := new bv8[n](i requires 0 <= i < n => l[i]);
    assert k[..] == l;
    var ok := MulU(k);
    if !ok {
      return null;
    }
    var k1 := k[..];
    ok := MulU(k);
    if !ok {
      return null;
    }
    mac := new CMAC(cipher, n, k1, k[..]);
  }

  lemma SubkeySize(cipher: block -> block, n: nat)
    requires BlockCipher(cipher, n)
    ensures |cipher(Zeros(n))| == n
  {
    assert SizedAt(cipher, n, Zeros(n));
  }

  lemma NonEmpty(cipher: block -> block, n: nat, reg: block, counter: nat, msg: block)
    requires BlockCipher(cipher, n) && Held(cipher, n, reg, counter, msg) && counter > 0
    ensures msg != []
  {}

  lemma HeldSize(cipher: block -> block, n: nat, reg: block, counter: nat, msg: block)
    requires BlockCipher(cipher, n) && Held(cipher, n, reg, counter, msg)
    ensures |reg| == n && counter <= n && n >= 1
  {}
}

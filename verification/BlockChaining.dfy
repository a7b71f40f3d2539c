/** Exclusive-or of byte blocks and the chaining of a block cipher over them, as `AdvancedProcessBlocks` does
    with the flags for in-place exclusive-or input. */
module BlockChaining {
  import opened Remainders

  type block = seq<bv8>

  function Zeros(n: nat): (r: block)
    ensures |r| == n && forall i :: 0 <= i < n ==> r[i] == 0
  {
    seq(n, _ => 0)
  }

  /** a with the bytes of d folded in from position `at` on (`xorbuf`). */
  function XorInto(a: block, at: nat, d: block): (r: block)
    requires at + |d| <= |a|
    ensures |r| == |a|
  {
    seq(|a|, i requires 0 <= i < |a| => if at <= i < at + |d| then a[i] ^ d[i - at] else a[i])
  }

  /** Every byte in reach differs by the folded one, and every other byte stays. */
  lemma XorIntoAt(a: block, at: nat, d: block, i: nat)
    requires at + |d| <= |a| && i < |a|
    ensures XorInto(a, at, d)[i] ^ a[i] == if at <= i < at + |d| then d[i - at] else 0
  {}

  /** Folding the same bytes in twice gives the block back. */
  lemma XorUndone(a: block, at: nat, d: block)
    requires at + |d| <= |a|
    ensures XorInto(XorInto(a, at, d), at, d) == a
  {
    var r := XorInto(XorInto(a, at, d), at, d);
    forall i | 0 <= i < |a| ensures r[i] == a[i] {
    }
  }

  lemma XorComm(a: block, b: block)
    requires |a| == |b|
    ensures XorInto(a, 0, b) == XorInto(b, 0, a)
  {}

  lemma XorTwice(a: block, p: block, d: block)
    requires |p| + |d| <= |a|
    ensures XorInto(XorInto(a, 0, p), |p|, d) == XorInto(a, 0, p + d)
  {}

  /** The cipher turns a block of n bytes into a block of n bytes. */
  ghost predicate SizedAt(cipher: block -> block, n: nat, b: block) {
    |b| == n ==> |cipher(b)| == n
  }

  ghost predicate BlockCipher(cipher: block -> block, n: nat) {
    n >= 1 && forall b :: SizedAt(cipher, n, b)
  }

  /** The cipher applied to the exclusive-or of two blocks. */
  function Absorb(cipher: block -> block, c: block, m: block): (r: block)
    requires BlockCipher(cipher, |c|) && |m| == |c|
    ensures |r| == |c|
  {
    assert SizedAt(cipher, |c|, XorInto(c, 0, m));
    cipher(XorInto(c, 0, m))
  }

  /** Whole blocks chained one after the other (cipher block chaining). */
  function Chain(cipher: block -> block, c: block, msg: block): (r: block)
    requires BlockCipher(cipher, |c|) && |msg| % |c| == 0
    ensures |r| == |c|
    decreases |msg|
  {
    if msg == [] then c
    else
      FirstBlock(|msg|, |c|);
      Chain(cipher, Absorb(cipher, c, msg[..|c|]), msg[|c|..])
  }

  lemma {:induction false} ChainConcat(cipher: block -> block, c: block, a: block, b: block)
    requires BlockCipher(cipher, |c|) && |a| % |c| == 0 && |b| % |c| == 0
    ensures |a + b| % |c| == 0 && Chain(cipher, c, a + b) == Chain(cipher, Chain(cipher, c, a), b)
    decreases |a|
  {
    hide Absorb;
    AddMultiple(|a|, |b|, |c|);
    if a == [] {
      assert a + b == b;
    } else {
      FirstBlock(|a|, |c|);
      FirstBlock(|a + b|, |c|);
      var n := |c|;
      assert (a + b)[..n] == a[..n] && (a + b)[n..] == a[n..] + b;
      ChainConcat(cipher, Absorb(cipher, c, a[..n]), a[n..], b);
    }
  }

  /** The block loop: chains as many whole blocks as the data holds and reports how much is left over. */
  method AdvancedProcessBlocks(cipher: block -> block, c: block, data: block) returns (r: block, leftOver: nat)
    requires BlockCipher(cipher, |c|)
    ensures leftOver == |data| % |c| && leftOver < |c| && leftOver <= |data|
    ensures (|data| - leftOver) % |c| == 0
    ensures |r| == |c| && r == Chain(cipher, c, data[..|data| - leftOver])
  {
    hide Chain, Absorb;
    var n := |c|;
    var i, length := 0, |data|;
    r := c;
    assert data[..0] == [];
    ChainNone(cipher, c);
    while length >= n
      invariant 0 <= i && 0 <= length && i + length == |data| && i % n == 0 && |r| == n
      invariant r == Chain(cipher, c, data[..i])
      decreases length
    {
      OneBlock(cipher, r, data[i..i + n]);
      AddMultiple(i, n, n);
      ChainConcat(cipher, c, data[..i], data[i..i + n]);
      assert data[..i + n] == data[..i] + data[i..i + n];
      r := Absorb(cipher, r, data[i..i + n]);
      i, length := i + n, length - n;
    }
    leftOver := length;
    AddMultiple(i, length, n);
    SmallRemainder(length, n);
  }

  lemma ChainNone(cipher: block -> block, c: block)
    requires BlockCipher(cipher, |c|)
    ensures 0 % |c| == 0 && Chain(cipher, c, []) == c
  {}

  lemma OneBlock(cipher: block -> block, c: block, m: block)
    requires BlockCipher(cipher, |c|) && |m| == |c|
    ensures |m| % |c| == 0 && Chain(cipher, c, m) == Absorb(cipher, c, m)
  {
    RemainderUnique(|m|, |c|, 1, 0);
    FirstBlock(|m|, |c|);
    assert m[..|c|] == m && m[|c|..] == [];
  }

  /** The recurrence of cipher block chaining: each block is combined with what came before and enciphered. */
  lemma ChainStep(cipher: block -> block, c: block, msg: block, b: block) returns (x: block)
    requires BlockCipher(cipher, |c|) && |msg| % |c| == 0 && |b| == |c|
    ensures |msg + b| % |c| == 0 && Chain(cipher, c, msg + b) == cipher(x)
    ensures |x| == |c| && forall i :: 0 <= i < |x| ==> x[i] == Chain(cipher, c, msg)[i] ^ b[i]
  {
    hide Chain, BlockCipher;
    x := XorInto(Chain(cipher, c, msg), 0, b);
    OneBlock(cipher, Chain(cipher, c, msg), b);
    ChainConcat(cipher, c, msg, b);
  }
}

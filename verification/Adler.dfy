/** The Adler-32 checksum (RFC 1950, sections 8.2 and 9) with delayed reduction. */
module Adler {
  import opened Bytes

  const BASE: nat := 65521

  datatype Sums = Sums(s1: nat, s2: nat)

  /** Both sums below the base. */
  predicate Reduced(s: Sums) {
    s.s1 < BASE && s.s2 < BASE
  }

  /** The definition: both sums modulo the base after every byte. */
  function Checksum(s: Sums, msg: seq<byte>): (r: Sums)
    requires Reduced(s)
    ensures Reduced(r)
    decreases |msg|
  {
    if msg == [] then s
    else
      var s1 := (s.s1 + msg[0]) % BASE;
      Checksum(Sums(s1, (s.s2 + s1) % BASE), msg[1..])
  }

  lemma {:induction false} ChecksumConcat(s: Sums, a: seq<byte>, b: seq<byte>)
    requires Reduced(s)
    ensures Checksum(s, a + b) == Checksum(Checksum(s, a), b)
    decreases |a|
  {
    if a == [] {
      assert a + b == b;
    } else {
      var s1 := (s.s1 + a[0]) % BASE;
      assert (a + b)[1..] == a[1..] + b;
      ChecksumConcat(Sums(s1, (s.s2 + s1) % BASE), a[1..], b);
    }
  }

  /** The same sums without any reduction. */
  function Raw(s: Sums, msg: seq<byte>): Sums
    decreases |msg|
  {
    if msg == [] then s
    else Raw(Sums(s.s1 + msg[0], s.s2 + s.s1 + msg[0]), msg[1..])
  }

  function Mod(s: Sums): (r: Sums)
    ensures Reduced(r)
  {
    Sums(s.s1 % BASE, s.s2 % BASE)
  }

  // The closed form ------------------------------------------------------------------------------------

  function Total(msg: seq<byte>): nat {
    if msg == [] then 0 else msg[0] + Total(msg[1..])
  }

  /** Every byte times the number of bytes from it on. */
  function Weighted(msg: seq<byte>): nat {
    if msg == [] then 0 else |msg| * msg[0] + Weighted(msg[1..])
  }

  lemma {:induction false} RawIs(s: Sums, msg: seq<byte>)
    ensures Raw(s, msg) == Sums(s.s1 + Total(msg), s.s2 + |msg| * s.s1 + Weighted(msg))
    decreases |msg|
  {
    if msg == [] {
    } else {
      RawIs(Sums(s.s1 + msg[0], s.s2 + s.s1 + msg[0]), msg[1..]);
      WeightStep(|msg|, s.s1, msg[0]);
    }
  }

  lemma WeightStep(n: nat, a: nat, b: nat)
    requires n > 0
    ensures a + b + (n - 1) * (a + b) == n * a + n * b
  {}

  /** RFC 1950, section 8.2: s1 is one plus all bytes, s2 the sum of all values of s1, both modulo 65521. */
  lemma ChecksumIs(msg: seq<byte>)
    ensures Checksum(Sums(1, 0), msg) == Sums((1 + Total(msg)) % 65521, (|msg| + Weighted(msg)) % 65521)
  {
    hide Checksum, Raw, Total, Weighted;
    RawIs(Sums(1, 0), msg);
    RawReduces(Sums(1, 0), msg);
  }

  lemma ModAdd(a: nat, b: nat, c: nat)
    requires b % BASE == c % BASE
    ensures (a % BASE + b) % BASE == (a + c) % BASE
  {}

  /** Reducing at the end gives the same as reducing after every byte. */
  lemma {:induction false} RawReduces(s: Sums, msg: seq<byte>)
    ensures Mod(Raw(s, msg)) == Checksum(Mod(s), msg)
    decreases |msg|
  {
    if msg == [] {
    } else {
      hide Mod;
      var t := Sums(s.s1 + msg[0], s.s2 + s.s1 + msg[0]);
      RawReduces(t, msg[1..]);
      ModStep(s, t, msg[0]);
    }
  }

  lemma ModStep(s: Sums, t: Sums, b: byte)
    requires t == Sums(s.s1 + b, s.s2 + s.s1 + b)
    ensures var s1 := (Mod(s).s1 + b) % BASE; Mod(t) == Sums(s1, (Mod(s).s2 + s1) % BASE)
  {
    ModAdd(s.s1, b, b);
    ModAdd(s.s2, t.s1 % BASE, t.s1);
  }

  lemma {:induction false} RawConcat(s: Sums, a: seq<byte>, b: seq<byte>)
    ensures Raw(s, a + b) == Raw(Raw(s, a), b)
    decreases |a|
  {
    if a == [] {
      assert a + b == b;
    } else {
      assert (a + b)[1..] == a[1..] + b;
      RawConcat(Sums(s.s1 + a[0], s.s2 + s.s1 + a[0]), a[1..], b);
    }
  }

  /** Over at most eight bytes the sums grow by a known amount. */
  lemma {:induction false} RawBounds(s: Sums, msg: seq<byte>, m: nat)
    requires s.s1 + 255 * |msg| <= m
    ensures s.s1 <= Raw(s, msg).s1 <= s.s1 + 255 * |msg|
    ensures s.s2 <= Raw(s, msg).s2 <= s.s2 + m * |msg|
    decreases |msg|
  {
    if msg == [] {
    } else {
      RawBounds(Sums(s.s1 + msg[0], s.s2 + s.s1 + msg[0]), msg[1..], m);
      assert m * |msg| == m * |msg[1..]| + m;
    }
  }

  /** The bound on s2 with n bytes still to come: at most 0x8000 bytes since the last reduction. */
  function Headroom(n: nat): (r: nat)
    ensures BASE - 1 <= r && r + 8 * 67560 < 0x1_0000_0000
  {
    BASE - 1 + (if n % 0x8000 == 0 then 0 else 0x8000 - n % 0x8000) * 67560
  }

  class Adler32 {
    var s1: nat
    var s2: nat

    ghost predicate Valid()
      reads this
    {
      s1 < BASE && s2 < BASE
    }

    constructor ()
      ensures Valid() && s1 == 1 && s2 == 0
    {
      s1, s2 := 1, 0;
    }

    /** One call advances the checksum by its input; no intermediate sum leaves 32 bits. */
    method Update(input: seq<byte>)
      requires Valid()
      modifies this
      ensures Valid() && Sums(s1, s2) == Checksum(old(Sums(s1, s2)), input)
    {
      hide Mod, Headroom, Checksum, Raw;
      var t, i := Sums(s1, s2), 0;
      ghost var start := t;
      if |input| % 8 != 0 {
        t, i := FirstBytes(t, input);
      } else {
        assert input[..0] == [];
        ChecksumNone(start);
      }
      Begins(start, t, input, i);
      while i < |input|
        invariant 0 <= i <= |input| && (|input| - i) % 8 == 0
        invariant t.s1 < BASE && t.s2 <= Headroom(|input| - i)
        invariant Mod(t) == Checksum(start, input[..i])
      {
        HeadroomShrinks(|input| - i);
        var u := EightBytes(t, input, i);
        BlockStep(start, t, u, input, i);
        i := i + 8;
        t := Sums(if u.s1 >= BASE then u.s1 - BASE else u.s1,
            if (|input| - i) % 0x8000 == 0 then u.s2 % BASE else u.s2);
      }
      Ends(t);
      assert input[..|input|] == input;
      s1, s2 := t.s1, t.s2;
    }

    /** The digest, most significant byte first, cut to the requested size; the state starts over. There is no digest
        of more than four bytes. */
    method TruncatedFinal(size: nat) returns (ok: bool, hash: seq<byte>)
      requires Valid()
      modifies this
      ensures Valid() && (ok <==> size <= 4)
      ensures ok ==> s1 == 1 && s2 == 0 && hash == old([s2 / 256, s2 % 256, s1 / 256, s1 % 256])[..size]
      ensures !ok ==> s1 == old(s1) && s2 == old(s2)
    {
      hash := [];
      ok := size <= 4;
      if !ok {
        return;
      }
      if size >= 1 { hash := hash + [s2 / 256]; }
      if size >= 2 { hash := hash + [s2 % 256]; }
      if size >= 3 { hash := hash + [s1 / 256]; }
      if size >= 4 { hash := hash + [s1 % 256]; }
      s1, s2 := 1, 0;
    }
  }

  lemma HeadroomShrinks(n: nat)
    requires n >= 8 && n % 8 == 0
    ensures (n - 8) % 8 == 0
    ensures (n - 8) % 0x8000 != 0 ==> Headroom(n) + 8 * 67560 <= Headroom(n - 8)
    ensures (n - 8) % 0x8000 == 0 ==> Headroom(n - 8) == BASE - 1
  {
    Phase(n);
  }

  lemma Phase(n: nat)
    requires n >= 8 && n % 8 == 0
    ensures n % 0x8000 % 8 == 0
    ensures (n - 8) % 0x8000 == if n % 0x8000 == 0 then 0x7ff8 else n % 0x8000 - 8
  {
    var q, m := n / 0x8000, n % 0x8000;
    assert n == 0x8000 * q + m;
    assert m % 8 == 0;
  }

  /** One conditional subtraction reduces a sum below twice the base. */
  lemma SubtractOnce(u: Sums)
    requires u.s1 < 2 * BASE
    ensures (if u.s1 >= BASE then u.s1 - BASE else u.s1) == u.s1 % BASE
  {}

  lemma Begins(start: Sums, t: Sums, input: seq<byte>, i: nat)
    requires Reduced(start) && Reduced(t) && i <= |input| && t == Checksum(start, input[..i])
    ensures Mod(t) == t && t.s2 <= Headroom(|input| - i)
  {
    hide Headroom, Checksum;
  }

  lemma ChecksumNone(s: Sums)
    requires Reduced(s)
    ensures Checksum(s, []) == s
  {}

  lemma Ends(t: Sums)
    requires t.s1 < BASE && t.s2 <= Headroom(0)
    ensures Mod(t) == t && t.s2 < BASE
  {}

  /** After a block and its reductions, the sums are again those of the definition, modulo the base. */
  lemma BlockStep(start: Sums, t: Sums, u: Sums, input: seq<byte>, i: nat)
    requires Reduced(start) && i + 8 <= |input| && u == Raw(t, input[i..i + 8]) && u.s1 < 2 * BASE
    requires Mod(t) == Checksum(start, input[..i])
    ensures var a := if u.s1 >= BASE then u.s1 - BASE else u.s1;
            && a < BASE
            && Mod(Sums(a, u.s2)) == Checksum(start, input[..i + 8])
            && Mod(Sums(a, u.s2 % BASE)) == Checksum(start, input[..i + 8]) && u.s2 % BASE < BASE
  {
    hide Checksum, Raw;
    var block := input[i..i + 8];
    assert input[..i + 8] == input[..i] + block;
    ChecksumConcat(start, input[..i], block);
    RawReduces(t, block);
    SubtractOnce(u);
  }

  /** The bytes that bring the remaining length to a multiple of eight. */
  method FirstBytes(s: Sums, input: seq<byte>) returns (t: Sums, i: nat)
    requires Reduced(s) && |input| % 8 != 0
    ensures i <= |input| && (|input| - i) % 8 == 0 && Reduced(t) && t == Checksum(s, input[..i])
  {
    hide Checksum, Raw, Add32, Mod;
    var n := |input| % 8;
    t, i := s, 0;
    RawNone(s);
    assert input[..0] == [];
    while (|input| - i) % 8 != 0
      invariant 0 <= i <= n && t == Raw(s, input[..i])
      decreases n - i
    {
      assert i < n;
      RawBounds(s, input[..i], BASE + 8 * 255);
      RawAppend(s, input[..i], input[i]);
      assert input[..i + 1] == input[..i] + [input[i]];
      var a := Add32(t.s1, input[i]);
      var b := Add32(t.s2, a);
      t, i := Sums(a, b), i + 1;
    }
    RawBounds(s, input[..i], BASE + 8 * 255);
    RawReduces(s, input[..i]);
    FirstReduction(s, t);
    t := Sums(if t.s1 >= BASE then t.s1 - BASE else t.s1, t.s2 % BASE);
  }

  lemma RawNone(s: Sums)
    ensures Raw(s, []) == s
  {}

  lemma RawAppend(s: Sums, m: seq<byte>, b: byte)
    ensures var r := Raw(s, m); Raw(s, m + [b]) == Sums(r.s1 + b, r.s2 + r.s1 + b)
  {
    RawConcat(s, m, [b]);
    RawNone(Sums(Raw(s, m).s1 + b, Raw(s, m).s2 + Raw(s, m).s1 + b));
  }

  lemma FirstReduction(s: Sums, t: Sums)
    requires Reduced(s) && t.s1 < 2 * BASE
    ensures Mod(s) == s && Mod(t) == Sums(if t.s1 >= BASE then t.s1 - BASE else t.s1, t.s2 % BASE)
  {
    SubtractOnce(t);
  }

  /** The unrolled block. */
  method EightBytes(s: Sums, input: seq<byte>, at: nat) returns (t: Sums)
    requires s.s1 < BASE && s.s2 + 8 * 67560 < 0x1_0000_0000 && at + 8 <= |input|
    ensures t == Raw(s, input[at..at + 8])
    ensures t.s1 < 2 * BASE && t.s2 <= s.s2 + 8 * 67560
  {
    hide Add32, Raw;
    var a, b := s.s1, s.s2;
    a := Add32(a, input[at]);     b := Add32(b, a);
    a := Add32(a, input[at + 1]); b := Add32(b, a);
    a := Add32(a, input[at + 2]); b := Add32(b, a);
    a := Add32(a, input[at + 3]); b := Add32(b, a);
    a := Add32(a, input[at + 4]); b := Add32(b, a);
    a := Add32(a, input[at + 5]); b := Add32(b, a);
    a := Add32(a, input[at + 6]); b := Add32(b, a);
    a := Add32(a, input[at + 7]); b := Add32(b, a);
    t := Sums(a, b);
    RawEight(s, input[at..at + 8]);
  }

  lemma RawEight(s: Sums, m: seq<byte>)
    requires |m| == 8
    ensures var a1 := s.s1 + m[0]; var a2 := a1 + m[1]; var a3 := a2 + m[2]; var a4 := a3 + m[3];
            var a5 := a4 + m[4]; var a6 := a5 + m[5]; var a7 := a6 + m[6]; var a8 := a7 + m[7];
            Raw(s, m) == Sums(a8, s.s2 + a1 + a2 + a3 + a4 + a5 + a6 + a7 + a8)
  {
    hide Raw;
    assert m == m[..4] + m[4..];
    RawConcat(s, m[..4], m[4..]);
    RawFour(s, m[..4]);
    RawFour(Raw(s, m[..4]), m[4..]);
  }

  lemma RawFour(s: Sums, m: seq<byte>)
    requires |m| == 4
    ensures var a1 := s.s1 + m[0]; var a2 := a1 + m[1]; var a3 := a2 + m[2]; var a4 := a3 + m[3];
            Raw(s, m) == Sums(a4, s.s2 + a1 + a2 + a3 + a4)
  {
    hide Raw;
    assert m == [] + [m[0]] + [m[1]] + [m[2]] + [m[3]];
    RawNone(s);
    RawAppend(s, [], m[0]);
    RawAppend(s, [] + [m[0]], m[1]);
    RawAppend(s, [] + [m[0]] + [m[1]], m[2]);
    RawAppend(s, [] + [m[0]] + [m[1]] + [m[2]], m[3]);
  }
}

/** The length octets of BER and DER (X.690 sections 8.1.3 and 10.1). */
module AsnLength {
  import opened Bytes
  import opened BerSource

  function Pow256(k: nat): (r: nat)
    ensures r >= 1
  {
    if k == 0 then 1 else 256 * Pow256(k - 1)
  }

  lemma Pow256Step(k: nat)
    ensures Pow256(k + 1) == 256 * Pow256(k)
  {}

  lemma {:induction false} Pow256Monotone(j: nat, k: nat)
    requires j <= k
    ensures Pow256(j) <= Pow256(k)
    decreases k
  {
    if j >= k {
    } else {
      Pow256Monotone(j, k - 1);
    }
  }

  /** The number of bytes a value needs. */
  function BytePrecision(n: nat): nat {
    if n == 0 then 0 else 1 + BytePrecision(n / 256)
  }

  lemma {:induction false} BytePrecisionIs(n: nat)
    ensures n < Pow256(BytePrecision(n))
    ensures n > 0 ==> BytePrecision(n) >= 1 && Pow256(BytePrecision(n) - 1) <= n
  {
    if n == 0 {
    } else {
      BytePrecisionIs(n / 256);
    }
  }

  lemma {:induction false} BytePrecisionBound(n: nat, k: nat)
    requires n < Pow256(k)
    ensures BytePrecision(n) <= k
    decreases k
  {
    if n == 0 {
    } else {
      BytePrecisionBound(n / 256, k - 1);
    }
  }

  /** The value of bytes, most significant first. */
  function Value(s: seq<byte>): nat
    decreases |s|
  {
    if s == [] then 0 else 256 * Value(s[..|s| - 1]) + s[|s| - 1]
  }

  function BigEndian(n: nat, k: nat): (r: seq<byte>)
    ensures |r| == k
    decreases k
  {
    if k == 0 then [] else BigEndian(n / 256, k - 1) + [n % 256]
  }

  lemma {:induction false} ValueBigEndian(n: nat, k: nat)
    requires n < Pow256(k)
    ensures Value(BigEndian(n, k)) == n
    decreases k
  {
    if k == 0 {
    } else {
      ValueBigEndian(n / 256, k - 1);
      assert BigEndian(n, k)[..k - 1] == BigEndian(n / 256, k - 1);
    }
  }

  lemma {:induction false} ValueBound(s: seq<byte>)
    ensures Value(s) < Pow256(|s|)
  {
    if s == [] {
    } else {
      ValueBound(s[..|s| - 1]);
    }
  }

  lemma ValueNone()
    ensures Value([]) == 0
  {}

  lemma ValueAppend(s: seq<byte>, b: byte)
    ensures Value(s + [b]) == 256 * Value(s) + b
  {
    assert (s + [b])[..|s|] == s;
  }

  /** More bytes do not make the value smaller. */
  lemma {:induction false} ValuePrefix(s: seq<byte>, j: nat)
    requires j <= |s|
    ensures Value(s[..j]) <= Value(s)
  {
    if j < |s| {
      assert s[..|s| - 1][..j] == s[..j];
      ValuePrefix(s[..|s| - 1], j);
    } else {
      assert s[..j] == s;
    }
  }

  // The codec ------------------------------------------------------------------------------------------

  function DerLength(n: nat): (r: seq<byte>)
    requires n < Pow256(8)
    ensures 1 <= |r| <= 9
  {
    BytePrecisionBound(n, 8);
    if n <= 127 then [n] else [128 + BytePrecision(n)] + BigEndian(n, BytePrecision(n))
  }

  datatype Length = Definite(length: nat, used: nat) | Indefinite | Truncated | Overflow

  /** The long form with k length bytes, of which a value has been read. */
  function LongForm(k: nat, value: nat, s: seq<byte>, used: nat): Length
    decreases k
  {
    if k == 0 then Definite(value, used)
    else if value >= Pow256(7) then Overflow
    else if s == [] then Truncated
    else LongForm(k - 1, 256 * value + s[0], s[1..], used + 1)
  }

  /** The length octets at the front of a string. */
  function BerLength(s: seq<byte>): (r: Length)
    ensures r.Indefinite? ==> s != []
  {
    if s == [] then Truncated
    else if s[0] < 128 then Definite(s[0], 1)
    else if s[0] == 128 then Indefinite
    else LongForm(s[0] - 128, 0, s[1..], 1)
  }

  /** A long form has the value of its bytes, and overflows exactly when that does not fit 64 bits. */
  lemma {:induction false} LongFormIs(k: nat, front: seq<byte>, s: seq<byte>, used: nat)
    requires k <= |s| && Value(front) < Pow256(8)
    ensures LongForm(k, Value(front), s, used)
            == if Value(front + s[..k]) < Pow256(8) then Definite(Value(front + s[..k]), used + k) else Overflow
    decreases k
  {
    hide Pow256, Value;
    if k == 0 {
      assert front + s[..0] == front;
    } else {
      ValueAppend(front, s[0]);
      var front' := front + [s[0]];
      assert front + s[..k] == front' + s[1..][..k - 1];
      assert (front + s[..k])[..|front'|] == front';
      ValuePrefix(front + s[..k], |front'|);
      assert Pow256(8) == 256 * Pow256(7) by { Pow256Step(7); }
      if Value(front) < Pow256(7) {
        LongFormIs(k - 1, front', s[1..], used + 1);
      }
    }
  }

  /** Decoding an encoded length gives it back and takes exactly its octets. */
  lemma LengthRoundTrip(n: nat, rest: seq<byte>)
    requires n < Pow256(8)
    ensures BerLength(DerLength(n) + rest) == Definite(n, |DerLength(n)|)
  {
    hide Pow256, Value, LongForm, BigEndian, BytePrecision;
    if n > 127 {
      var k, s := BytePrecision(n), (DerLength(n) + rest)[1..];
      BytePrecisionIs(n);
      BytePrecisionBound(n, 8);
      ValueNone();
      assert s == BigEndian(n, k) + rest;
      ValueBigEndian(n, k);
      assert [] + s[..k] == BigEndian(n, k);
      LongFormIs(k, [], s, 1);
    }
  }

  /** No definite form is shorter than the encoder's. */
  lemma LengthMinimal(s: seq<byte>)
    requires BerLength(s).Definite?
    ensures var d := BerLength(s); d.length < Pow256(8) && |DerLength(d.length)| <= d.used <= |s|
  {
    if s[0] < 128 {
      Pow256Monotone(1, 8);
      assert Pow256(1) == 256 * Pow256(0);
    } else {
      var k := s[0] - 128;
      LongFormEnough(k, 0, s[1..], 1);
      LongFormIs(k, [], s[1..], 1);
      var n := BerLength(s).length;
      assert [] + s[1..][..k] == s[1..][..k];
      ValueBound(s[1..][..k]);
      BytePrecisionBound(n, k);
    }
  }

  lemma {:induction false} LongFormEnough(k: nat, value: nat, s: seq<byte>, used: nat)
    requires LongForm(k, value, s, used).Definite?
    ensures k <= |s|
    decreases k
  {
    if k == 0 {
    } else {
      LongFormEnough(k - 1, 256 * value + s[0], s[1..], used + 1);
    }
  }

  method DERLengthEncode(length: nat) returns (out: seq<byte>, i: nat)
    requires length < Pow256(8)
    ensures out == DerLength(length) && i == |out|
  {
    hide Pow256, BigEndian, BytePrecision;
    out, i := [], 0;
    if length <= 0x7f {
      out, i := [length], 1;
    } else {
      BytePrecisionBound(length, 8);
      out, i := [BytePrecision(length) + 0x80], 1;
      var j, n := BytePrecision(length), BytePrecision(length);
      ghost var done: nat := 0;
      while j > 0
        invariant 0 <= j <= n && done == n - j && i == 1 + done
        invariant out == [n + 128] + BigEndian(length, n)[..done]
      {
        BigEndianAt(length, n, done);
        out := out + [ShiftedByte(length, j - 1)];
        i, j, done := i + 1, j - 1, done + 1;
      }
      assert BigEndian(length, n)[..n] == BigEndian(length, n);
    }
  }

  /** `byte(n >> k * 8)` */
  function ShiftedByte(n: nat, k: nat): byte {
    if k == 0 then n % 256 else ShiftedByte(n / 256, k - 1)
  }

  lemma {:induction false} BigEndianAt(n: nat, k: nat, i: nat)
    requires i < k
    ensures BigEndian(n, k)[i] == ShiftedByte(n, k - 1 - i)
    decreases k
  {
    if i >= k - 1 {
    } else {
      BigEndianAt(n / 256, k - 1, i);
    }
  }

  /** Reads the length octets; reports an overflow or the end of the data. */
  method BERLengthDecode(source: Source) returns (r: Length)
    modifies source`data, source`frames
    ensures old(source.Nested()) ==> source.Nested()
    ensures r == BerLength(old(source.Visible()))
    ensures r.Definite? ==>
      source.Moved(old(source.data), old(source.frames), r.used) && source.Visible() == old(source.Visible())[r.used..]
    ensures r.Indefinite? ==>
      source.Moved(old(source.data), old(source.frames), 1) && source.Visible() == old(source.Visible())[1..]
  {
    hide Room, Debited, AfterRead, Source.Nested;
    ghost var s := source.Visible();
    ghost var data0, frames0 := source.data, source.frames;
    var b := source.Get(1);
    if |b| == 0 {
      return Truncated;
    }
    if b[0] < 128 {
      return Definite(b[0], 1);
    }
    var lengthBytes := b[0] - 128;
    if lengthBytes == 0 {
      return Indefinite;
    }
    var length: nat, used: nat := 0, 1;
    assert s[1..] == source.Visible();
    while lengthBytes > 0
      invariant 0 <= lengthBytes && used <= |s| && source.Visible() == s[used..] && source.Moved(data0, frames0, used)
      invariant old(source.Nested()) ==> source.Nested()
      invariant BerLength(s) == LongForm(lengthBytes, length, s[used..], used)
    {
      lengthBytes := lengthBytes - 1;
      if length >= Pow256(7) {
        return Overflow;
      }
      ghost var data1, frames1 := source.data, source.frames;
      b := source.Get(1);
      if |b| == 0 {
        return Truncated;
      }
      source.MovedOn(data0, frames0, data1, frames1, used, 1);
      assert s[used..][1..] == s[used + 1..] && s[used..][0] == b[0];
      length := 256 * length + b[0];
      used := used + 1;
    }
    r := Definite(length, used);
  }

  /** Takes an expected tag and definite length octets. */
  method ReadHeader(source: Source, tag: byte) returns (length: Option<nat>)
    modifies source`data, source`frames
    ensures var s := old(source.Visible());
            && (length.Some? <==> s != [] && s[0] == tag && BerLength(s[1..]).Definite?)
            && (length.Some? ==>
                  var l := BerLength(s[1..]);
                  && length.value == l.length && 1 + l.used <= |s|
                  && source.Moved(old(source.data), old(source.frames), 1 + l.used)
                  && source.Visible() == s[1 + l.used..])
  {
    hide Room, Debited, BerLength, AfterRead, Source.Nested, Source.Visible;
    ghost var s, data0, frames0 := source.Visible(), source.data, source.frames;
    var b := source.Get(1);
    if |b| == 0 || b[0] != tag {
      return None;
    }
    assert source.Visible() == s[1..];
    ghost var data1, frames1 := source.data, source.frames;
    var l := BERLengthDecode(source);
    if !l.Definite? {
      return None;
    }
    LengthMinimal(s[1..]);
    assert s[1..][l.used..] == s[1 + l.used..];
    source.MovedOn(data0, frames0, data1, frames1, 1, l.used);
    length := Some(l.length);
  }
}

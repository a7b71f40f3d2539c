/** Unsigned integers, enumerations and booleans (X.690 sections 8.2 and 8.3). */
module AsnUnsigned {
  import opened Bytes
  import opened BerSource
  import opened AsnLength

  const BOOLEAN: byte := 1

  /** The fewest bytes that hold the value and start with a clear sign bit. */
  function Content(w: nat): (r: seq<byte>)
    ensures |r| >= 1
  {
    if w == 0 then [0]
    else
      BytePrecisionIs(w);
      var b := BigEndian(w, BytePrecision(w));
      if b[0] >= 128 then [0] + b else b
  }

  function ContentOf(w: nat, tag: byte): (r: seq<byte>)
    ensures |r| >= 1
  {
    if tag != BOOLEAN then Content(w) else if w == 0 then [0] else [255]
  }

  lemma ContentSize(w: nat, size: nat)
    requires w < Pow256(size) && size >= 1
    ensures |Content(w)| <= size + 1
  {
    BytePrecisionBound(w, size);
  }

  lemma {:induction false} ValueLeadingZero(s: seq<byte>)
    ensures Value([0] + s) == Value(s)
  {
    if s != [] {
      ValueLeadingZero(s[..|s| - 1]);
      assert ([0] + s)[..|s|] == [0] + s[..|s| - 1];
    } else {
      assert ([0] + s)[..0] == [];
    }
  }

  lemma ContentValue(w: nat)
    ensures Value(Content(w)) == w
  {
    if w == 0 {
      assert [0][..0] == [];
    } else {
      BytePrecisionIs(w);
      ValueBigEndian(w, BytePrecision(w));
      ValueLeadingZero(BigEndian(w, BytePrecision(w)));
    }
  }

  /** The value with the first byte in front. */
  lemma {:induction false} ValueFirst(s: seq<byte>)
    requires s != []
    ensures Pow256(|s| - 1) * s[0] <= Value(s)
    ensures s[0] == 0 ==> Value(s) == Value(s[1..])
  {
    if |s| == 1 {
      assert s[..0] == [] && s[1..] == [];
    } else {
      var n := |s| - 1;
      ValueFirst(s[..n]);
      assert Pow256(n) * s[0] == 256 * (Pow256(n - 1) * s[0]);
      assert s[1..][..n - 1] == s[..n][1..];
    }
  }

  /** Minimal (section 8.3.2): the first nine bits are not all zero, and no other non-negative form is shorter. */
  lemma ContentMinimal(w: nat, c: seq<byte>)
    requires |c| >= 1 && c[0] < 128 && Value(c) == w
    ensures Content(w)[0] < 128 && (|Content(w)| > 1 && Content(w)[0] == 0 ==> Content(w)[1] >= 128)
    ensures |Content(w)| <= |c|
  {
    if w > 0 {
      var k := BytePrecision(w);
      BytePrecisionIs(w);
      ValueBound(c);
      BytePrecisionBound(w, |c|);
      var b := BigEndian(w, k);
      TopByteAt(w, k);
      if b[0] >= 128 && |c| == k {
        ValueBigEndian(w, k);
        FirstByteOf(c, b);
      }
    }
  }

  /** Strings of the same length and value have the same first byte. */
  lemma FirstByteOf(c: seq<byte>, b: seq<byte>)
    requires |c| == |b| >= 1 && Value(c) == Value(b)
    ensures c == b
  {
    if |c| == 1 {
      assert c[..0] == [] && b[..0] == [] && c == [c[0]] && b == [b[0]];
    } else {
      FirstByteOf(c[..|c| - 1], b[..|b| - 1]);
      assert c == c[..|c| - 1] + [c[|c| - 1]] && b == b[..|b| - 1] + [b[|b| - 1]];
    }
  }

  /** The top byte of a value that fits k bytes is zero exactly when it fits k - 1. */
  lemma {:induction false} TopByte(w: nat, k: nat)
    requires k >= 1 && w < Pow256(k)
    ensures ShiftedByte(w, k - 1) == 0 <==> w < Pow256(k - 1)
    decreases k
  {
    if k <= 1 {
    } else {
      TopByte(w / 256, k - 1);
    }
  }

  lemma TopByteAt(w: nat, k: nat)
    requires k >= 1 && w < Pow256(k)
    ensures BigEndian(w, k)[0] == 0 <==> w < Pow256(k - 1)
  {
    BigEndianAt(w, k, 0);
    TopByte(w, k);
  }

  lemma {:induction false} BigEndianTail(n: nat, k: nat, j: nat)
    requires j <= k
    ensures BigEndian(n, k)[k - j..] == BigEndian(n, j)
    decreases j
  {
    if j == 0 {
    } else {
      BigEndianTail(n / 256, k - 1, j - 1);
    }
  }

  lemma FitsMore(w: nat, k: nat)
    requires w < Pow256(k)
    ensures ShiftedByte(w, k) == 0
  {
    Pow256Monotone(k, k + 1);
    TopByte(w, k + 1);
  }

  lemma ContentIs(w: nat, k: nat)
    requires k >= 1 && w < Pow256(k) && (k == 1 || w >= Pow256(k - 1))
    ensures var b := BigEndian(w, k); Content(w) == if b[0] >= 128 then [0] + b else b
  {
    BytePrecisionIs(w);
    var p := BytePrecision(w);
    if w == 0 {
      assert BigEndian(0, 1) == [0];
    } else {
      BytePrecisionBound(w, k);
      if p < k { Pow256Monotone(p, k - 1); }
    }
  }

  function Encoded(w: nat, tag: byte): seq<byte>
    requires |ContentOf(w, tag)| < Pow256(8)
  {
    [tag] + DerLength(|ContentOf(w, tag)|) + ContentOf(w, tag)
  }

  datatype Word = Word(value: nat, used: nat)

  datatype Octets = Octets(content: seq<byte>, used: nat)

  /** The content of an element of definite length at the front of a string. */
  function ContentAt(s: seq<byte>, tag: byte): Option<Octets> {
    if s == [] || s[0] != tag || !BerLength(s[1..]).Definite? then None
    else
      LengthMinimal(s[1..]);
      var l := BerLength(s[1..]);
      var end := 1 + l.used + l.length;
      if end > |s| then None else Some(Octets(s[1 + l.used..end], end))
  }

  /** What a decoder of words of some size must make of a string: the value, if it fits the word and the range. */
  function Decoded(s: seq<byte>, size: nat, tag: byte, min: nat, max: nat): Option<Word> {
    match ContentAt(s, tag)
    case None => None
    case Some(c) =>
      var w := Value(c.content);
      if w < Pow256(size) && min <= w <= max then Some(Word(w, c.used)) else None
  }

  /** The decoder reads the encoder's octets and no more. */
  lemma DecodedContent(w: nat, tag: byte, size: nat, min: nat, max: nat, rest: seq<byte>)
    requires |ContentOf(w, tag)| < Pow256(8)
    ensures var v := Value(ContentOf(w, tag));
            Decoded(Encoded(w, tag) + rest, size, tag, min, max)
            == if v < Pow256(size) && min <= v <= max then Some(Word(v, |Encoded(w, tag)|)) else None
  {
    hide BerLength, DerLength, ContentOf, Value, Pow256;
    var c := ContentOf(w, tag);
    var d, s := DerLength(|c|), Encoded(w, tag) + rest;
    assert s[1..] == d + (c + rest);
    LengthRoundTrip(|c|, c + rest);
    assert s[1 + |d|..1 + |d| + |c|] == c;
  }

  /** Everything but a boolean comes back. */
  lemma RoundTrip(w: nat, tag: byte, size: nat, min: nat, max: nat, rest: seq<byte>)
    requires tag != BOOLEAN && size >= 1 && w < Pow256(size) && size + 1 < Pow256(8) && min <= w <= max
    ensures |ContentOf(w, tag)| < Pow256(8)
    ensures Decoded(Encoded(w, tag) + rest, size, tag, min, max) == Some(Word(w, |Encoded(w, tag)|))
  {
    hide Decoded, Encoded, Pow256;
    ContentSize(w, size);
    ContentValue(w);
    DecodedContent(w, tag, size, min, max, rest);
  }

  /** A boolean comes back exactly when it is 0 or 255. */
  lemma BooleanIff(w: nat, size: nat, min: nat, max: nat, rest: seq<byte>)
    requires size >= 1 && w < Pow256(size) && min <= w <= max
    ensures |ContentOf(w, BOOLEAN)| < Pow256(8)
    ensures Decoded(Encoded(w, BOOLEAN) + rest, size, BOOLEAN, min, max) == Some(Word(w, |Encoded(w, BOOLEAN)|))
            <==> w == 0 || w == 255
  {
    hide Decoded, Encoded;
    assert Pow256(1) == 256 * Pow256(0);
    Pow256Monotone(1, 8);
    Pow256Monotone(1, size);
    var c := ContentOf(w, BOOLEAN);
    assert c[..0] == [];
    assert Value(c) == c[0];
    DecodedContent(w, BOOLEAN, size, min, max, rest);
  }

  // The templates --------------------------------------------------------------------------------------

  method DEREncodeUnsigned(w: nat, size: nat, tag: byte) returns (out: seq<byte>)
    requires size >= 1 && w < Pow256(size) && size + 1 < Pow256(8)
    ensures |ContentOf(w, tag)| < Pow256(8) && out == Encoded(w, tag)
  {
    hide Pow256, DerLength, BigEndian, Content;
    ContentSize(w, size);
    var buf := new byte[size + 1](i => 0);
    var bc: nat;
    if tag == BOOLEAN {
      buf[size] := if w != 0 then 0xff else 0;
      bc := 1;
      assert buf[size..] == ContentOf(w, tag);
    } else {
      WriteWord(buf, w, size);
      bc := Trim(buf, w, size);
    }
    var length, n := DERLengthEncode(bc);
    out := [tag] + length + buf[size + 1 - bc..];
  }

  /** The word behind a zero byte. */
  method WriteWord(buf: array<byte>, w: nat, size: nat)
    requires buf.Length == size + 1
    modifies buf
    ensures buf[..] == [0] + BigEndian(w, size)
  {
    buf[0] := 0;
    for i := 0 to size
      invariant buf[0] == 0 && buf[1..i + 1] == BigEndian(w, size)[..i]
    {
      BigEndianAt(w, size, i);
      buf[i + 1] := ShiftedByte(w, size - 1 - i);
      assert buf[1..i + 2] == buf[1..i + 1] + [buf[i + 1]];
    }
    assert buf[1..size + 1] == BigEndian(w, size);
  }

  /** How many bytes of the buffer to keep: the leading zeros go, but for one in front of a set sign bit. */
  method Trim(buf: array<byte>, w: nat, size: nat) returns (bc: nat)
    requires size >= 1 && w < Pow256(size) && buf.Length == size + 1 && buf[..] == [0] + BigEndian(w, size)
    ensures 1 <= bc <= size + 1 && buf[size + 1 - bc..] == Content(w)
  {
    hide Pow256, BigEndian, Content;
    bc := TrimZeros(buf, w, size);
    ContentIs(w, bc);
    if buf[size + 1 - bc] >= 128 {
      ghost var all := BigEndian(w, size);
      assert buf[size - bc] == buf[..][size - bc] == ([0] + all)[size - bc];
      if bc < size {
        BigEndianAt(w, size, size - bc - 1);
        FitsMore(w, bc);
      }
      assert buf[size - bc..] == [buf[size - bc]] + buf[size + 1 - bc..];
      bc := bc + 1;
    }
  }

  method TrimZeros(buf: array<byte>, w: nat, size: nat) returns (bc: nat)
    requires size >= 1 && w < Pow256(size) && buf.Length == size + 1 && buf[..] == [0] + BigEndian(w, size)
    ensures 1 <= bc <= size && w < Pow256(bc) && (bc == 1 || w >= Pow256(bc - 1))
    ensures buf[size + 1 - bc..] == BigEndian(w, bc)
  {
    hide Pow256, BigEndian;
    ghost var all := BigEndian(w, size);
    bc := size;
    TopAt(buf, w, size, bc);
    while bc > 1 && buf[size + 1 - bc] == 0
      invariant 1 <= bc <= size && w < Pow256(bc)
      invariant buf[size + 1 - bc] == 0 <==> w < Pow256(bc - 1)
    {
      bc := bc - 1;
      TopAt(buf, w, size, bc);
    }
    BigEndianTail(w, size, bc);
    assert buf[size + 1 - bc..] == ([0] + all)[size + 1 - bc..] == all[size - bc..];
  }

  lemma TopAt(buf: array<byte>, w: nat, size: nat, bc: nat)
    requires buf.Length == size + 1 && buf[..] == [0] + BigEndian(w, size) && 1 <= bc <= size && w < Pow256(bc)
    ensures buf[size + 1 - bc] == 0 <==> w < Pow256(bc - 1)
  {
    hide Pow256, BigEndian;
    BigEndianAt(w, size, size - bc);
    assert buf[size + 1 - bc] == buf[..][size + 1 - bc] == ([0] + BigEndian(w, size))[size + 1 - bc];
    TopByte(w, bc);
  }

  /** Skips leading zeros down to the size of the word, and refuses what is still longer. */
  method BERDecodeUnsigned(source: Source, size: nat, tag: byte, min: nat, max: nat) returns (r: Option<nat>)
    requires size >= 1
    modifies source`data, source`frames
    ensures r.Some? <==> Decoded(old(source.Visible()), size, tag, min, max).Some?
    ensures r.Some? ==> var d := Decoded(old(source.Visible()), size, tag, min, max).value;
                        r.value == d.value && source.Moved(old(source.data), old(source.frames), d.used)
  {
    hide ContentAt, Value, Pow256, AfterRead;
    var buf := ReadContent(source, tag);
    if buf.None? {
      return None;
    }
    r := WordOf(buf.value, size, min, max);
  }

  /** Takes the tag, the length octets and the content. */
  method ReadContent(source: Source, tag: byte) returns (r: Option<seq<byte>>)
    modifies source`data, source`frames
    ensures r.Some? <==> ContentAt(old(source.Visible()), tag).Some?
    ensures r.Some? ==> var c := ContentAt(old(source.Visible()), tag).value;
                        r.value == c.content && source.Moved(old(source.data), old(source.frames), c.used)
  {
    hide Room, Debited, BerLength, AfterRead, Source.Nested, Source.Visible;
    ghost var s, data0, frames0 := source.Visible(), source.data, source.frames;
    var length := ReadHeader(source, tag);
    if length.None? {
      return None;
    }
    LengthMinimal(s[1..]);
    ghost var at, data1, frames1 := 1 + BerLength(s[1..]).used, source.data, source.frames;
    var buf := source.Get(length.value);
    if |buf| != length.value {
      return None;
    }
    assert buf == s[at..at + length.value];
    source.MovedOn(data0, frames0, data1, frames1, at, length.value);
    r := Some(buf);
  }

  method WordOf(buf: seq<byte>, size: nat, min: nat, max: nat) returns (r: Option<nat>)
    requires size >= 1
    ensures r == if Value(buf) < Pow256(size) && min <= Value(buf) <= max then Some(Value(buf)) else None
  {
    hide Pow256, Value;
    var bc, at: nat := |buf|, 0;
    assert buf[0..] == buf;
    while bc > size && buf[at] == 0
      invariant at + bc == |buf| && 0 <= bc && Value(buf[at..]) == Value(buf)
    {
      ValueFirst(buf[at..]);
      assert buf[at..][1..] == buf[at + 1..];
      bc, at := bc - 1, at + 1;
    }
    if bc > size {
      ValueFirst(buf[at..]);
      TooLong(buf[at..], size);
      return None;
    }
    ValueBound(buf[at..]);
    Pow256Monotone(bc, size);
    var w: nat := 0;
    ghost var rest := buf[at..];
    ValueNone();
    assert rest[..0] == [];
    for i := 0 to bc
      invariant w == Value(rest[..i])
    {
      assert rest[..i + 1] == rest[..i] + [rest[i]];
      ValueAppend(rest[..i], rest[i]);
      w := 256 * w + buf[at + i];
    }
    assert rest[..bc] == rest;
    r := if w < min || w > max then None else Some(w);
  }

  lemma TooLong(s: seq<byte>, size: nat)
    requires |s| > size && s[0] > 0
    ensures Value(s) >= Pow256(size)
  {
    ValueFirst(s);
    Pow256Monotone(size, |s| - 1);
    assert Pow256(|s| - 1) * s[0] == Pow256(|s| - 1) + Pow256(|s| - 1) * (s[0] - 1);
  }
}

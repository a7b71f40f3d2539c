/** Object identifiers (X.690 section 8.19). */
module AsnOid {
  import opened Bytes
  import opened Bits
  import opened BerSource
  import opened AsnLength

  const OBJECT_IDENTIFIER: byte := 6
  const WORD32: nat := 0x1_0000_0000
  const OVERFLOWS: nat := 0x200_0000  // a word of which the top seven bits are in use

  // Arcs -----------------------------------------------------------------------------------------------

  /** The groups of seven bits of a value, each marked as not the last. */
  function Marked(v: nat): seq<byte> {
    if v == 0 then [] else Marked(v / 128) + [128 + v % 128]
  }

  /** An arc: groups of seven bits, all but the last one marked. */
  function Arc(v: nat): (r: seq<byte>)
    ensures |r| >= 1
  {
    Marked(v / 128) + [v % 128]
  }

  datatype Read = Read(value: nat, used: nat)

  /** Reads an arc of which a value has been seen. */
  function ReadArc(value: nat, s: seq<byte>, used: nat): (r: Option<Read>)
    ensures r.Some? ==> used < r.value.used <= used + |s| && r.value.value < WORD32
    decreases |s|
  {
    if s == [] || value >= OVERFLOWS then None
    else
      var next := 128 * value + s[0] % 128;
      if s[0] < 128 then Some(Read(next, used + 1)) else ReadArc(next, s[1..], used + 1)
  }

  lemma {:induction false} ReadMarked(v: nat, t: seq<byte>, used: nat)
    requires v < OVERFLOWS && t != []
    ensures ReadArc(0, Marked(v) + t, used) == ReadArc(v, t, used + |Marked(v)|)
    decreases v
  {
    if v == 0 {
      assert Marked(v) + t == t;
    } else {
      var b: byte := 128 + v % 128;
      assert Marked(v) + t == Marked(v / 128) + ([b] + t);
      ReadMarked(v / 128, [b] + t, used);
      assert ([b] + t)[1..] == t;
    }
  }

  /** An arc of 32 bits comes back, and no octet beyond it is taken. */
  lemma ArcRoundTrip(v: nat, rest: seq<byte>)
    requires v < WORD32
    ensures ReadArc(0, Arc(v) + rest, 0) == Some(Read(v, |Arc(v)|))
  {
    var t := [v % 128] + rest;
    assert Arc(v) + rest == Marked(v / 128) + t;
    ReadMarked(v / 128, t, 0);
  }

  /** Arcs use the fewest octets (section 8.19.2): the first one is never an empty group. */
  lemma {:induction false} ArcMinimal(v: nat)
    ensures Arc(v)[0] != 128
  {
    if v / 128 > 0 { MarkedFirst(v / 128); }
  }

  lemma {:induction false} MarkedFirst(v: nat)
    requires v > 0
    ensures |Marked(v)| >= 1 && Marked(v)[0] > 128
  {
    if v / 128 == 0 {
    } else {
      MarkedFirst(v / 128);
    }
  }

  function RoundUpToMultipleOf7(n: nat): (r: nat)
    ensures r % 7 == 0 && n <= r < n + 7
  {
    (n + 6) / 7 * 7
  }

  lemma ShiftBySeven(v: nat, i: nat)
    ensures Shr(v, i + 7) == Shr(v, i) / 128
  {
    ShrShr(v, i, 7);
    SevenHalves(Shr(v, i));
  }

  lemma SevenHalves(x: nat)
    ensures Shr(x, 7) == x / 128
  {
    assert Shr(x, 1) == x / 2;
    assert Shr(x, 3) == Shr(x, 1) / 2 / 2;
    assert Shr(x, 5) == Shr(x, 3) / 2 / 2;
    assert Shr(x, 7) == Shr(x, 5) / 2 / 2;
  }

  method EncodeValue(v: nat) returns (out: seq<byte>)
    requires v < WORD32
    ensures out == Arc(v)
  {
    hide Shr;
    var i := RoundUpToMultipleOf7(if BitCount(v) < 7 then 7 else BitCount(v)) - 7;
    StartOfArc(v, i);
    out := [];
    while i != 0
      invariant i >= 0 && i % 7 == 0 && out == Marked(Shr(v, i + 7)) && (i > 0 ==> Shr(v, i) > 0)
      decreases i
    {
      ShiftBySeven(v, i);
      ShiftBySeven(v, i - 7);
      out := out + [128 + Shr(v, i) % 128];
      i := i - 7;
    }
    ShiftBySeven(v, 0);
    NoShift(v);
    out := out + [v % 128];
  }

  lemma NoShift(v: nat)
    ensures Shr(v, 0) == v
  {}

  /** The first group holds the top bit of the value. */
  lemma StartOfArc(v: nat, i: nat)
    requires i == RoundUpToMultipleOf7(if BitCount(v) < 7 then 7 else BitCount(v)) - 7
    ensures Shr(v, i + 7) == 0 && (i > 0 ==> Shr(v, i) > 0)
  {
    hide Shr;
    BitCountBound(v);
    Pow2Monotone(BitCount(v), i + 7);
    ShrSmall(v, i + 7);
    assert v == Low(v, i) + Shl(Shr(v, i), i);
    ShlZero(i);
    if i > 0 {
      Pow2Monotone(i, BitCount(v) - 1);
    }
  }

  /** Reads an arc, refusing values that do not fit a 32-bit word. */
  method DecodeValue(source: Source) returns (r: Option<Read>)
    modifies source`data, source`frames
    ensures r == ReadArc(0, old(source.Visible()), 0)
    ensures r.Some? ==> source.Moved(old(source.data), old(source.frames), r.value.used)
                        && source.Visible() == old(source.Visible())[r.value.used..]
  {
    hide Room, Debited, AfterRead, Source.Nested;
    ghost var s, data0, frames0 := source.Visible(), source.data, source.frames;
    var v: nat, i: nat := 0, 0;
    NoRead(source);
    while true
      invariant i <= |s| && source.Visible() == s[i..] && source.Moved(data0, frames0, i)
      invariant ReadArc(0, s, 0) == ReadArc(v, s[i..], i)
      decreases |s| - i
    {
      ghost var data1, frames1 := source.data, source.frames;
      var b := source.Get(1);
      if |b| == 0 {
        return None;
      }
      source.MovedOn(data0, frames0, data1, frames1, i, 1);
      assert s[i..][0] == b[0] && s[i..][1..] == s[i + 1..];
      i := i + 1;
      if v >= OVERFLOWS {
        return None;
      }
      v := 128 * v + b[0] % 128;
      if b[0] < 128 {
        return Some(Read(v, i));
      }
    }
  }

  lemma NoRead(source: Source)
    ensures source.Moved(source.data, source.frames, 0)
  {
    DebitedNone(source.frames);
  }

  // Identifiers ----------------------------------------------------------------------------------------

  function Arcs(arcs: seq<nat>): seq<byte> {
    if arcs == [] then [] else Arc(arcs[0]) + Arcs(arcs[1..])
  }

  /** The content octets: the first two arcs share one octet. */
  function Content(arcs: seq<nat>): (r: seq<byte>)
    requires |arcs| >= 2
    ensures |r| >= 1
  {
    [(40 * arcs[0] + arcs[1]) % 256] + Arcs(arcs[2..])
  }

  function Encoded(arcs: seq<nat>): seq<byte>
    requires |arcs| >= 2 && |Content(arcs)| < Pow256(8)
  {
    [OBJECT_IDENTIFIER] + DerLength(|Content(arcs)|) + Content(arcs)
  }

  /** The arcs that fill the given length. */
  function ReadArcs(length: nat, s: seq<byte>): Option<seq<nat>>
    decreases length
  {
    if length == 0 then Some([])
    else
      match ReadArc(0, s, 0)
      case None => None
      case Some(a) =>
        if a.used > length then None
        else
          match ReadArcs(length - a.used, s[a.used..])
          case None => None
          case Some(rest) => Some([a.value] + rest)
  }

  datatype Identifier = Identifier(arcs: seq<nat>, used: nat)

  function Decoded(s: seq<byte>): Option<Identifier> {
    if s == [] || s[0] != OBJECT_IDENTIFIER || !BerLength(s[1..]).Definite? then None
    else
      LengthMinimal(s[1..]);
      var l := BerLength(s[1..]);
      var at := 1 + l.used;
      if l.length < 1 || at >= |s| then None
      else
        match ReadArcs(l.length - 1, s[at + 1..])
        case None => None
        case Some(rest) => Some(Identifier([s[at] / 40, s[at] % 40] + rest, at + l.length))
  }

  lemma {:induction false} ArcsRoundTrip(arcs: seq<nat>, rest: seq<byte>)
    requires forall i :: 0 <= i < |arcs| ==> arcs[i] < WORD32
    ensures ReadArcs(|Arcs(arcs)|, Arcs(arcs) + rest) == Some(arcs)
  {
    if arcs == [] {
    } else {
      var a, tail := Arc(arcs[0]), Arcs(arcs[1..]);
      assert a + tail + rest == a + (tail + rest);
      ArcRoundTrip(arcs[0], tail + rest);
      ArcsRoundTrip(arcs[1..], rest);
      assert (a + tail + rest)[|a|..] == tail + rest;
      assert [arcs[0]] + arcs[1..] == arcs;
    }
  }

  /** What comes back of an identifier, and that exactly its octets are taken. */
  lemma DecodedEncoded(arcs: seq<nat>, rest: seq<byte>)
    requires |arcs| >= 2 && (forall i :: 0 <= i < |arcs| ==> arcs[i] < WORD32) && |Content(arcs)| < Pow256(8)
    ensures var b := (40 * arcs[0] + arcs[1]) % 256;
            Decoded(Encoded(arcs) + rest) == Some(Identifier([b / 40, b % 40] + arcs[2..], |Encoded(arcs)|))
  {
    hide BerLength, DerLength, Pow256, Arcs, ReadArcs;
    var c := Content(arcs);
    var d, s := DerLength(|c|), Encoded(arcs) + rest;
    assert s[1..] == d + (c + rest);
    LengthRoundTrip(|c|, c + rest);
    assert s[1 + |d|] == c[0];
    assert s[2 + |d|..] == Arcs(arcs[2..]) + rest;
    ArcsRoundTrip(arcs[2..], rest);
  }

  /** An identifier comes back exactly when its first two arcs fit their octet. */
  lemma RoundTripIff(arcs: seq<nat>, rest: seq<byte>)
    requires |arcs| >= 2 && (forall i :: 0 <= i < |arcs| ==> arcs[i] < WORD32) && |Content(arcs)| < Pow256(8)
    ensures Decoded(Encoded(arcs) + rest) == Some(Identifier(arcs, |Encoded(arcs)|))
            <==> arcs[1] < 40 && 40 * arcs[0] + arcs[1] < 256
  {
    hide Decoded, Encoded, Content, Pow256;
    DecodedEncoded(arcs, rest);
    var x := 40 * arcs[0] + arcs[1];
    var back := [x % 256 / 40, x % 256 % 40] + arcs[2..];
    assert back[0] == x % 256 / 40 && back[1] == x % 256 % 40 && back[2..] == arcs[2..];
    if arcs[1] < 40 && x < 256 {
      FirstTwo(arcs[0], arcs[1]);
      assert back == arcs;
    }
  }

  lemma FirstTwo(a: nat, b: nat)
    requires b < 40 && 40 * a + b < 256
    ensures (40 * a + b) % 256 / 40 == a && (40 * a + b) % 256 % 40 == b
  {}

  method DEREncode(arcs: seq<nat>) returns (out: seq<byte>)
    requires |arcs| >= 2 && (forall i :: 0 <= i < |arcs| ==> arcs[i] < WORD32) && |Content(arcs)| < Pow256(8)
    ensures out == Encoded(arcs)
  {
    hide DerLength, Pow256, Arc;
    var temp: seq<byte> := [(arcs[0] * 40 + arcs[1]) % 256];
    for i := 2 to |arcs|
      invariant temp + Arcs(arcs[i..]) == Content(arcs)
    {
      var arc := EncodeValue(arcs[i]);
      assert arcs[i..][1..] == arcs[i + 1..];
      assert temp + (arc + Arcs(arcs[i + 1..])) == temp + arc + Arcs(arcs[i + 1..]);
      temp := temp + arc;
    }
    assert temp + [] == temp;
    var length, n := DERLengthEncode(|temp|);
    out := [OBJECT_IDENTIFIER] + length + temp;
  }

  method BERDecode(source: Source) returns (r: Option<seq<nat>>)
    modifies source`data, source`frames
    ensures r.Some? <==> Decoded(old(source.Visible())).Some?
    ensures r.Some? ==> var d := Decoded(old(source.Visible())).value;
                        r.value == d.arcs && source.Moved(old(source.data), old(source.frames), d.used)
  {
    hide Room, Debited, AfterRead, Source.Nested, BerLength, ReadArc, ReadArcs;
    ghost var s, data0, frames0 := source.Visible(), source.data, source.frames;
    var length := ReadHeader(source, OBJECT_IDENTIFIER);
    if length.None? {
      return None;
    }
    LengthMinimal(s[1..]);
    if length.value < 1 {
      return None;
    }
    ghost var at, data1, frames1 := 1 + BerLength(s[1..]).used, source.data, source.frames;
    var b := source.Get(1);
    if |b| == 0 {
      return None;
    }
    source.MovedOn(data0, frames0, data1, frames1, at, 1);
    assert s[at..][0] == s[at] && s[at..][1..] == s[at + 1..];
    var rest := DecodeArcs(source, length.value - 1, data0, frames0, at + 1);
    if rest.None? {
      return None;
    }
    r := Some([b[0] / 40, b[0] % 40] + rest.value);
  }

  /** What is left to read of the arcs. */
  ghost predicate Progress(all: Option<seq<nat>>, values: seq<nat>, left: Option<seq<nat>>) {
    match left
    case None => all == None
    case Some(rest) => all == Some(values + rest)
  }

  /** Reads arcs until the length is used up. */
  method DecodeArcs(source: Source, length0: nat, ghost data0: seq<byte>, ghost frames0: seq<Frame>, ghost k: nat)
    returns (r: Option<seq<nat>>)
    requires source.Moved(data0, frames0, k)
    modifies source`data, source`frames
    ensures r == ReadArcs(length0, old(source.Visible()))
    ensures r.Some? ==> source.Moved(data0, frames0, k + length0)
  {
    hide Room, Debited, AfterRead, Source.Nested, Source.Visible, ReadArc, ReadArcs, Progress;
    ghost var s := source.Visible();
    ghost var all := ReadArcs(length0, s);
    var values, length: nat := [], length0;
    Starting(all);
    while length > 0
      invariant length <= length0 && source.Moved(data0, frames0, k + (length0 - length))
      invariant Progress(all, values, ReadArcs(length, source.Visible()))
    {
      ghost var data1, frames1, t := source.data, source.frames, source.Visible();
      ReadArcsStep(all, values, length, t);
      var a := DecodeValue(source);
      if a.None? {
        return None;
      }
      if a.value.used > length {
        return None;
      }
      source.MovedOn(data0, frames0, data1, frames1, k + (length0 - length), a.value.used);
      values := values + [a.value.value];
      length := length - a.value.used;
    }
    Finished(all, values, source.Visible());
    r := Some(values);
  }

  lemma Starting(all: Option<seq<nat>>)
    ensures Progress(all, [], all)
  {
    if all.Some? { assert [] + all.value == all.value; }
  }

  lemma Finished(all: Option<seq<nat>>, values: seq<nat>, t: seq<byte>)
    requires Progress(all, values, ReadArcs(0, t))
    ensures all == Some(values)
  {
    assert values + [] == values;
  }

  lemma ReadArcsStep(all: Option<seq<nat>>, values: seq<nat>, length: nat, t: seq<byte>)
    requires length > 0 && Progress(all, values, ReadArcs(length, t))
    ensures match ReadArc(0, t, 0)
            case None => all == None
            case Some(a) =>
              if a.used > length then all == None
              else Progress(all, values + [a.value], ReadArcs(length - a.used, t[a.used..]))
  {
    var a := ReadArc(0, t, 0);
    if a.Some? && a.value.used <= length {
      var rest := ReadArcs(length - a.value.used, t[a.value.used..]);
      if rest.Some? {
        assert values + ([a.value.value] + rest.value) == values + [a.value.value] + rest.value;
      }
    }
  }
}

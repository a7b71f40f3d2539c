/** Base 64 and base 16 as the library sets them up: alphabets, padding, line breaks and lookup tables. */
module StandardCodes {
  import opened Bytes
  import opened Bits
  import opened BaseNEncoding
  import opened BaseNDecoding
  import opened Grouping
  import opened BaseCodeRoundTrip

  /** A-Z, a-z, 0-9 and two more characters. */
  function Letter64(i: nat, c62: byte, c63: byte): byte
    requires i < 64
  {
    if i < 26 then 65 + i else if i < 52 then 97 + (i - 26) else if i < 62 then 48 + (i - 52)
    else if i == 62 then c62 else c63
  }

  function Alphabet64(c62: byte, c63: byte): (r: seq<byte>)
    ensures |r| == 64
  {
    seq(64, i requires 0 <= i < 64 => Letter64(i, c62, c63))
  }

  const PLUS: byte := 43
  const SLASH: byte := 47
  const MINUS: byte := 45
  const UNDERSCORE: byte := 95
  const EQUALS: byte := 61
  const NEWLINE: byte := 10

  /** 0-9 and A-F or a-f. */
  function Letter16(i: nat, uppercase: bool): byte
    requires i < 16
  {
    if i < 10 then 48 + i else (if uppercase then 65 else 97) + (i - 10)
  }

  function Alphabet16(uppercase: bool): (r: seq<byte>)
    ensures |r| == 16
  {
    seq(16, i requires 0 <= i < 16 => Letter16(i, uppercase))
  }

  /** Where case does not matter, a character stands for itself and for the same letter in the other case. */
  lemma StandsIff(a: byte, c: byte)
    ensures Stands(a, c, false) <==> c == a
    ensures Stands(a, c, true) <==> c == a || exists k: nat :: SameLetter(k, a, c)
  {
    if 65 <= a <= 90 {
      assert c == a + 32 ==> SameLetter(a - 65, a, c);
    } else if 97 <= a <= 122 {
      assert c == a - 32 ==> SameLetter(a - 97, a, c);
    }
  }

  /** The k-th letter in both cases. */
  predicate SameLetter(k: nat, a: byte, c: byte) {
    k < 26 && ((a == 65 + k && c == 97 + k) || (a == 97 + k && c == 65 + k))
  }

  lemma Sizes()
    ensures Pow2(4) == 16 && Pow2(6) == 64
  {
    assert Shl(1, 2) == 4 && Shl(1, 4) == 16;
  }

  lemma Distinct64(c62: byte, c63: byte)
    requires (c62, c63) == (PLUS, SLASH) || (c62, c63) == (MINUS, UNDERSCORE)
    ensures Distinct(Alphabet64(c62, c63), false)
    ensures Outside(Alphabet64(c62, c63), [EQUALS]) && Outside(Alphabet64(c62, c63), [NEWLINE])
  {}

  lemma Distinct16()
    ensures Distinct(Alphabet16(true), true)
  {}

  /** `Base64Encoder` and `Base64URLEncoder` before `Base64Decoder` and `Base64URLDecoder`: with or without padding and
      line breaks, in any pieces and however often the output blocks, the message comes back. */
  method Base64(url: bool, pad: bool, insertLineBreaks: bool, maxLineLength: nat, pieces: seq<seq<byte>>, patience: nat)
    returns (blocked: bool, m: seq<byte>)
    ensures !blocked ==> m == Flattened(pieces)
  {
    hide Distinct, Outside;
    var c62, c63 := if url then MINUS else PLUS, if url then UNDERSCORE else SLASH;
    var breaks := if insertLineBreaks then [NEWLINE] else [];
    Distinct64(c62, c63);
    Sizes();
    NothingOutside(Alphabet64(c62, c63));
    var padding := if pad then Some(EQUALS) else None;
    var groupSize := if insertLineBreaks then maxLineLength else 0;
    blocked, m := Relay(Alphabet64(c62, c63), 6, padding, groupSize, breaks, breaks, pieces, patience);
  }

  lemma NothingOutside(alphabet: seq<byte>)
    ensures Outside(alphabet, [])
  {}

  /** `HexEncoder` in either case before `HexDecoder`, whose table is made from the upper case letters. */
  method HexLookup() returns (table: seq<int>)
    ensures |table| == 256
    ensures forall i, uppercase :: 0 <= i < 16 ==> table[Letter16(i, uppercase)] == i
    ensures forall c: byte :: Taken(table, c) <==> 48 <= c <= 57 || 65 <= c <= 70 || 97 <= c <= 102
  {
    var lookup := new int[256](i => -1);
    Distinct16();
    InitializeDecodingLookupArray(lookup, Alphabet16(true), true);
    table := lookup[..];
    HexTable(table);
  }

  lemma HexTable(table: seq<int>)
    requires |table| == 256 && Inverts(table, Alphabet16(true), 16, true)
    ensures forall i, uppercase :: 0 <= i < 16 ==> table[Letter16(i, uppercase)] == i
    ensures forall c: byte :: Taken(table, c) <==> 48 <= c <= 57 || 65 <= c <= 70 || 97 <= c <= 102
  {
    forall i, uppercase | 0 <= i < 16 ensures table[Letter16(i, uppercase)] == i {
      assert Stands(Alphabet16(true)[i], Letter16(i, uppercase), true);
    }
    forall c: byte ensures Taken(table, c) <==> 48 <= c <= 57 || 65 <= c <= 70 || 97 <= c <= 102 {
      if 48 <= c <= 57 {
        assert c == Letter16(c - 48, true);
      } else if 65 <= c <= 70 {
        assert c == Letter16(c - 55, true);
      } else if 97 <= c <= 102 {
        assert c == Letter16(c - 87, false);
      }
    }
  }

  /** Hexadecimal digits in either case, grouped or not, decode to the message. */
  lemma HexRoundTrip(table: seq<int>, uppercase: bool, n: nat, g: nat, sep: seq<byte>, term: seq<byte>, m: seq<byte>)
    requires |table| == 256 && n >= 1 && Skipped(table, sep) && Skipped(table, term)
    requires forall i, u :: 0 <= i < 16 ==> table[Letter16(i, u)] == i
    ensures Pow2(4) == 16
    ensures Decoded(table, 4, Grouped(g, sep, term, Encoded(Alphabet16(uppercase), 4, n, None, m))) == m
  {
    hide Decoded, Grouped, Encoded;
    Sizes();
    RoundTrip(Alphabet16(uppercase), 4, n, None, g, sep, term, table, m);
  }
}

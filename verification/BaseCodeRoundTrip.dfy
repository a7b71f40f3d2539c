/** Encoding, grouping and decoding undo each other. */
module BaseCodeRoundTrip {
  import opened Bytes
  import opened Bits
  import opened BitStrings
  import opened BaseCode
  import opened BaseNEncoding
  import opened BaseNDecoding
  import opened Grouping

  // The lookup table -----------------------------------------------------------------------------------

  predicate IsAlpha(c: byte) {
    65 <= c <= 90 || 97 <= c <= 122
  }

  function ToUpper(c: byte): byte {
    if 97 <= c <= 122 then c - 32 else c
  }

  function ToLower(c: byte): byte {
    if 65 <= c <= 90 then c + 32 else c
  }

  /** Whether a character stands for a letter of the alphabet. */
  predicate Stands(a: byte, c: byte, caseInsensitive: bool) {
    if caseInsensitive && IsAlpha(a) then c == ToUpper(a) || c == ToLower(a) else c == a
  }

  /** No character stands for two letters. */
  ghost predicate Distinct(alphabet: seq<byte>, caseInsensitive: bool) {
    forall i, j, c: byte ::
      && 0 <= i < |alphabet| && 0 <= j < |alphabet|
      && Stands(alphabet[i], c, caseInsensitive) && Stands(alphabet[j], c, caseInsensitive)
      ==> i == j
  }

  /** The table takes exactly the characters that stand for the first k letters, each to its place. */
  ghost predicate Inverts(lookup: seq<int>, alphabet: seq<byte>, k: nat, caseInsensitive: bool)
    requires |lookup| == 256 && k <= |alphabet|
  {
    && (forall i, c: byte :: 0 <= i < k && Stands(alphabet[i], c, caseInsensitive) ==> lookup[c] == i)
    && (forall c: byte :: lookup[c] == -1 || (0 <= lookup[c] < k && Stands(alphabet[lookup[c]], c, caseInsensitive)))
  }

  method InitializeDecodingLookupArray(lookup: array<int>, alphabet: seq<byte>, caseInsensitive: bool)
    requires lookup.Length == 256 && Distinct(alphabet, caseInsensitive)
    modifies lookup
    ensures Inverts(lookup[..], alphabet, |alphabet|, caseInsensitive)
  {
    forall c | 0 <= c < 256 {
      lookup[c] := -1;
    }
    for i := 0 to |alphabet|
      invariant Inverts(lookup[..], alphabet, i, caseInsensitive)
    {
      if caseInsensitive && IsAlpha(alphabet[i]) {
        lookup[ToUpper(alphabet[i])] := i;
        lookup[ToLower(alphabet[i])] := i;
      } else {
        lookup[alphabet[i]] := i;
      }
    }
  }

  // The round trip -------------------------------------------------------------------------------------

  /** No character of a text is taken. */
  ghost predicate Skipped(lookup: seq<int>, s: seq<byte>)
    requires |lookup| == 256
  {
    forall i :: 0 <= i < |s| ==> !Taken(lookup, s[i])
  }

  lemma {:induction false} ValuesConcat(lookup: seq<int>, x: seq<byte>, y: seq<byte>)
    requires |lookup| == 256
    ensures Values(lookup, x + y) == Values(lookup, x) + Values(lookup, y)
    decreases |y|
  {
    if y == [] {
      assert x + y == x;
    } else {
      var y', c := y[..|y| - 1], y[|y| - 1];
      assert x + y == x + y' + [c] && y == y' + [c];
      ValuesConcat(lookup, x, y');
      ValuesAppend(lookup, x + y', c);
      ValuesAppend(lookup, y', c);
    }
  }

  lemma {:induction false} ValuesSkipped(lookup: seq<int>, s: seq<byte>)
    requires |lookup| == 256 && Skipped(lookup, s)
    ensures Values(lookup, s) == []
  {
    if s == [] {
    } else {
      ValuesSkipped(lookup, s[..|s| - 1]);
    }
  }

  lemma {:induction false} ValuesMapped(lookup: seq<int>, alphabet: seq<byte>, w: nat, digits: seq<nat>)
    requires |lookup| == 256 && w <= 8 && |alphabet| == Pow2(w) && Below(digits, w)
    requires forall i :: 0 <= i < |alphabet| ==> lookup[alphabet[i]] == i
    ensures Values(lookup, Mapped(alphabet, w, digits)) == digits
  {
    if digits == [] {
    } else {
      var front, d := digits[..|digits| - 1], digits[|digits| - 1];
      assert Mapped(alphabet, w, digits) == Mapped(alphabet, w, front) + [alphabet[d]];
      ValuesMapped(lookup, alphabet, w, front);
      ValuesAppend(lookup, Mapped(alphabet, w, front), alphabet[d]);
      Pow2Monotone(w, 8);
      Pow2OfEight();
    }
  }

  /** Grouping only adds characters that the decoder skips. */
  lemma {:induction false} ValuesLines(lookup: seq<int>, g: nat, sep: seq<byte>, s: seq<byte>)
    requires |lookup| == 256 && Skipped(lookup, sep)
    ensures Values(lookup, Lines(g, sep, s)) == Values(lookup, s)
    decreases |s|
  {
    hide Values;
    if g > 0 && |s| > g {
      ValuesLines(lookup, g, sep, s[g..]);
      ValuesSkipped(lookup, sep);
      ValuesConcat(lookup, s[..g] + sep, Lines(g, sep, s[g..]));
      ValuesConcat(lookup, s[..g], sep);
      ValuesConcat(lookup, s[..g], s[g..]);
      assert s == s[..g] + s[g..];
      assert Values(lookup, s[..g]) + [] == Values(lookup, s[..g]);
    }
  }

  lemma ValuesFilledUp(lookup: seq<int>, s: seq<byte>, n: nat, padding: Option<byte>)
    requires |lookup| == 256 && n >= 1 && (padding.Some? ==> !Taken(lookup, padding.value))
    ensures Values(lookup, FilledUp(s, n, padding)) == Values(lookup, s)
  {
    if padding.Some? && |s| % n != 0 {
      var fill := seq(n - |s| % n, i => padding.value);
      ValuesSkipped(lookup, fill);
      ValuesConcat(lookup, s, fill);
    }
  }

  /** For every width, injective alphabet and characters outside it, the decoder returns the message. */
  lemma RoundTrip(alphabet: seq<byte>, w: nat, n: nat, padding: Option<byte>, g: nat, sep: seq<byte>, term: seq<byte>,
                  lookup: seq<int>, m: seq<byte>)
    requires 1 <= w <= 7 && |alphabet| == Pow2(w) && n >= 1 && |lookup| == 256
    requires forall i :: 0 <= i < |alphabet| ==> lookup[alphabet[i]] == i
    requires Skipped(lookup, sep) && Skipped(lookup, term) && (padding.Some? ==> !Taken(lookup, padding.value))
    ensures Decoded(lookup, w, Grouped(g, sep, term, Encoded(alphabet, w, n, padding, m))) == m
  {
    hide Packed, Digits, Values, Lines, FilledUp, Mapped, WholeBytes;
    var digits, text := MessageDigits(w, m), Encoded(alphabet, w, n, padding, m);
    ValuesConcat(lookup, Lines(g, sep, text), term);
    ValuesSkipped(lookup, term);
    ValuesLines(lookup, g, sep, text);
    ValuesFilledUp(lookup, Mapped(alphabet, w, digits), n, padding);
    ValuesMapped(lookup, alphabet, w, digits);
    assert digits + [] == digits;
    var k := DigitsPacked(Packed(m, 8), w);
    WholeBytesUnique(Packed(digits, w), m, Falses(k));
  }

  /** The same through the three filters, each attached to the one before: a blocked output of the decoder blocks the
      grouper and the encoder, and the repeated call of the encoder goes on through all of them. */
  method Relay(alphabet: seq<byte>, w: nat, padding: Option<byte>, g: nat, sep: seq<byte>, term: seq<byte>,
               pieces: seq<seq<byte>>, patience: nat)
    returns (blocked: bool, m: seq<byte>)
    requires 1 <= w <= 7 && |alphabet| == Pow2(w) && Distinct(alphabet, false)
    requires Outside(alphabet, sep) && Outside(alphabet, term) && (padding.Some? ==> Outside(alphabet, [padding.value]))
    ensures !blocked ==> m == Flattened(pieces)
  {
    hide Encoded, Decoded, Grouped, Inverts, Outside, Skipped, Distinct, Table;
    var lookup := new int[256](i => -1);
    InitializeDecodingLookupArray(lookup, alphabet, false);
    var table := lookup[..];
    TableOf(table, alphabet, w);
    var decoder := new BaseNDecoder(table, w);
    var grouper := new Grouper(g, sep, term, decoder);
    var encoder := new BaseNEncoder(alphabet, w, padding, grouper);
    var n := encoder.outBuf.Length;
    blocked := encoder.PutMessage(pieces, patience);
    m := decoder.delivered;
    if !blocked {
      SkippedOutside(table, alphabet, sep);
      SkippedOutside(table, alphabet, term);
      if padding.Some? { OneSkipped(table, alphabet, padding.value); }
      RoundTrip(alphabet, w, n, padding, g, sep, term, table, Flattened(pieces));
    }
  }

  /** No character of a text is in the alphabet. */
  ghost predicate Outside(alphabet: seq<byte>, s: seq<byte>) {
    forall i :: 0 <= i < |s| ==> s[i] !in alphabet
  }

  lemma OneSkipped(lookup: seq<int>, alphabet: seq<byte>, c: byte)
    requires |lookup| == 256 && Inverts(lookup, alphabet, |alphabet|, false) && Outside(alphabet, [c])
    ensures !Taken(lookup, c)
  {
    SkippedOutside(lookup, alphabet, [c]);
    assert !Taken(lookup, [c][0]);
  }

  lemma TableOf(lookup: seq<int>, alphabet: seq<byte>, w: nat)
    requires |lookup| == 256 && |alphabet| == Pow2(w) && Inverts(lookup, alphabet, |alphabet|, false)
    ensures Table(lookup, w) && forall i :: 0 <= i < |alphabet| ==> lookup[alphabet[i]] == i
  {
    forall i | 0 <= i < |alphabet| ensures lookup[alphabet[i]] == i {
      assert Stands(alphabet[i], alphabet[i], false);
    }
  }

  lemma SkippedOutside(lookup: seq<int>, alphabet: seq<byte>, s: seq<byte>)
    requires |lookup| == 256 && Inverts(lookup, alphabet, |alphabet|, false)
    requires Outside(alphabet, s)
    ensures Skipped(lookup, s)
  {}
}

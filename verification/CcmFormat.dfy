/** The formatting of nonce, header and message of CCM (appendix A of NIST SP 800-38C), and how it reads back. */
module CcmFormat {
  import opened BlockChaining
  import opened Remainders
  import opened Bits

  const SIZE: nat := 16

  /** The byte with the given bits, most significant first. */
  function Octet(b7: bool, b6: bool, b5: bool, b4: bool, b3: bool, b2: bool, b1: bool, b0: bool): bv8 {
    (if b7 then 0x80 else 0) | (if b6 then 0x40 else 0) | (if b5 then 0x20 else 0) | (if b4 then 0x10 else 0)
    | (if b3 then 8 else 0) | (if b2 then 4 else 0) | (if b1 then 2 else 0) | (if b0 then 1 else 0)
  }

  /** The low eight bits of n. */
  function ToByte(n: nat): bv8 {
    Octet(Odd(n / 128), Odd(n / 64), Odd(n / 32), Odd(n / 16), Odd(n / 8), Odd(n / 4), Odd(n / 2), Odd(n))
  }

  /** The k low bytes of n, most significant first (`PutWord` in big-endian order). */
  function BigEndian(n: nat, k: nat): (r: block)
    ensures |r| == k
    decreases k
  {
    if k == 0 then [] else BigEndian(n / 256, k - 1) + [ToByte(n)]
  }

  /** The last bytes of a longer word are a shorter word. */
  lemma {:induction false} BigEndianTail(n: nat, k: nat, j: nat)
    requires j <= k
    ensures BigEndian(n, k)[k - j..] == BigEndian(n, j)
    decreases j
  {
    if j == 0 {
    } else {
      BigEndianTail(n / 256, k - 1, j - 1);
    }
  }

  /** The length of the length field, for a nonce of 7 to 13 bytes. */
  function LengthSize(nonce: block): (l: nat)
    requires 7 <= |nonce| <= 13
    ensures 2 <= l <= 8
  {
    15 - |nonce|
  }

  function Flags(header: bool, digestSize: nat, l: nat): bv8
    requires digestSize >= 2 && l >= 1
  {
    ToByte((if header then 64 else 0) + 8 * ((digestSize - 2) / 2) + l - 1)
  }

  /** The first block: flags, nonce and message length. */
  function FirstBlockOf(nonce: block, digestSize: nat, headerLength: nat, messageLength: nat): (r: block)
    requires 7 <= |nonce| <= 13 && digestSize >= 2
    ensures |r| == SIZE
  {
    [Flags(headerLength > 0, digestSize, LengthSize(nonce))] + nonce + BigEndian(messageLength, LengthSize(nonce))
  }

  const FF: bv8 := 0xff
  const FE: bv8 := 0xfe

  /** The encoding of the header length in front of the header. */
  function HeaderPrefix(headerLength: nat): (r: block)
    ensures |r| <= 10 && (r == [] <==> headerLength == 0)
  {
    if headerLength == 0 then []
    else if headerLength < 0xff00 then BigEndian(headerLength, 2)
    else if headerLength < 0x1_0000_0000 then [FF, FE] + BigEndian(headerLength, 4)
    else [FF, FF] + BigEndian(headerLength, 8)
  }

  /** Zeros up to the next block boundary. */
  function Padded(m: block): (r: block)
    ensures |r| % SIZE == 0
  {
    if |m| % SIZE == 0 then m else m + Zeros(SIZE - |m| % SIZE)
  }

  function Formatted(nonce: block, digestSize: nat, header: block, message: block): (r: block)
    requires 7 <= |nonce| <= 13 && digestSize >= 2
    ensures |r| % SIZE == 0 && |r| >= SIZE
  {
    var b0, a, p := FirstBlockOf(nonce, digestSize, |header|, |message|), Padded(HeaderPrefix(|header|) + header),
        Padded(message);
    WholeBlocks(|a|, |p|);
    b0 + a + p
  }

  lemma WholeBlocks(a: nat, p: nat)
    requires a % SIZE == 0 && p % SIZE == 0
    ensures (SIZE + a + p) % SIZE == 0 && (SIZE + a) % SIZE == 0
  {
    AddMultiple(a, p, SIZE);
    AddMultiple(SIZE, a + p, SIZE);
    AddMultiple(SIZE, a, SIZE);
  }

  function CounterBlock(nonce: block): (r: block)
    requires 7 <= |nonce| <= 13
    ensures |r| == SIZE
  {
    [ToByte(LengthSize(nonce) - 1)] + nonce + Zeros(15 - |nonce|)
  }

  const MAX_LWORD: nat := 0xffff_ffff_ffff_ffff

  function MaxMessageLength(l: nat): nat {
    if l == 2 then 0xffff else if l == 3 then 0xff_ffff else if l == 4 then 0xffff_ffff
    else if l == 5 then 0xff_ffff_ffff else if l == 6 then 0xffff_ffff_ffff else if l == 7 then 0xff_ffff_ffff_ffff
    else MAX_LWORD
  }

  /** What the mode accepts: a nonce that fits, and lengths that fit beside it. */
  predicate Acceptable(iv: block, headerLength: nat, length: nat) {
    7 <= |iv| <= 13 && headerLength <= MAX_LWORD && length <= MaxMessageLength(LengthSize(iv))
  }

  // Reading back ---------------------------------------------------------------------------------------

  function Power(k: nat): (r: nat)
    ensures r >= 1
  {
    if k == 0 then 1 else 256 * Power(k - 1)
  }

  function Weight(b: bv8, mask: bv8, value: nat): nat {
    if b & mask != 0 then value else 0
  }

  function ByteValue(b: bv8): (r: nat)
    ensures r < 256
  {
    Weight(b, 0x80, 128) + Weight(b, 0x40, 64) + Weight(b, 0x20, 32) + Weight(b, 0x10, 16)
    + Weight(b, 8, 8) + Weight(b, 4, 4) + Weight(b, 2, 2) + Weight(b, 1, 1)
  }

  /** The number that bytes spell, most significant first. */
  function WordValue(b: block): nat {
    if b == [] then 0 else 256 * WordValue(b[..|b| - 1]) + ByteValue(b[|b| - 1])
  }

  lemma OctetBits(b7: bool, b6: bool, b5: bool, b4: bool, b3: bool, b2: bool, b1: bool, b0: bool)
    ensures var b := Octet(b7, b6, b5, b4, b3, b2, b1, b0);
            && (b & 0x80 != 0 <==> b7) && (b & 0x40 != 0 <==> b6) && (b & 0x20 != 0 <==> b5) && (b & 0x10 != 0 <==> b4)
            && (b & 8 != 0 <==> b3) && (b & 4 != 0 <==> b2) && (b & 2 != 0 <==> b1) && (b & 1 != 0 <==> b0)
  {}

  lemma ByteReads(n: nat)
    ensures ByteValue(ToByte(n)) == n % 256
  {
    hide Octet, Odd;
    OctetBits(Odd(n / 128), Odd(n / 64), Odd(n / 32), Odd(n / 16), Odd(n / 8), Odd(n / 4), Odd(n / 2), Odd(n));
    LowBits(n);
  }

  lemma LowBits(n: nat)
    ensures n % 256 == (if Odd(n / 128) then 128 else 0) + (if Odd(n / 64) then 64 else 0)
                       + (if Odd(n / 32) then 32 else 0) + (if Odd(n / 16) then 16 else 0)
                       + (if Odd(n / 8) then 8 else 0) + (if Odd(n / 4) then 4 else 0)
                       + (if Odd(n / 2) then 2 else 0) + (if Odd(n) then 1 else 0)
  {
    hide Odd;
    FourBits(n);
    FourBits(n / 16);
    assert n / 16 / 2 == n / 32 && n / 16 / 4 == n / 64 && n / 16 / 8 == n / 128;
    TwoDigits(n);
  }

  lemma TwoDigits(n: nat)
    ensures n % 256 == n % 16 + 16 * (n / 16 % 16)
  {
    var h := n / 16;
    RemainderUnique(n, 256, h / 16, n % 16 + 16 * (h % 16));
  }

  lemma FourBits(n: nat)
    ensures n % 16 == (if Odd(n / 8) then 8 else 0) + (if Odd(n / 4) then 4 else 0)
                      + (if Odd(n / 2) then 2 else 0) + (if Odd(n) then 1 else 0)
  {
    assert n / 4 == n / 2 / 2 && n / 8 == n / 4 / 2 && n / 16 == n / 8 / 2;
  }

  lemma {:induction false} WordReads(n: nat, k: nat)
    requires n < Power(k)
    ensures WordValue(BigEndian(n, k)) == n
    decreases k
  {
    if k == 0 {
    } else {
      WordReads(n / 256, k - 1);
      ByteReads(n);
      assert BigEndian(n, k)[..k - 1] == BigEndian(n / 256, k - 1);
    }
  }

  /** A message length is admitted exactly when it fits its field. */
  lemma MaxMessageLengthFits(l: nat)
    requires 2 <= l <= 8
    ensures MaxMessageLength(l) == Power(l) - 1
  {
    assert Power(1) == 256 && Power(2) == 0x1_0000 && Power(3) == 0x100_0000;
    assert Power(4) == 0x1_0000_0000 && Power(5) == 0x100_0000_0000 && Power(6) == 0x1_0000_0000_0000;
    assert Power(7) == 0x100_0000_0000_0000 && Power(8) == 0x1_0000_0000_0000_0000;
  }

  /** The flags of the first block (section A.2.1): whether there is a header, the tag length and the size of the
      length field. */
  ghost predicate FirstFlags(b: nat, hasHeader: bool, digestSize: nat, l: nat) {
    && b < 128 && (b / 64 == 1 <==> hasHeader)
    && 2 * (b / 8 % 8) + 2 == digestSize
    && b % 8 + 1 == l
  }

  lemma FlagsRead(header: bool, digestSize: nat, l: nat)
    requires 4 <= digestSize <= 16 && digestSize % 2 == 0 && 2 <= l <= 8
    ensures FirstFlags(ByteValue(Flags(header, digestSize, l)), header, digestSize, l)
  {
    hide ToByte, ByteValue;
    var x := (digestSize - 2) / 2;
    FlagDigits(if header then 1 else 0, x, l - 1);
    ByteReads(64 * (if header then 1 else 0) + 8 * x + l - 1);
  }

  lemma FlagDigits(h: nat, x: nat, y: nat)
    requires h < 2 && x < 8 && y < 8
    ensures var b := 64 * h + 8 * x + y; b < 128 && b % 256 == b && b / 64 == h && b / 8 % 8 == x && b % 8 == y
  {}

  /** The first block reads back as flags, nonce and message length. */
  lemma FirstBlockReads(nonce: block, digestSize: nat, headerLength: nat, length: nat)
    requires Acceptable(nonce, headerLength, length) && 4 <= digestSize <= 16 && digestSize % 2 == 0
    ensures var b := FirstBlockOf(nonce, digestSize, headerLength, length);
            && FirstFlags(ByteValue(b[0]), headerLength > 0, digestSize, 15 - |nonce|)
            && b[1..1 + |nonce|] == nonce && WordValue(b[1 + |nonce|..]) == length
  {
    hide Flags, WordValue, BigEndian, MaxMessageLength;
    var l := LengthSize(nonce);
    FlagsRead(headerLength > 0, digestSize, l);
    MaxMessageLengthFits(l);
    WordReads(length, l);
    assert FirstBlockOf(nonce, digestSize, headerLength, length)[1 + |nonce|..] == BigEndian(length, l);
  }

  /** What stands in front of the header (section A.2.2): its length and how many bytes that takes. */
  function ReadHeaderLength(b: block): (nat, nat)
    requires |b| >= SIZE
  {
    if ByteValue(b[0]) == 255 && ByteValue(b[1]) == 254 then (WordValue(b[2..6]), 6)
    else if ByteValue(b[0]) == 255 && ByteValue(b[1]) == 255 then (WordValue(b[2..10]), 10)
    else (WordValue(b[..2]), 2)
  }

  lemma HeaderLengthReads(n: nat, rest: block)
    requires 0 < n <= MAX_LWORD && |HeaderPrefix(n) + rest| >= SIZE
    ensures ReadHeaderLength(HeaderPrefix(n) + rest) == (n, |HeaderPrefix(n)|)
  {
    hide WordValue, BigEndian;
    var b := HeaderPrefix(n) + rest;
    assert Power(2) == 256 * Power(1) == 0x1_0000;
    MaxMessageLengthFits(4);
    MaxMessageLengthFits(8);
    if n < 0xff00 {
      ShortLength(n);
      assert b[..2] == BigEndian(n, 2);
      WordReads(n, 2);
    } else if n < 0x1_0000_0000 {
      assert b[2..6] == BigEndian(n, 4);
      WordReads(n, 4);
    } else {
      assert b[2..10] == BigEndian(n, 8);
      WordReads(n, 8);
    }
  }

  /** A length below 0xff00 does not begin like the longer forms. */
  lemma ShortLength(n: nat)
    requires n < 0xff00
    ensures ByteValue(BigEndian(n, 2)[0]) < 255
  {
    hide ToByte, ByteValue;
    assert BigEndian(n / 256, 1) == [] + [ToByte(n / 256)];
    ByteReads(n / 256);
  }

  lemma PaddedIs(m: block)
    ensures |m| <= |Padded(m)| < |m| + SIZE && Padded(m)[..|m|] == m
    ensures forall i :: |m| <= i < |Padded(m)| ==> Padded(m)[i] == 0
  {}

  /** The smallest multiple of the block size from n on. */
  function RoundedUp(n: nat): nat {
    (n + SIZE - 1) / SIZE * SIZE
  }

  lemma PaddedLength(m: block)
    ensures |Padded(m)| == RoundedUp(|m|)
  {}

  /** The reader of formatted input: flags and nonce length from the first byte, then nonce and message length, then
      header and message at block boundaries. */
  datatype Input = Input(nonce: block, digestSize: nat, header: block, message: block)

  function Read(s: block): (r: Input)
    requires |s| >= SIZE
  {
    var b := ByteValue(s[0]);
    var l := b % 8 + 1;
    var head := if b / 64 % 2 == 1 && |s| >= 2 * SIZE then ReadHeaderLength(s[SIZE..]) else (0, 0);
    var at := SIZE + RoundedUp(head.1 + head.0);
    Input(s[1..16 - l], 2 * (b / 8 % 8) + 2, Slice(s, SIZE + head.1, head.0), Slice(s, at, WordValue(s[16 - l..16])))
  }

  function Slice(s: block, at: nat, n: nat): block {
    if at + n <= |s| then s[at..at + n] else []
  }

  /** The formatted input determines nonce, tag length, header and message. */
  lemma FormattedReads(nonce: block, digestSize: nat, header: block, message: block)
    requires Acceptable(nonce, |header|, |message|) && 4 <= digestSize <= 16 && digestSize % 2 == 0
    ensures Read(Formatted(nonce, digestSize, header, message)) == Input(nonce, digestSize, header, message)
  {
    hide FirstBlockOf, HeaderPrefix, Padded, WordValue, ReadHeaderLength, RoundedUp, ByteValue, MaxMessageLength, Slice;
    var b0, a := FirstBlockOf(nonce, digestSize, |header|, |message|), Padded(HeaderPrefix(|header|) + header);
    var p, s := Padded(message), Formatted(nonce, digestSize, header, message);
    assert s == b0 + a + p;
    FirstBlockReads(nonce, digestSize, |header|, |message|);
    FrontReads(b0, a + p, |nonce|);
    assert s == b0 + (a + p);
    HeaderReads(b0, header, p);
    MessageReads(b0 + a, message);
  }

  lemma FrontReads(b0: block, rest: block, n: nat)
    requires |b0| == SIZE && n < SIZE
    ensures var s := b0 + rest;
            s[0] == b0[0] && s[1..1 + n] == b0[1..1 + n] && s[1 + n..SIZE] == b0[1 + n..]
  {}

  lemma MessageReads(front: block, message: block)
    ensures Slice(front + Padded(message), |front|, |message|) == message
  {
    hide Padded;
    PaddedIs(message);
    assert (front + Padded(message))[|front|..|front| + |message|] == Padded(message)[..|message|];
  }

  /** Header length and header behind the first block. */
  lemma HeaderReads(b0: block, header: block, p: block)
    requires |b0| == SIZE && |header| <= MAX_LWORD
    ensures var prefix := HeaderPrefix(|header|); var a := Padded(prefix + header); var s := b0 + a + p;
            && |a| == RoundedUp(|prefix| + |header|) && |s| == SIZE + |a| + |p|
            && (header != [] ==> |s| >= 2 * SIZE && ReadHeaderLength(s[SIZE..]) == (|header|, |prefix|))
            && (header == [] ==> |prefix| == |a| == 0)
            && Slice(s, SIZE + |prefix|, |header|) == header
  {
    hide HeaderPrefix, Padded, ReadHeaderLength, RoundedUp;
    var prefix := HeaderPrefix(|header|);
    var a := Padded(prefix + header);
    var s, k := b0 + a + p, |prefix|;
    PaddedIs(prefix + header);
    PaddedLength(prefix + header);
    if header != [] {
      AtLeastBlock(a);
      assert s[SIZE..] == a + p;
      assert a + p == prefix + (a + p)[k..];
      HeaderLengthReads(|header|, (a + p)[k..]);
    } else {
      EmptyPadded();
      assert prefix + header == [];
    }
    assert s[SIZE + k..SIZE + k + |header|] == a[..|prefix + header|][k..];
  }

  lemma EmptyPadded()
    ensures Padded([]) == []
  {}

  lemma AtLeastBlock(a: block)
    requires a != [] && |a| % SIZE == 0
    ensures |a| >= SIZE
  {
    FirstBlock(|a|, SIZE);
  }

  /** No two inputs are formatted alike. */
  lemma FormattedUnique(nonce: block, t: nat, header: block, message: block,
                        nonce': block, t': nat, header': block, message': block)
    requires Acceptable(nonce, |header|, |message|) && 4 <= t <= 16 && t % 2 == 0
    requires Acceptable(nonce', |header'|, |message'|) && 4 <= t' <= 16 && t' % 2 == 0
    requires Formatted(nonce, t, header, message) == Formatted(nonce', t', header', message')
    ensures nonce == nonce' && t == t' && header == header' && message == message'
  {
    hide Formatted, Read;
    FormattedReads(nonce, t, header, message);
    FormattedReads(nonce', t', header', message');
  }

  /** A counter block (section A.3) reads back as the size of its counter, the nonce and counter zero; its first byte is
      that of no first block. */
  lemma CounterBlockReads(nonce: block)
    requires 7 <= |nonce| <= 13
    ensures var b := CounterBlock(nonce);
            && ByteValue(b[0]) < 8 && ByteValue(b[0]) + 1 == 15 - |nonce|
            && b[1..1 + |nonce|] == nonce && WordValue(b[1 + |nonce|..]) == 0
  {
    hide WordValue, ToByte, ByteValue, Zeros;
    var l := LengthSize(nonce) - 1;
    ByteReads(l);
    assert l % 256 == l;
    ZeroWord(15 - |nonce|);
    assert CounterBlock(nonce)[0] == ToByte(l);
    assert CounterBlock(nonce)[1 + |nonce|..] == Zeros(15 - |nonce|);
  }

  lemma {:induction false} ZeroWord(k: nat)
    ensures WordValue(Zeros(k)) == 0
  {
    if k == 0 {
    } else {
      ZeroWord(k - 1);
      assert Zeros(k)[..k - 1] == Zeros(k - 1);
    }
  }

  lemma CounterIsNotFirst(nonce: block, nonce': block, digestSize: nat, header: block, message: block)
    requires 7 <= |nonce'| <= 13 && Acceptable(nonce, |header|, |message|)
    requires 4 <= digestSize <= 16 && digestSize % 2 == 0
    ensures CounterBlock(nonce')[0] != Formatted(nonce, digestSize, header, message)[0]
  {
    hide FirstBlockOf, CounterBlock, Padded, HeaderPrefix, FirstFlags;
    CounterBlockReads(nonce');
    FirstBlockReads(nonce, digestSize, |header|, |message|);
    FlagsAboveSeven(ByteValue(FirstBlockOf(nonce, digestSize, |header|, |message|)[0]), header != [], digestSize,
      15 - |nonce|);
  }

  lemma FlagsAboveSeven(b: nat, hasHeader: bool, digestSize: nat, l: nat)
    requires FirstFlags(b, hasHeader, digestSize, l) && digestSize >= 4
    ensures b >= 8
  {}
}

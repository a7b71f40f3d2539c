/** The decoder: characters of an alphabet back to bytes, skipping every other character. */
module BaseNDecoding {
  import opened Bytes
  import opened Bits
  import opened BitStrings
  import opened Remainders
  import opened BaseCode

  /** Whether the decoder takes a character, by its entry in the lookup table read as an unsigned number. */
  predicate Taken(lookup: seq<int>, c: byte)
    requires |lookup| == 256
  {
    0 <= lookup[c] < 256
  }

  /** A table whose entries are digits of w bits or marks to skip. */
  ghost predicate Table(lookup: seq<int>, w: nat) {
    |lookup| == 256 && forall c: byte :: Taken(lookup, c) ==> lookup[c] < Pow2(w)
  }

  /** The digits in a text. */
  function Values(lookup: seq<int>, s: seq<byte>): seq<nat>
    requires |lookup| == 256
    decreases |s|
  {
    if s == [] then []
    else Values(lookup, s[..|s| - 1]) + if Taken(lookup, s[|s| - 1]) then [lookup[s[|s| - 1]]] else []
  }

  lemma ValuesAppend(lookup: seq<int>, s: seq<byte>, c: byte)
    requires |lookup| == 256
    ensures Values(lookup, s + [c]) == Values(lookup, s) + if Taken(lookup, c) then [lookup[c]] else []
  {
    assert (s + [c])[..|s|] == s;
  }

  /** The whole bytes in a string of bits. */
  function WholeBytes(bits: seq<bool>): (r: seq<byte>)
    decreases |bits|
  {
    if |bits| < 8 then [] else Pow2OfEight(); [FromBits(bits[..8])] + WholeBytes(bits[8..])
  }

  lemma {:induction false} WholeBytesPacked(bits: seq<bool>) returns (rest: seq<bool>)
    ensures |rest| < 8 && Packed(WholeBytes(bits), 8) + rest == bits
    decreases |bits|
  {
    if |bits| < 8 {
      rest := bits;
      assert [] + bits == bits;
    } else {
      rest := WholeBytesPacked(bits[8..]);
      var x := FromBits(bits[..8]);
      PackedAppend([], x, 8);
      BitsOfFrom(bits[..8]);
      assert [] + [x] == [x];
      PackedConcat([x], WholeBytes(bits[8..]), 8);
      assert bits == bits[..8] + bits[8..];
      assert bits[..8] + (Packed(WholeBytes(bits[8..]), 8) + rest)
        == bits[..8] + Packed(WholeBytes(bits[8..]), 8) + rest;
    }
  }

  /** They are the only bytes that leave less than a byte behind them. */
  lemma WholeBytesUnique(bits: seq<bool>, d: seq<byte>, rest: seq<bool>)
    requires |rest| < 8 && Packed(d, 8) + rest == bits
    ensures d == WholeBytes(bits)
  {
    var rest' := WholeBytesPacked(bits);
    var e := WholeBytes(bits);
    PackedLength(d, 8);
    PackedLength(e, 8);
    assert |d| == |e|;
    Pow2OfEight();
    assert Packed(d, 8) == bits[..8 * |d|] && Packed(e, 8) == bits[..8 * |e|];
    PackedUnique(d, e, 8);
  }

  /** The bytes of a text. */
  function Decoded(lookup: seq<int>, w: nat, s: seq<byte>): seq<byte>
    requires |lookup| == 256
  {
    WholeBytes(Packed(Values(lookup, s), w))
  }

  /** A number of bytes that make up whole digits. */
  method DecoderBlockSize(w: nat) returns (n: nat, ghost digits: nat)
    requires 1 <= w <= 7
    ensures n >= 1 && 8 * n == w * digits && SmallestBlock(w, digits)
  {
    var i := w;
    digits := 1;
    while i % 8 != 0
      invariant w <= i <= 8 * w && i == w * digits && 1 <= digits <= 8
      invariant forall m :: 1 <= m < digits ==> (w * m) % 8 != 0
      decreases 8 - digits
    {
      assert w * (digits + 1) == w * digits + w;
      i, digits := i + w, digits + 1;
      ProductMonotone(w, digits, 8);
    }
    n := i / 8;
  }

  /** A digit of w bits in front of its place in a byte. */
  lemma DigitBits(x: nat, w: nat)
    requires w <= 8 && x < Pow2(w)
    ensures x < 256 && BitsOf(x, 8) == Falses(8 - w) + BitsOf(x, w)
  {
    Pow2OfEight();
    Pow2Monotone(w, 8);
    ShrBits(x, w, w, 8);
    assert Shr(x, w - w) == x;
    assert BitsOf(x, w)[..w] == BitsOf(x, w);
  }

  /** A digit that stays within its byte. */
  lemma PlaceWithin(buf: seq<nat>, w: nat, bytePos: nat, bitPos: nat, bits: seq<bool>, x: nat)
    requires 1 <= w <= 7 && Holding(buf, 8, bytePos, bitPos, bits) && bytePos < |buf| && bitPos + w <= 8 && x < Pow2(w)
    ensures var d := Or(buf[bytePos], Shl(x, 8 - (bitPos + w)));
            && d < 256
            && (bitPos + w < 8 ==> Holding(buf[bytePos := d], 8, bytePos, bitPos + w, bits + BitsOf(x, w)))
            && (bitPos + w == 8 ==> Holding(buf[bytePos := d], 8, bytePos + 1, 0, bits + BitsOf(x, w)))
  {
    hide Or, Low;
    var t := 8 - (bitPos + w);
    var y := Shl(x, t);
    Pow2OfEight();
    DigitBits(x, w);
    ShiftedBelow(x, w, t);
    Pow2Monotone(w + t, 8);
    ShrSmall(y, 8);
    ShlBits(x, 8, t);
    var tail := BitsOf(x, w) + Falses(t);
    assert BitsOf(y, 8) == Falses(bitPos) + tail;
    OrTail(buf[bytePos], y, 8, bitPos, tail);
    if t > 0 {
      ExtendDigit(buf, 8, bytePos, bitPos, bits, Or(buf[bytePos], y), BitsOf(x, w));
    } else {
      assert tail == BitsOf(x, w);
      FillDigit(buf, 8, bytePos, bitPos, bits, Or(buf[bytePos], y), tail);
    }
  }

  lemma ShiftedBelow(x: nat, w: nat, t: nat)
    requires x < Pow2(w)
    ensures Shl(x, t) < Pow2(w + t)
  {
    ShlMonotone(x, Pow2(w), t);
    ShlShl(1, w, t);
  }

  /** A digit that straddles two bytes. */
  lemma PlaceAcross(buf: seq<nat>, w: nat, bytePos: nat, bitPos: nat, bits: seq<bool>, x: nat, d: nat, e: nat,
        buf': seq<nat>)
    requires 1 <= w <= 7 && bitPos < 8 && bytePos + 1 < |buf| && bitPos + w > 8 && x < Pow2(w)
    requires d == Or(buf[bytePos], Shr(x, bitPos + w - 8))
      && e == Or(buf[bytePos + 1], Low(Shl(x, 16 - (bitPos + w)), 8))
    requires buf' == buf[bytePos := d][bytePos + 1 := e]
    requires Holding(buf, 8, bytePos, bitPos, bits)
    ensures d < 256 && e < 256
    ensures Holding(buf', 8, bytePos + 1, bitPos + w - 8, bits + BitsOf(x, w))
  {
    hide Or, Low, Shr;
    var v, k, t := BitsOf(x, w), 8 - bitPos, 16 - (bitPos + w);
    Pow2OfEight();
    DigitBits(x, w);
    Pow2Monotone(w, 8);
    ShrBits(x, w, k, 8);
    var y := Shr(x, w - k);
    Pow2Monotone(k, 8);
    OrTail(buf[bytePos], y, 8, bitPos, v[..k]);
    FillDigit(buf, 8, bytePos, bitPos, bits, d, v[..k]);
    var buf1 := buf[bytePos := d];
    var z := Low(Shl(x, t), 8);
    ShlBits(x, 8, t);
    assert BitsOf(z, 8) == v[k..] + Falses(t);
    var tail := v[k..] + Falses(t);
    assert BitsOf(buf1[bytePos + 1], 8)[0..] == Falses(8);
    assert Falses(0) + tail == tail;
    OrTail(buf1[bytePos + 1], z, 8, 0, tail);
    assert BitsOf(buf1[bytePos + 1], 8)[..0] + (v[k..] + Falses(8 - 0 - |v[k..]|)) == tail;
    assert BitsOf(buf1[bytePos + 1], 8)[..0] + tail == tail;
    ExtendDigit(buf1, 8, bytePos + 1, 0, bits + v[..k], e, v[k..]);
    assert bits + v[..k] + v[k..] == bits + v;
  }

  class BaseNDecoder {
    const lookup: seq<int>
    const w: nat  // bits per character
    const outBuf: array<byte>
    ghost const blockDigits: nat
    var bytePos: nat
    var bitPos: nat
    var inputPosition: nat
    var continueAt: nat
    var delivered: seq<byte>  // what the attached transformation has taken

    ghost var base: seq<byte>     // what it had taken before this message
    ghost var message: seq<byte>  // the message up to the current call
    ghost var input: seq<byte>    // the call that waits for the output
    ghost var end: bool
    ghost var digits: seq<nat>    // of the blocks decoded so far
    ghost var done: seq<byte>     // and the bytes they stand for

    ghost predicate Config() {
      && 1 <= w <= 7 && Table(lookup, w) && outBuf.Length >= 1 && 8 * outBuf.Length == w * blockDigits
    }

    /** Whole blocks are out, the digits that follow are in the buffer. */
    ghost predicate Collecting(taken: seq<byte>)
      requires Config()
      reads this`bytePos, this`bitPos, this`delivered, this`base, this`digits, this`done, outBuf
    {
      var all := Values(lookup, taken);
      && Sent(w, base, delivered, digits, done) && digits <= all
      && bytePos <= outBuf.Length
      && (bytePos == 0 && bitPos == 0 ==> digits == all)
      && (bytePos > 0 || bitPos > 0 ==> Holding(outBuf[..], 8, bytePos, bitPos, Packed(all[|digits|..], w)))
    }

    /** A block of bytes waits for the output. */
    ghost predicate BlockReady(taken: seq<byte>)
      requires Config()
      reads this`delivered, this`base, this`digits, this`done, outBuf
    {
      Sent(w, base, delivered + outBuf[..], digits, done) && digits == Values(lookup, taken)
    }

    /** The last bytes wait for the output. */
    ghost predicate LastReady(taken: seq<byte>)
      requires Config()
      reads this`bytePos, this`delivered, this`base, outBuf
    {
      && bytePos <= outBuf.Length
      && delivered + outBuf[..bytePos] == base + Decoded(lookup, w, taken)
    }

    ghost predicate Valid()
      reads this, outBuf
    {
      && Config()
      && match continueAt
         case 0 => Collecting(message) && bytePos < outBuf.Length
         case 1 => inputPosition <= |input| && BlockReady(message + input[..inputPosition])
         case 2 => end && LastReady(message + input)
         case _ => false
    }

    constructor (lookup: seq<int>, w: nat)
      requires 1 <= w <= 7 && Table(lookup, w)
      ensures Valid() && continueAt == 0 && message == delivered == base == [] && fresh(outBuf)
      ensures this.lookup == lookup && this.w == w
    {
      var n;
      ghost var d;
      n, d := DecoderBlockSize(w);
      this.lookup, this.w, blockDigits := lookup, w, d;
      outBuf := new byte[n](i => 0);
      bytePos, bitPos, inputPosition, continueAt, delivered := 0, 0, 0, 0, [];
      base, message, input, end, digits, done := [], [], [], false, [], [];
    }

    /** Offers data to the attached transformation, which takes all of it or asks to be called again. */
    method Output(site: nat, data: seq<byte>) returns (blocked: bool)
      modifies this`continueAt, this`delivered
      ensures blocked ==> continueAt == site && delivered == old(delivered)
      ensures !blocked ==> continueAt == 0 && delivered == old(delivered) + data
    {
      if * {
        continueAt := site;
        return true;
      }
      delivered := delivered + data;
      continueAt := 0;
      blocked := false;
    }

    /** A piece of the text. After a blocked call the same call is made again. */
    method Put2(input: seq<byte>, messageEnd: bool) returns (blocked: bool)
      requires Valid() && (continueAt != 0 ==> this.input == input && end == messageEnd)
      modifies this, outBuf
      ensures Valid() && blocked == (continueAt != 0)
      ensures blocked ==> this.input == input && end == messageEnd && base == old(base) && message == old(message)
      ensures !blocked && !messageEnd ==> base == old(base) && message == old(message) + input
      ensures !blocked && messageEnd ==>
                && message == [] && delivered == base
                && delivered == old(base) + Decoded(lookup, w, old(message) + input)
    {
      hide Collecting, BlockReady, Decoded, Table;
      if continueAt == 0 {
        inputPosition := 0;
        this.input, end := input, messageEnd;
        assert message + input[..0] == message;
      }
      if continueAt != 2 {
        blocked := PutInput(input);
        if blocked {
          return;
        }
        if !messageEnd {
          message := message + input;
          return;
        }
        CompleteBytes(message + input);
      }
      blocked := Output(2, outBuf[..bytePos]);
      if blocked {
        return;
      }
      StartMessage();
    }

    /** Makes a call, and makes it again while it is blocked, up to a number of times. */
    method PutPatiently(input: seq<byte>, messageEnd: bool, patience: nat) returns (blocked: bool)
      requires Valid() && continueAt == 0
      modifies this, outBuf
      ensures Valid() && blocked == (continueAt != 0)
      ensures !blocked && !messageEnd ==> base == old(base) && message == old(message) + input
      ensures !blocked && messageEnd ==>
        delivered == base && delivered == old(base) + Decoded(lookup, w, old(message) + input)
    {
      hide Collecting, BlockReady, LastReady, Decoded;
      blocked := Put2(input, messageEnd);
      var left := patience;
      while blocked && left > 0
        invariant Valid() && blocked == (continueAt != 0)
        invariant blocked ==> this.input == input && end == messageEnd && base == old(base) && message == old(message)
        invariant !blocked && !messageEnd ==> base == old(base) && message == old(message) + input
        invariant !blocked && messageEnd ==>
          delivered == base && delivered == old(base) + Decoded(lookup, w, old(message) + input)
      {
        blocked := Put2(input, messageEnd);
        left := left - 1;
      }
    }

    /** A whole message in any pieces, each call blocked any number of times. */
    method PutMessage(pieces: seq<seq<byte>>, patience: nat) returns (blocked: bool)
      requires Valid() && continueAt == 0 && message == []
      modifies this, outBuf
      ensures !blocked ==> Valid() && delivered == old(base) + Decoded(lookup, w, Flattened(pieces))
    {
      hide Config, Collecting, BlockReady, LastReady, Valid, Decoded;
      for i := 0 to |pieces|
        invariant Valid() && continueAt == 0 && base == old(base) && message == Flattened(pieces[..i])
      {
        assert pieces[..i + 1][..i] == pieces[..i];
        blocked := PutPatiently(pieces[i], false, patience);
        if blocked {
          return;
        }
      }
      assert pieces[..|pieces|] == pieces;
      assert message + [] == message;
      blocked := PutPatiently([], true, patience);
    }

    method StartMessage()
      requires Config() && continueAt == 0
      modifies this`bytePos, this`bitPos, this`base, this`message, this`digits, this`done
      ensures Valid() && message == [] && base == delivered
    {
      bytePos, bitPos := 0, 0;
      base, message, digits, done := delivered, [], [], [];
      assert base + [] == base;
    }

    method PutInput(input: seq<byte>) returns (blocked: bool)
      requires Config() && inputPosition <= |input| && (continueAt == 0 || continueAt == 1)
      requires continueAt == 0 ==> Collecting(message + input[..inputPosition]) && bytePos < outBuf.Length
      requires continueAt == 1 ==> BlockReady(message + input[..inputPosition])
      modifies this`bytePos, this`bitPos, this`inputPosition, this`continueAt, this`delivered, this`digits, this`done,
          outBuf
      ensures blocked ==> continueAt == 1 && inputPosition <= |input| && BlockReady(message + input[..inputPosition])
      ensures !blocked ==> continueAt == 0 && Collecting(message + input) && bytePos < outBuf.Length
    {
      hide Collecting, BlockReady, Table;
      if continueAt == 1 {
        blocked := OutputBlock(message + input[..inputPosition]);
        if blocked {
          return;
        }
      }
      while inputPosition < |input|
        invariant inputPosition <= |input| && continueAt == 0
        invariant Collecting(message + input[..inputPosition]) && bytePos < outBuf.Length
      {
        ghost var taken := message + input[..inputPosition];
        assert taken + [input[inputPosition]] == message + input[..inputPosition + 1];
        AddCharacter(input[inputPosition], taken);
        inputPosition := inputPosition + 1;
        if bytePos == outBuf.Length {
          MakeBlock(message + input[..inputPosition]);
          blocked := OutputBlock(message + input[..inputPosition]);
          if blocked {
            return;
          }
        }
      }
      assert input[..inputPosition] == input;
      blocked := false;
    }

    method OutputBlock(ghost taken: seq<byte>) returns (blocked: bool)
      requires Config() && BlockReady(taken)
      modifies this`bytePos, this`bitPos, this`continueAt, this`delivered
      ensures blocked ==> continueAt == 1 && BlockReady(taken)
      ensures !blocked ==> continueAt == 0 && Collecting(taken) && bytePos < outBuf.Length
    {
      hide Sent;
      blocked := Output(1, outBuf[..]);
      if !blocked {
        bytePos, bitPos := 0, 0;
      }
    }

    /** Characters outside the alphabet are skipped. */
    method AddCharacter(c: byte, ghost taken: seq<byte>)
      requires Config() && Collecting(taken) && bytePos < outBuf.Length
      modifies this`bytePos, this`bitPos, outBuf
      ensures Collecting(taken + [c]) && bytePos <= outBuf.Length
    {
      hide Sent, Holding, Packed, Values, Pow2;
      ValuesAppend(lookup, taken, c);
      if lookup[c] < 0 || lookup[c] >= 256 {
        assert Values(lookup, taken) + [] == Values(lookup, taken);
        return;
      }
      ghost var cur := Values(lookup, taken)[|digits|..];
      if bytePos == 0 && bitPos == 0 {
        forall i | 0 <= i < outBuf.Length {
          outBuf[i] := 0;
        }
        HoldingNone(outBuf[..], 8);
        assert cur == [] && Packed(cur, w) == [] by { PackedNone(w); }
      }
      assert (Values(lookup, taken) + [lookup[c]])[|digits|..] == cur + [lookup[c]];
      assert Taken(lookup, c);
      PutDigit(lookup[c], cur);
    }

    /** Distributes the bits of one digit over the bytes of the buffer. */
    method PutDigit(x: nat, ghost cur: seq<nat>)
      requires Config() && Holding(outBuf[..], 8, bytePos, bitPos, Packed(cur, w)) && bytePos < outBuf.Length
        && x < Pow2(w)
      modifies outBuf, this`bytePos, this`bitPos
      ensures Holding(outBuf[..], 8, bytePos, bitPos, Packed(cur + [x], w)) && bytePos <= outBuf.Length
      ensures bytePos > 0 || bitPos > 0
    {
      hide Holding, Packed, Pow2, Table;
      ghost var toByte, toBit := StoreDigit(x, cur);
      HoldingRoom(outBuf[..], 8, toByte, toBit, Packed(cur + [x], w));
      bitPos := bitPos + w;
      ghost var after := outBuf[..];
      while bitPos >= 8
        invariant 8 * bytePos + bitPos == 8 * toByte + toBit && bytePos <= toByte
        invariant outBuf[..] == after
      {
        bitPos, bytePos := bitPos - 8, bytePos + 1;
      }
    }

    method StoreDigit(x: nat, ghost cur: seq<nat>) returns (ghost toByte: nat, ghost toBit: nat)
      requires Config() && Holding(outBuf[..], 8, bytePos, bitPos, Packed(cur, w)) && bytePos < outBuf.Length
        && x < Pow2(w)
      modifies outBuf
      ensures 8 * toByte + toBit == 8 * bytePos + bitPos + w && bytePos <= toByte <= outBuf.Length
      ensures Holding(outBuf[..], 8, toByte, toBit, Packed(cur + [x], w))
    {
      hide Holding, Packed, Pow2, Or, Shr, Shl, Low, BitsOf, Table;
      ghost var bits, buf := Packed(cur, w), outBuf[..];
      Fits(buf, w, bytePos, bitPos, cur, blockDigits);
      PackedAppend(cur, x, w);
      var newBitPos := bitPos + w;
      if newBitPos <= 8 {
        PlaceWithin(buf, w, bytePos, bitPos, bits, x);
        outBuf[bytePos] := Or(outBuf[bytePos], Shl(x, 8 - newBitPos));
        assert outBuf[..] == buf[bytePos := Or(buf[bytePos], Shl(x, 8 - newBitPos))];
        toByte, toBit := if newBitPos == 8 then bytePos + 1 else bytePos, if newBitPos == 8 then 0 else newBitPos;
      } else {
        ghost var d, e := Or(buf[bytePos], Shr(x, newBitPos - 8)), Or(buf[bytePos + 1], Low(Shl(x, 16 - newBitPos), 8));
        PlaceAcross(buf, w, bytePos, bitPos, bits, x, d, e, buf[bytePos := d][bytePos + 1 := e]);
        outBuf[bytePos] := Or(outBuf[bytePos], Shr(x, newBitPos - 8));
        outBuf[bytePos + 1] := Or(outBuf[bytePos + 1], Low(Shl(x, 16 - newBitPos), 8));
        assert outBuf[..] == buf[bytePos := d][bytePos + 1 := e];
        toByte, toBit := bytePos + 1, newBitPos - 8;
      }
    }

    /** A full buffer is a block of bytes. */
    method MakeBlock(ghost taken: seq<byte>)
      requires Config() && Collecting(taken) && bytePos == outBuf.Length
      modifies this`digits, this`done
      ensures BlockReady(taken)
    {
      hide Packed;
      ghost var cur := Values(lookup, taken)[|digits|..];
      assert Packed(outBuf[..], 8) == Packed(cur, w);
      PackedConcat(digits, cur, w);
      PackedConcat(done, outBuf[..], 8);
      assert digits + cur == Values(lookup, taken);
      assert base + done + outBuf[..] == base + (done + outBuf[..]);
      digits, done := Values(lookup, taken), done + outBuf[..];
    }

    /** At the end of the text only whole bytes count. */
    lemma CompleteBytes(taken: seq<byte>)
      requires Config() && Collecting(taken) && bytePos < outBuf.Length
      ensures LastReady(taken)
    {
      hide Packed, BitsOf;
      var all := Values(lookup, taken);
      var cur, last := all[|digits|..], outBuf[..bytePos];
      var rest: seq<bool> := [];
      if bytePos > 0 || bitPos > 0 {
        rest := BitsOf(outBuf[bytePos], 8)[..bitPos];
        assert outBuf[..][..bytePos] == last;
        assert Packed(cur, w) == Packed(last, 8) + rest;
      } else {
        PackedNone(w);
        PackedNone(8);
        assert cur == [] && last == [];
        assert Packed(cur, w) == Packed(last, 8) + rest;
      }
      PackedConcat(digits, cur, w);
      PackedConcat(done, last, 8);
      assert digits + cur == all;
      assert Packed(done, 8) + (Packed(last, 8) + rest) == Packed(done, 8) + Packed(last, 8) + rest;
      WholeBytesUnique(Packed(all, w), done + last, rest);
      assert base + done + last == base + (done + last);
    }
  }

  /** There is room for another digit, in the next byte too where it straddles. */
  lemma Fits(buf: seq<nat>, w: nat, bytePos: nat, bitPos: nat, cur: seq<nat>, blockDigits: nat)
    requires 1 <= w <= 7 && Holding(buf, 8, bytePos, bitPos, Packed(cur, w)) && bytePos < |buf|
      && 8 * |buf| == w * blockDigits
    ensures bitPos < 8 && (bitPos + w > 8 ==> bytePos + 1 < |buf|)
  {
    hide Holding, Packed;
    HoldingRoom(buf, 8, bytePos, bitPos, Packed(cur, w));
    PackedLength(cur, w);
    if |cur| >= blockDigits { ProductMonotone(w, blockDigits, |cur|); }
    ProductMonotone(w, |cur| + 1, blockDigits);
    assert w * (|cur| + 1) == w * |cur| + w;
  }

  /** The bytes delivered stand for the digits. */
  ghost predicate Sent(w: nat, base: seq<byte>, delivered: seq<byte>, digits: seq<nat>, done: seq<byte>) {
    Packed(digits, w) == Packed(done, 8) && delivered == base + done
  }
}

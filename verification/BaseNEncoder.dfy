/** The encoder: bytes to digits of an alphabet, a block of characters at a time. */
module BaseNEncoding {
  import opened Bytes
  import opened Bits
  import opened BitStrings
  import opened Remainders
  import opened BaseCode
  import opened Grouping

  /** Digits as characters. */
  function Mapped(alphabet: seq<byte>, w: nat, digits: seq<nat>): (r: seq<byte>)
    requires |alphabet| == Pow2(w) && Below(digits, w)
    ensures |r| == |digits|
  {
    seq(|digits|, i requires 0 <= i < |digits| => alphabet[digits[i]])
  }

  lemma MappedConcat(alphabet: seq<byte>, w: nat, x: seq<nat>, y: seq<nat>)
    requires |alphabet| == Pow2(w) && Below(x, w) && Below(y, w)
    ensures Below(x + y, w) && Mapped(alphabet, w, x + y) == Mapped(alphabet, w, x) + Mapped(alphabet, w, y)
  {}

  /** Filled up to whole groups of n characters. */
  function FilledUp(s: seq<byte>, n: nat, padding: Option<byte>): seq<byte>
    requires n >= 1
  {
    if padding.None? || |s| % n == 0 then s else s + seq(n - |s| % n, i => padding.value)
  }

  function MessageDigits(w: nat, message: seq<byte>): (r: seq<nat>)
    requires w >= 1
    ensures Below(r, w)
  {
    Digits(Packed(message, 8), w)
  }

  /** The code of a message (sections 4 and 5 of RFC 4648 for w = 6). */
  function Encoded(alphabet: seq<byte>, w: nat, n: nat, padding: Option<byte>, message: seq<byte>): seq<byte>
    requires w >= 1 && n >= 1 && |alphabet| == Pow2(w)
  {
    FilledUp(Mapped(alphabet, w, MessageDigits(w, message)), n, padding)
  }

  /** The code in other words: characters of the alphabet whose digits spell the bits of the message with fewer than w
      zeros behind them, and then as few padding characters as complete a group. */
  lemma EncodedIs(alphabet: seq<byte>, w: nat, n: nat, padding: Option<byte>, message: seq<byte>)
      returns (digits: seq<nat>, zeros: nat)
    requires w >= 1 && n >= 1 && |alphabet| == Pow2(w)
    ensures Below(digits, w) && zeros < w && Packed(digits, w) == Packed(message, 8) + Falses(zeros)
    ensures var r := Encoded(alphabet, w, n, padding, message); var k := |digits|;
            && k <= |r| && (forall i :: 0 <= i < k ==> r[i] == alphabet[digits[i]])
            && (padding.None? ==> |r| == k)
            && (padding.Some? ==> |r| % n == 0 && |r| < k + n && forall i :: k <= i < |r| ==> r[i] == padding.value)
  {
    hide Packed, Digits;
    digits := MessageDigits(w, message);
    zeros := DigitsPacked(Packed(message, 8), w);
    var s := Mapped(alphabet, w, digits);
    if padding.Some? && |s| % n != 0 {
      LessRemainder(|s|, n);
      RemainderUnique(n, n, 1, 0);
      AddMultiple(|s| - |s| % n, n, n);
    }
  }

  /** The number of characters that the encoder handles at a time. */
  method EncoderBlockSize(w: nat) returns (n: nat)
    requires 1 <= w <= 7
    ensures SmallestBlock(w, n)
  {
    var i := 8;
    ghost var b := 1;
    while i % w != 0
      invariant i == 8 * b && 1 <= b <= w
      invariant forall j :: 1 <= j < b ==> (8 * j) % w != 0
      decreases w - b
    {
      RemainderUnique(8 * w, w, 8, 0);
      i, b := i + 8, b + 1;
    }
    n := i / w;
    assert w * n == i;
    forall m | 1 <= m < n ensures (w * m) % 8 != 0 {
      if (w * m) % 8 == 0 {
        var j := (w * m) / 8;
        assert 8 * j == w * m;
        ProductMonotone(w, 1, m);
        ProductMonotone(w, m + 1, n);
        assert w * (m + 1) == w * m + w;
        RemainderUnique(8 * j, w, m, 0);
      }
    }
  }

  class BaseNEncoder {
    const alphabet: seq<byte>
    const w: nat  // bits per character
    const padding: Option<byte>
    const outBuf: array<byte>
    const next: Grouper?  // the attached filter; without one, any transformation may be attached
    var bytePos: nat
    var bitPos: nat
    var inputPosition: nat
    var continueAt: nat
    var delivered: seq<byte>  // what the attached transformation has taken

    ghost var base: seq<byte>     // what it had taken before this message
    ghost var message: seq<byte>  // the message up to the current call
    ghost var input: seq<byte>    // the call that waits for the output
    ghost var end: bool
    ghost var digits: seq<nat>    // of the blocks of characters made so far
    ghost var done: seq<byte>     // and the bytes they stand for

    ghost predicate Config() {
      && 1 <= w <= 7 && |alphabet| == Pow2(w)
      && outBuf.Length >= 1 && (w * outBuf.Length) % 8 == 0
      && outBuf !in Downstream()
    }

    ghost function Downstream(): set<object> {
      if next == null then {} else {next} + next.Downstream()
    }

    /** What the attached filters had delivered before this message. */
    ghost function NextBase(): (seq<byte>, seq<byte>)
      reads Downstream()
    {
      if next == null then ([], []) else (next.base, next.NextBase())
    }

    /** What the attached filters have delivered of a whole message with the given code, and are ready for the next. */
    ghost predicate PassedOn(bases: (seq<byte>, seq<byte>), code: seq<byte>)
      reads Downstream()
    {
      next != null ==>
        var lines := Grouped(next.groupSize, next.separator, next.terminator, code);
        && next.message == [] && next.delivered == next.base == bases.0 + lines
        && (next.next != null ==>
              && next.next.message == [] && |next.next.lookup| == 256
              && next.next.delivered == next.next.base
                == bases.1 + BaseNDecoding.Decoded(next.next.lookup, next.next.w, lines))
    }

    /** The attached filter has taken what was delivered of this message, and waits for the given call to
        be repeated. */
    ghost predicate Linked(waiting: Option<Offer>)
      reads this`delivered, this`base, Downstream()
    {
      next != null ==>
        && next.Valid() && delivered == base + next.message
        && (waiting.None? ==> next.continueAt == 0)
        && (waiting.Some? ==> next.continueAt != 0 && Offer(next.input, next.end) == waiting.value)
    }

    /** Whole blocks are out, the rest of the bytes taken is in the buffer. */
    ghost predicate Collecting(taken: seq<byte>)
      requires Config()
      reads this`bytePos, this`bitPos, this`delivered, this`base, this`digits, this`done, outBuf
    {
      && Sent(alphabet, w, outBuf.Length, base, delivered, digits, done) && done <= taken
      && bytePos <= outBuf.Length && (bytePos == 0 ==> bitPos == 0 && done == taken)
      && (bytePos > 0 ==> Holding(outBuf[..], w, bytePos, bitPos, Packed(taken[|done|..], 8)))
    }

    /** A block of characters waits for the output. */
    ghost predicate BlockReady(taken: seq<byte>)
      requires Config()
      reads this`bytePos, this`bitPos, this`delivered, this`base, this`digits, this`done, outBuf
    {
      Sent(alphabet, w, outBuf.Length, base, delivered + outBuf[..], digits, done) && done == taken
    }

    /** The last characters wait for the output. */
    ghost predicate LastReady(taken: seq<byte>)
      requires Config()
      reads this`bytePos, this`bitPos, this`delivered, this`base, this`digits, this`done, outBuf
    {
      && bytePos <= outBuf.Length
      && delivered + outBuf[..bytePos] == base + Encoded(alphabet, w, outBuf.Length, padding, taken)
    }

    ghost predicate Valid()
      reads this, outBuf, Downstream()
    {
      && Config()
      && match continueAt
         case 0 => Collecting(message) && bytePos < outBuf.Length && Linked(None)
         case 1 =>
           && inputPosition <= |input| && BlockReady(message + input[..inputPosition])
           && Linked(Some(Offer(outBuf[..], false)))
         case 2 => end && LastReady(message + input) && Linked(Some(Offer(outBuf[..bytePos], true)))
         case _ => false
    }

    constructor (alphabet: seq<byte>, w: nat, padding: Option<byte>, next: Grouper?)
      requires 1 <= w <= 7 && |alphabet| == Pow2(w)
      requires next != null ==> next.Valid() && next.continueAt == 0 && next.message == []
      ensures this.next == next
      ensures Valid() && continueAt == 0 && message == delivered == base == [] && fresh(outBuf)
      ensures this.alphabet == alphabet && this.w == w && this.padding == padding && SmallestBlock(w, outBuf.Length)
    {
      var n := EncoderBlockSize(w);
      this.alphabet, this.w, this.padding, this.next := alphabet, w, padding, next;
      outBuf := new byte[n](i => 0);
      bytePos, bitPos, inputPosition, continueAt, delivered := 0, 0, 0, 0, [];
      base, message, input, end, digits, done := [], [], [], false, [], [];
      SmallRemainder(0, n);
    }

    /** `Filter::Output`: calls the attached filter. Whatever is attached takes all of the data or asks to be called
        again. */
    method Output(site: nat, data: seq<byte>, end: bool) returns (blocked: bool)
      requires Linked(None) || Linked(Some(Offer(data, end)))
      modifies this`continueAt, this`delivered, Downstream()
      ensures blocked ==> continueAt == site && delivered == old(delivered) && Linked(Some(Offer(data, end)))
      ensures !blocked ==> continueAt == 0 && delivered == old(delivered) + data
      ensures !blocked && !end ==> Linked(None)
      ensures blocked || !end ==> NextBase() == old(NextBase())
      ensures !blocked && end && next != null ==>
                next.Valid() && next.continueAt == 0 && PassedOn(old(NextBase()), old(next.message) + data)
    {
      hide Grouper.Valid, BaseNDecoding.Decoded, Grouped;
      if next != null {
        if next.next != null { next.TableSize(); }
        blocked := next.Put2(data, end);
      } else if * {
        blocked := true;
      } else {
        blocked := false;
      }
      continueAt := if blocked then site else 0;
      if !blocked {
        delivered := delivered + data;
      }
    }

    /** A piece of the message. After a blocked call the same call is made again. */
    method Put2(input: seq<byte>, messageEnd: bool) returns (blocked: bool)
      requires Valid() && (continueAt != 0 ==> this.input == input && end == messageEnd)
      modifies this, outBuf, Downstream()
      ensures Valid() && blocked == (continueAt != 0)
      ensures blocked ==> this.input == input && end == messageEnd && base == old(base) && message == old(message)
      ensures !blocked && !messageEnd ==> base == old(base) && message == old(message) + input
      ensures blocked || !messageEnd ==> NextBase() == old(NextBase())
      ensures !blocked && messageEnd ==>
                var code := Encoded(alphabet, w, outBuf.Length, padding, old(message) + input);
                message == [] && delivered == base == old(base) + code && PassedOn(old(NextBase()), code)
    {
      hide Collecting, BlockReady, Encoded, Linked, PassedOn;
      if continueAt == 0 {
        inputPosition := 0;
        this.input, end := input, messageEnd;
        assert message + input[..0] == message;
      }
      if continueAt != 2 {
        blocked := PutInput(input);
        if blocked {
          return;
        }
        if !messageEnd {
          message := message + input;
          return;
        }
        LastBlock(message + input);
      }
      blocked := Finish(message + input);
    }

    /** The last characters, and the end of the message. */
    method Finish(ghost taken: seq<byte>) returns (blocked: bool)
      requires Config() && LastReady(taken) && (Linked(None) || Linked(Some(Offer(outBuf[..bytePos], true))))
      modifies this`bytePos, this`bitPos, this`continueAt, this`delivered, this`base, this`message, this`digits,
          this`done, Downstream()
      ensures blocked == (continueAt != 0)
      ensures blocked ==> continueAt == 2 && LastReady(taken) && Linked(Some(Offer(outBuf[..bytePos], true)))
                          && base == old(base) && message == old(message) && NextBase() == old(NextBase())
      ensures !blocked ==>
                var code := Encoded(alphabet, w, outBuf.Length, padding, taken);
                Valid() && message == [] && delivered == base == old(base) + code && PassedOn(old(NextBase()), code)
    {
      hide Encoded, Grouper.Valid, Grouped, BaseNDecoding.Decoded, Mapped;
      ghost var code := Encoded(alphabet, w, outBuf.Length, padding, taken);
      if next != null {
        TakenSoFar(base, next.message, outBuf[..bytePos], code);
      }
      blocked := Output(2, outBuf[..bytePos], true);
      if !blocked {
        StartMessage();
      }
    }

    /** Makes a call, and makes it again while it is blocked, up to a number of times. */
    method PutPatiently(input: seq<byte>, messageEnd: bool, patience: nat) returns (blocked: bool)
      requires Valid() && continueAt == 0
      modifies this, outBuf, Downstream()
      ensures Valid() && blocked == (continueAt != 0)
      ensures !blocked && !messageEnd ==>
                base == old(base) && message == old(message) + input && NextBase() == old(NextBase())
      ensures !blocked && messageEnd ==>
                var code := Encoded(alphabet, w, outBuf.Length, padding, old(message) + input);
                delivered == old(base) + code && PassedOn(old(NextBase()), code)
    {
      hide Collecting, BlockReady, LastReady, Encoded, Linked, PassedOn;
      blocked := Put2(input, messageEnd);
      var left := patience;
      while blocked && left > 0
        invariant Valid() && blocked == (continueAt != 0)
        invariant blocked ==> this.input == input && end == messageEnd && base == old(base) && message == old(message)
        invariant !blocked && !messageEnd ==> base == old(base) && message == old(message) + input
        invariant blocked || !messageEnd ==> NextBase() == old(NextBase())
        invariant !blocked && messageEnd ==>
                    var code := Encoded(alphabet, w, outBuf.Length, padding, old(message) + input);
                    delivered == old(base) + code && PassedOn(old(NextBase()), code)
      {
        blocked := Put2(input, messageEnd);
        left := left - 1;
      }
    }

    /** A whole message in any pieces, each call blocked any number of times, through all attached filters. */
    method PutMessage(pieces: seq<seq<byte>>, patience: nat) returns (blocked: bool)
      requires Valid() && continueAt == 0 && message == []
      modifies this, outBuf, Downstream()
      ensures !blocked ==>
                var code := Encoded(alphabet, w, outBuf.Length, padding, Flattened(pieces));
                Valid() && delivered == old(base) + code && PassedOn(old(NextBase()), code)
    {
      hide Config, Collecting, BlockReady, LastReady, Valid, Encoded, PassedOn;
      for i := 0 to |pieces|
        invariant Valid() && continueAt == 0 && base == old(base) && message == Flattened(pieces[..i])
        invariant NextBase() == old(NextBase())
      {
        assert pieces[..i + 1][..i] == pieces[..i];
        blocked := PutPatiently(pieces[i], false, patience);
        if blocked {
          return;
        }
      }
      assert pieces[..|pieces|] == pieces;
      assert message + [] == message;
      blocked := PutPatiently([], true, patience);
    }

    method StartMessage()
      requires Config() && continueAt == 0
      requires next != null ==> next.Valid() && next.continueAt == 0 && next.message == []
      modifies this`bytePos, this`bitPos, this`base, this`message, this`digits, this`done
      ensures Valid() && message == [] && base == delivered
    {
      hide Grouper.Valid;
      bytePos, bitPos := 0, 0;
      base, message, digits, done := delivered, [], [], [];
      SmallRemainder(0, outBuf.Length);
      assert base + Mapped(alphabet, w, []) == base;
      assert base + [] == base;
    }

    method PutInput(input: seq<byte>) returns (blocked: bool)
      requires Config() && inputPosition <= |input| && (continueAt == 0 || continueAt == 1)
      requires continueAt == 0 ==>
        Collecting(message + input[..inputPosition]) && bytePos < outBuf.Length && Linked(None)
      requires continueAt == 1 ==>
        BlockReady(message + input[..inputPosition]) && Linked(Some(Offer(outBuf[..], false)))
      modifies this`bytePos, this`bitPos, this`inputPosition, this`continueAt, this`delivered, this`digits, this`done,
          outBuf, Downstream()
      ensures NextBase() == old(NextBase()) && blocked == (continueAt != 0)
      ensures blocked ==> continueAt == 1 && inputPosition <= |input| && BlockReady(message + input[..inputPosition])
                          && Linked(Some(Offer(outBuf[..], false)))
      ensures !blocked ==> Collecting(message + input) && bytePos < outBuf.Length && Linked(None)
    {
      hide Collecting, BlockReady, LastReady, Encoded, Linked;
      if continueAt == 1 {
        blocked := OutputBlock(message + input[..inputPosition]);
        if blocked {
          return;
        }
      }
      while inputPosition < |input|
        invariant inputPosition <= |input| && continueAt == 0 && NextBase() == old(NextBase()) && Linked(None)
        invariant Collecting(message + input[..inputPosition]) && bytePos < outBuf.Length
      {
        ghost var taken := message + input[..inputPosition];
        assert taken + [input[inputPosition]] == message + input[..inputPosition + 1];
        AddByte(input[inputPosition], taken);
        inputPosition := inputPosition + 1;
        if bytePos == outBuf.Length {
          MakeBlock(message + input[..inputPosition]);
          blocked := OutputBlock(message + input[..inputPosition]);
          if blocked {
            return;
          }
        }
      }
      assert input[..inputPosition] == input;
      blocked := false;
    }

    method OutputBlock(ghost taken: seq<byte>) returns (blocked: bool)
      requires Config() && BlockReady(taken) && (Linked(None) || Linked(Some(Offer(outBuf[..], false))))
      modifies this`bytePos, this`bitPos, this`continueAt, this`delivered, Downstream()
      ensures NextBase() == old(NextBase())
      ensures blocked ==> continueAt == 1 && BlockReady(taken) && Linked(Some(Offer(outBuf[..], false)))
      ensures !blocked ==> continueAt == 0 && Collecting(taken) && bytePos < outBuf.Length && Linked(None)
    {
      hide Sent, Linked;
      blocked := Output(1, outBuf[..], false);
      if !blocked {
        bytePos, bitPos := 0, 0;
      }
    }

    method AddByte(b: byte, ghost taken: seq<byte>)
      requires Config() && Collecting(taken) && bytePos < outBuf.Length
      modifies this`bytePos, this`bitPos, outBuf
      ensures Collecting(taken + [b]) && bytePos <= outBuf.Length
    {
      hide Sent, Holding, Packed;
      ghost var block := taken[|done|..];
      if bytePos == 0 {
        forall i | 0 <= i < outBuf.Length {
          outBuf[i] := 0;
        }
        HoldingNone(outBuf[..], w);
        assert block == [] && Packed(block, 8) == [] by { PackedNone(8); }
      }
      HoldingRoom(outBuf[..], w, bytePos, bitPos, Packed(block, 8));
      PackedLength(block, 8);
      WholeBytesFit(|block|, w * outBuf.Length);
      PackedAppend(block, b, 8);
      assert (taken + [b])[|done|..] == block + [b];
      PutByte(b, Packed(block, 8));
      assert w * 0 == 0;
      HoldingRoom(outBuf[..], w, bytePos, bitPos, Packed(block + [b], 8));
    }

    /** Turns the digits in the buffer into characters. */
    method Translate(k: nat)
      requires Config() && k <= outBuf.Length && Below(outBuf[..k], w)
      modifies outBuf
      ensures outBuf[..k] == Mapped(alphabet, w, old(outBuf[..k]))
    {
      for i := 0 to k
        invariant outBuf[..i] == Mapped(alphabet, w, old(outBuf[..i]))
        invariant outBuf[i..] == old(outBuf[i..])
      {
        assert outBuf[i] == outBuf[i..][0] == old(outBuf[..])[i];
        outBuf[i] := alphabet[outBuf[i]];
        assert outBuf[..i + 1] == outBuf[..i] + [outBuf[i]];
      }
    }

    /** A full buffer becomes a block of characters. */
    method MakeBlock(ghost taken: seq<byte>)
      requires Config() && Collecting(taken) && bytePos == outBuf.Length
      modifies this`digits, this`done, outBuf
      ensures BlockReady(taken)
    {
      ghost var ds: seq<nat> := outBuf[..];
      ghost var block := taken[|done|..];
      assert Packed(ds, w) == Packed(block, 8) && Below(ds, w);
      Translate(outBuf.Length);
      assert outBuf[..outBuf.Length] == outBuf[..] && ds[..outBuf.Length] == ds;
      assert done + block == taken;
      SentMore(alphabet, w, outBuf.Length, base, delivered, digits, done, ds, block);
      digits, done := digits + ds, taken;
    }

    /** The end of the message: the started digit counts as one, and padding completes the block. */
    method LastBlock(ghost taken: seq<byte>)
      requires Config() && Collecting(taken) && bytePos < outBuf.Length
      modifies this`bytePos, outBuf
      ensures LastReady(taken)
    {
      hide Packed, Mapped, Sent;
      ghost var block := taken[|done|..];
      ghost var z := 0;
      if bytePos > 0 {
        z := LastDigits(outBuf[..], w, bytePos, bitPos, Packed(block, 8));
      } else {
        PackedNone(w);
        PackedNone(8);
      }
      if bitPos > 0 {
        bytePos := bytePos + 1;
      }
      ghost var ds: seq<nat> := outBuf[..bytePos];
      assert Packed(ds, w) == Packed(block, 8) + Falses(z) && Below(ds, w) && z < w;
      Translate(bytePos);
      ghost var chars, k := outBuf[..bytePos], bytePos;
      if padding.Some? && bytePos > 0 {
        for i := bytePos to outBuf.Length
          invariant outBuf[..i] == chars + seq(i - k, _ => padding.value)
        {
          outBuf[i] := padding.value;
          assert outBuf[..i + 1] == outBuf[..i] + [padding.value];
        }
        bytePos := outBuf.Length;
      }
      assert done + block == taken;
      EncodedAs(alphabet, w, outBuf.Length, padding, base, delivered, digits, done, ds, block, z);
    }

    /** Distributes the bits of one byte over the digits of the buffer. */
    method PutByte(b: byte, ghost bits: seq<bool>)
      requires Config() && Holding(outBuf[..], w, bytePos, bitPos, bits) && |bits| + 8 <= w * outBuf.Length
      modifies outBuf, this`bytePos, this`bitPos
      ensures Holding(outBuf[..], w, bytePos, bitPos, bits + BitsOf(b, 8))
    {
      hide Holding, BitsOf, Shr, Low, Shl, Or;
      var x, left: nat := b, 8;
      ghost var now, rest := bits, BitsOf(b, 8);
      assert rest == rest + Falses(0);
      Pow2OfEight();
      while true
        invariant x < 256 && 1 <= left <= 8 && |rest| == left && BitsOf(x, 8) == rest + Falses(8 - left)
        invariant now + rest == bits + BitsOf(b, 8)
        invariant Holding(outBuf[..], w, bytePos, bitPos, now)
        decreases left
      {
        HoldingRoom(outBuf[..], w, bytePos, bitPos, now);
        assert |now| + left == |bits| + 8;
        var target := w - bitPos;
        ghost var old_ := outBuf[..];
        AddDigit(old_, w, bytePos, bitPos, now, x, left, rest);
        outBuf[bytePos] := Or(outBuf[bytePos], Shr(x, 8 - target));
        assert outBuf[..] == old_[bytePos := Or(old_[bytePos], Shr(x, 8 - target))];
        if left >= target {
          bitPos, bytePos := 0, bytePos + 1;
          left := left - target;
          assert now + rest == now + rest[..target] + rest[target..];
          ShlBits(x, 8, target);
          assert BitsOf(x, 8)[target..] + Falses(target) == rest[target..] + Falses(8 - left);
          now, rest := now + rest[..target], rest[target..];
          if left == 0 {
            assert now + rest == now;
            break;
          }
          x := Low(Shl(x, target), 8);
        } else {
          bitPos := bitPos + left;
          now, rest := now + rest, [];
          assert now + rest == now;
          break;
        }
      }
    }
  }

  lemma TakenSoFar(base: seq<byte>, message: seq<byte>, last: seq<byte>, code: seq<byte>)
    requires base + message + last == base + code
    ensures message + last == code
  {
    assert (base + message + last)[|base|..] == message + last;
    assert (base + code)[|base|..] == code;
  }

  /** A block of characters for a block of bytes. */
  lemma SentMore(alphabet: seq<byte>, w: nat, n: nat, base: seq<byte>, delivered: seq<byte>, digits: seq<nat>,
        done: seq<byte>,
                 ds: seq<nat>, block: seq<byte>)
    requires |alphabet| == Pow2(w) && n >= 1 && Sent(alphabet, w, n, base, delivered, digits, done)
    requires Below(ds, w) && |ds| == n && Packed(ds, w) == Packed(block, 8)
    ensures Sent(alphabet, w, n, base, delivered + Mapped(alphabet, w, ds), digits + ds, done + block)
  {
    hide Packed;
    MappedConcat(alphabet, w, digits, ds);
    PackedConcat(digits, ds, w);
    PackedConcat(done, block, 8);
    AddMultiple(|digits|, n, n);
    RemainderUnique(n, n, 1, 0);
  }

  /** The digits of the buffer with the started one. */
  lemma LastDigits(buf: seq<nat>, w: nat, bytePos: nat, bitPos: nat, bits: seq<bool>) returns (z: nat)
    requires w >= 1 && Holding(buf, w, bytePos, bitPos, bits) && bytePos < |buf|
    ensures var k := if bitPos > 0 then bytePos + 1 else bytePos;
            z < w && Packed(buf[..k], w) == bits + Falses(z) && Below(buf[..k], w)
  {
    if bitPos > 0 {
      z := w - bitPos;
      assert buf[..bytePos + 1] == buf[..bytePos] + [buf[bytePos]];
      PackedAppend(buf[..bytePos], buf[bytePos], w);
      var d := BitsOf(buf[bytePos], w);
      assert d == d[..bitPos] + d[bitPos..];
    } else {
      z := 0;
    }
  }

  /** Blocks and last digits are the digits of the message. */
  lemma DigitsOf(w: nat, digits: seq<nat>, done: seq<byte>, ds: seq<nat>, block: seq<byte>, z: nat)
    requires w >= 1 && Below(digits, w) && Packed(digits, w) == Packed(done, 8)
    requires Below(ds, w) && z < w && Packed(ds, w) == Packed(block, 8) + Falses(z)
    ensures digits + ds == MessageDigits(w, done + block)
  {
    hide Packed, Digits;
    PackedConcat(digits, ds, w);
    PackedConcat(done, block, 8);
    assert Packed(digits + ds, w) == Packed(done + block, 8) + Falses(z);
    DigitsUnique(Packed(done + block, 8), w, digits + ds, z);
  }

  /** The last characters, with padding behind them. */
  function Completed(chars: seq<byte>, n: nat, padding: Option<byte>): seq<byte>
    requires |chars| <= n
  {
    if padding.Some? && |chars| > 0 then chars + seq(n - |chars|, i => padding.value) else chars
  }

  lemma EncodedAs(alphabet: seq<byte>, w: nat, n: nat, padding: Option<byte>, base: seq<byte>, delivered: seq<byte>,
                  digits: seq<nat>, done: seq<byte>, ds: seq<nat>, block: seq<byte>, z: nat)
    requires w >= 1 && |alphabet| == Pow2(w) && n >= 1 && Sent(alphabet, w, n, base, delivered, digits, done)
    requires Below(ds, w) && |ds| <= n && z < w && Packed(ds, w) == Packed(block, 8) + Falses(z)
    ensures delivered + Completed(Mapped(alphabet, w, ds), n, padding)
            == base + Encoded(alphabet, w, n, padding, done + block)
  {
    hide Packed, MessageDigits, Mapped, FilledUp, Completed;
    DigitsOf(w, digits, done, ds, block, z);
    MappedConcat(alphabet, w, digits, ds);
    var front, last := Mapped(alphabet, w, digits), Completed(Mapped(alphabet, w, ds), n, padding);
    FilledUpAs(front, Mapped(alphabet, w, ds), n, padding);
    assert base + front + last == base + (front + last);
  }

  lemma FilledUpAs(front: seq<byte>, chars: seq<byte>, n: nat, padding: Option<byte>)
    requires n >= 1 && |front| % n == 0 && |chars| <= n
    ensures FilledUp(front + chars, n, padding) == front + Completed(chars, n, padding)
  {
    AddMultiple(|front|, |chars|, n);
    if |chars| == n { RemainderUnique(n, n, 1, 0); } else { SmallRemainder(|chars|, n); }
  }

  lemma WholeBytesFit(k: nat, room: nat)
    requires room % 8 == 0 && 8 * k < room
    ensures 8 * k + 8 <= room
  {}

  /** The characters delivered stand for the digits, and these for whole bytes. */
  ghost predicate Sent(alphabet: seq<byte>, w: nat, n: nat, base: seq<byte>, delivered: seq<byte>, digits: seq<nat>,
        done: seq<byte>)
    requires |alphabet| == Pow2(w) && n >= 1
  {
    && Below(digits, w) && |digits| % n == 0 && Packed(digits, w) == Packed(done, 8)
    && delivered == base + Mapped(alphabet, w, digits)
  }

  /** One step: the current digit takes the first bits of x. */
  lemma AddDigit(buf: seq<nat>, w: nat, bytePos: nat, bitPos: nat, bits: seq<bool>, x: nat, left: nat, rest: seq<bool>)
    requires 1 <= w <= 7 && Holding(buf, w, bytePos, bitPos, bits) && bytePos < |buf|
    requires x < 256 && 1 <= left <= 8 && |rest| == left && BitsOf(x, 8) == rest + Falses(8 - left)
    ensures var t := w - bitPos; var d := Or(buf[bytePos], Shr(x, 8 - t)); var buf' := buf[bytePos := d];
            && d < 256
            && (left >= t ==> Holding(buf', w, bytePos + 1, 0, bits + rest[..t]))
            && (left < t ==> Holding(buf', w, bytePos, bitPos + left, bits + rest))
  {
    hide Shr, Or;
    var t := w - bitPos;
    var y := Shr(x, 8 - t);
    Pow2OfEight();
    Pow2Monotone(t, w);
    Pow2Monotone(w, 8);
    ShrBits(x, 8, t, w);
    var tail := BitsOf(x, 8)[..t];
    OrTail(buf[bytePos], y, w, bitPos, tail);
    if left >= t {
      assert tail == rest[..t];
      FillDigit(buf, w, bytePos, bitPos, bits, Or(buf[bytePos], y), tail);
    } else {
      assert tail == rest + Falses(t - left);
      ExtendDigit(buf, w, bytePos, bitPos, bits, Or(buf[bytePos], y), rest);
    }
  }
}

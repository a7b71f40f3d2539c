/** CCM (NIST SP 800-38C) on top of the authenticated-cipher state machine of `AuthenticatedSymmetricCipherBase`. */
module Ccm {
  import opened BlockChaining
  import opened Remainders
  import opened CcmFormat

  /** The keystream byte at each position of the counter mode started at a counter block. */
  type keystream = (block, nat) -> bv8

  /** Data combined with the keystream from a position on. */
  function Encrypted(stream: keystream, iv: block, pos: nat, data: block): (r: block)
    ensures |r| == |data|
  {
    seq(|data|, i requires 0 <= i < |data| => data[i] ^ stream(iv, pos + i))
  }

  lemma EncryptedAt(stream: keystream, iv: block, pos: nat, data: block)
    ensures forall i :: 0 <= i < |data| ==> Encrypted(stream, iv, pos, data)[i] ^ data[i] == stream(iv, pos + i)
  {}

  lemma EncryptedTwice(stream: keystream, iv: block, pos: nat, data: block)
    ensures Encrypted(stream, iv, pos, Encrypted(stream, iv, pos, data)) == data
  {}

  lemma EncryptedConcat(stream: keystream, iv: block, pos: nat, a: block, b: block)
    ensures Encrypted(stream, iv, pos, a + b) == Encrypted(stream, iv, pos, a) + Encrypted(stream, iv, pos + |a|, b)
  {}

  /** The tag of SP 800-38C: the CBC-MAC of the formatted input, masked with the first keystream block. */
  function TagOf(cipher: block -> block, stream: keystream, nonce: block, digestSize: nat, header: block,
        message: block, size: nat): block
    requires BlockCipher(cipher, SIZE) && 7 <= |nonce| <= 13 && digestSize >= 2 && size <= SIZE
  {
    Encrypted(stream, CounterBlock(nonce), 0,
        Chain(cipher, Zeros(SIZE), Formatted(nonce, digestSize, header, message))[..size])
  }

  // Buffered authentication ----------------------------------------------------------------------------

  /** The chaining buffer has taken all whole blocks of `fed`; the rest waits in the data buffer. */
  ghost predicate Fed(cipher: block -> block, cbc: block, buf: block, num: nat, fed: block)
    requires BlockCipher(cipher, SIZE)
  {
    && |buf| == SIZE && num == |fed| % SIZE && num < SIZE && num <= |fed|
    && (|fed| - num) % SIZE == 0
    && cbc == Chain(cipher, Zeros(SIZE), fed[..|fed| - num])
    && buf[..num] == fed[|fed| - num..]
  }

  lemma Whole(n: nat)
    ensures n % SIZE <= n && (n - n % SIZE) % SIZE == 0
  {
    LessRemainder(n, SIZE);
  }

  /** Feeding whole blocks to an empty data buffer. */
  lemma FedBlocks(cipher: block -> block, cbc: block, buf: block, fed: block, d: block)
    requires BlockCipher(cipher, SIZE) && Fed(cipher, cbc, buf, 0, fed) && |d| % SIZE == 0
    ensures |cbc| == SIZE && Fed(cipher, Chain(cipher, cbc, d), buf, 0, fed + d)
  {
    hide Chain;
    assert fed[..|fed| - 0] == fed;
    ChainConcat(cipher, Zeros(SIZE), fed, d);
    assert (fed + d)[..|fed + d| - 0] == fed + d;
  }

  /** Completing the waiting block. */
  lemma FedCompletes(cipher: block -> block, cbc: block, buf: block, num: nat, fed: block, d: block)
    requires BlockCipher(cipher, SIZE) && Fed(cipher, cbc, buf, num, fed) && num + |d| == SIZE
    ensures |cbc| == SIZE && |buf[..num] + d| % |cbc| == 0
    ensures Fed(cipher, Chain(cipher, cbc, buf[..num] + d), buf, 0, fed + d)
  {
    hide Chain;
    var done := fed[..|fed| - num];
    assert fed + d == done + (buf[..num] + d);
    ChainConcat(cipher, Zeros(SIZE), done, buf[..num] + d);
    assert (fed + d)[..|fed + d| - 0] == fed + d;
  }

  /** Storing less than a block behind what waits already. */
  lemma FedStores(cipher: block -> block, cbc: block, buf: block, num: nat, fed: block, d: block)
    requires BlockCipher(cipher, SIZE) && Fed(cipher, cbc, buf, num, fed) && num + |d| < SIZE
    ensures num + |d| <= |buf| && Fed(cipher, cbc, buf[..num] + d + buf[num + |d|..], num + |d|, fed + d)
  {
    hide Chain;
    var all, n := fed + d, num + |d|;
    assert all[..|all| - n] == fed[..|fed| - num];
    assert all[|all| - n..] == buf[..num] + d;
    RemainderGrows(|fed|, |d|, num);
  }

  lemma RemainderGrows(a: nat, b: nat, num: nat)
    requires num == a % SIZE && num + b < SIZE
    ensures (a + b) % SIZE == num + b
  {}

  /** Padding the waiting bytes with zeros. */
  lemma FedPads(cipher: block -> block, cbc: block, buf: block, num: nat, fed: block)
    requires BlockCipher(cipher, SIZE) && Fed(cipher, cbc, buf, num, fed)
    ensures |cbc| == SIZE
    ensures num == 0 ==> Padded(fed) == fed
    ensures num > 0 ==> Fed(cipher, cipher(XorInto(cbc, 0, buf[..num])), buf, 0, Padded(fed))
  {
    hide Chain;
    if num > 0 {
      var d := Zeros(SIZE - num);
      FedCompletes(cipher, cbc, buf, num, fed, d);
      OneBlock(cipher, cbc, buf[..num] + d);
      assert XorInto(cbc, 0, buf[..num] + d) == XorInto(cbc, 0, buf[..num]);
    }
  }

  /** `AuthenticateData`: completes the waiting block if the input suffices, chains the whole blocks that
      follow and keeps the rest. */
  method AuthenticateData(cipher: block -> block, cbc0: block, buf0: block, num0: nat, input0: block, ghost fed: block)
    returns (cbc: block, buf: block, num: nat)
    requires BlockCipher(cipher, SIZE) && |cbc0| == |buf0| == SIZE && num0 < SIZE
    ensures |cbc| == |buf| == SIZE && num < SIZE
    ensures Fed(cipher, cbc0, buf0, num0, fed) ==> Fed(cipher, cbc, buf, num, fed + input0)
  {
    hide Fed, Chain, BlockCipher;
    cbc, buf, num := cbc0, buf0, num0;
    var input := input0;
    ghost var now, held := fed, Fed(cipher, cbc0, buf0, num0, fed);
    if num != 0 {
      if num + |input| >= SIZE {
        var head := input[..SIZE - num];
        if held { FedCompletes(cipher, cbc, buf, num, now, head); }
        var data := buf[..num] + head;
        var left;
        cbc, left := AdvancedProcessBlocks(cipher, cbc, data);
        OneWhole(data);
        input := input[SIZE - num..];
        assert input0 == head + input;
        now, num := now + head, 0;
        assert now + input == fed + input0;
      } else {
        if held { FedStores(cipher, cbc, buf, num, now, input); }
        buf := buf[..num] + input + buf[num + |input|..];
        num := num + |input|;
        return;
      }
    }
    if |input| >= SIZE {
      var leftOver;
      ghost var c := cbc;
      cbc, leftOver := AdvancedProcessBlocks(cipher, cbc, input);
      var blocks := input[..|input| - leftOver];
      if held { FedBlocks(cipher, c, buf, now, blocks); }
      assert input == blocks + input[|input| - leftOver..];
      input := input[|input| - leftOver..];
      now := now + blocks;
      assert now + input == fed + input0;
    }
    if held { FedStores(cipher, cbc, buf, 0, now, input); }
    assert buf[..0] + input + buf[0 + |input|..] == input + buf[|input|..];
    buf := input + buf[|input|..];
    num := |input|;
  }

  lemma OneWhole(data: block)
    requires |data| == SIZE
    ensures |data| % SIZE == 0 && data[..|data| - 0] == data
  {}

  // The state machine ----------------------------------------------------------------------------------

  datatype State = Start | KeySet | IVSet | AuthUntransformed | AuthTransformed | AuthFooter

  /** The exceptions that the operations raise. */
  datatype Outcome = Ok | BadState | InvalidArgument

  /** Encryption and tag of SP 800-38C (section 6.1). */
  function Sealed(cipher: block -> block, stream: keystream, digestSize: nat, iv: block, header: block,
        message: block, size: nat)
    : (block, block)
    requires BlockCipher(cipher, SIZE) && 7 <= |iv| <= 13 && digestSize >= 2 && size <= SIZE
  {
    (Encrypted(stream, CounterBlock(iv), SIZE, message), TagOf(cipher, stream, iv, digestSize, header, message, size))
  }

  /** What sealing means byte by byte: the ciphertext is the message combined with the keystream behind its first block,
      the tag is the last chained block of an input that reads back as nonce, header and message, combined with the
      first keystream block. */
  lemma SealedIs(cipher: block -> block, stream: keystream, digestSize: nat, iv: block, header: block,
        message: block, size: nat) returns (s: block)
    requires BlockCipher(cipher, SIZE) && Acceptable(iv, |header|, |message|) && size <= SIZE
    requires 4 <= digestSize <= 16 && digestSize % 2 == 0
    ensures |s| >= SIZE && |s| % SIZE == 0 && Read(s) == Input(iv, digestSize, header, message)
    ensures var r := Sealed(cipher, stream, digestSize, iv, header, message, size);
            && |r.0| == |message| && |r.1| == size
            && (forall i :: 0 <= i < |message| ==> r.0[i] ^ message[i] == stream(CounterBlock(iv), SIZE + i))
            && (forall i :: 0 <= i < size ==>
                  r.1[i] ^ Chain(cipher, Zeros(SIZE), s)[i] == stream(CounterBlock(iv), i))
  {
    hide BlockCipher, Chain, Read, Formatted, CounterBlock, MaxMessageLength;
    FormattedReads(iv, digestSize, header, message);
    s := Formatted(iv, digestSize, header, message);
    EncryptedAt(stream, CounterBlock(iv), SIZE, message);
    EncryptedAt(stream, CounterBlock(iv), 0, Chain(cipher, Zeros(SIZE), s)[..size]);
  }

  function Joined(pieces: seq<block>): block {
    if pieces == [] then [] else Joined(pieces[..|pieces| - 1]) + pieces[|pieces| - 1]
  }

  lemma {:induction false} JoinedPrefix(pieces: seq<block>, i: nat)
    requires i <= |pieces|
    ensures |Joined(pieces[..i])| <= |Joined(pieces)|
  {
    if i < |pieces| {
      assert pieces[..|pieces| - 1][..i] == pieces[..i];
      JoinedPrefix(pieces[..|pieces| - 1], i);
    } else {
      assert pieces[..i] == pieces;
    }
  }

  class CCM {
    const cipher: block -> block
    const stream: keystream
    const digestSize: nat
    const forward: bool

    var state: State
    var L: nat
    var buf: block
    var cbc: block
    var num: nat
    var totalHeaderLength: nat
    var totalMessageLength: nat
    var totalFooterLength: nat
    var aadLength: nat
    var messageLength: nat
    var ctrIv: block
    var ctrPos: nat

    ghost var nonce: block
    ghost var header: block
    ghost var message: block   // the plaintext so far
    ghost var untouched: bool  // nothing but the nonce has been given
    ghost var specified: bool  // the lengths were given first, as the mode demands

    ghost predicate Sized()
      reads this
    {
      && BlockCipher(cipher, SIZE) && 4 <= digestSize <= 16
      && |buf| == |cbc| == SIZE && num < SIZE
    }

    ghost predicate Running()
      reads this
    {
      state == IVSet || state == AuthUntransformed || state == AuthTransformed || state == AuthFooter
    }

    /** What the nonce fixed. */
    ghost predicate Keyed()
      reads this
    {
      && 7 <= |nonce| <= 13 && L == LengthSize(nonce) && ctrIv == CounterBlock(nonce)
    }

    /** What has been authenticated, by state; `pending` message bytes are counted but not yet processed. */
    ghost predicate Progress(pending: nat := 0)
      requires Sized() && Keyed()
      reads this
    {
      var b0 := FirstBlockOf(nonce, digestSize, aadLength, messageLength);
      && totalHeaderLength == |header| && totalMessageLength == |message| + pending && totalFooterLength == 0
      && ctrPos == SIZE + |message|
      && match state
         case IVSet => message == [] && Fed(cipher, cbc, buf, num, b0 + (HeaderPrefix(aadLength) + header))
         case AuthUntransformed =>
           forward && |header| == aadLength
             && Fed(cipher, cbc, buf, num, b0 + Padded(HeaderPrefix(aadLength) + header) + message)
         case AuthTransformed =>
           !forward && |header| == aadLength
             && Fed(cipher, cbc, buf, num, b0 + Padded(HeaderPrefix(aadLength) + header) + message)
         case _ => false
    }

    ghost predicate Valid()
      reads this
    {
      && Sized()
      && (Running() ==> Keyed())
      && (untouched ==> state == IVSet && buf == ctrIv && num == 0 && !specified
                        && totalHeaderLength == totalMessageLength == totalFooterLength == 0
                        && header == [] && message == [] && ctrPos == SIZE)
      && (specified ==> Running() && Progress())
    }

    constructor (cipher: block -> block, stream: keystream, digestSize: nat, forward: bool)
      requires BlockCipher(cipher, SIZE) && 4 <= digestSize <= 16 && digestSize % 2 == 0
      ensures Valid() && state == KeySet && !specified && L == 8 && num == 0
      ensures this.cipher == cipher && this.stream == stream && this.digestSize == digestSize && this.forward == forward
    {
      this.cipher, this.stream, this.digestSize, this.forward := cipher, stream, digestSize, forward;
      state, L, num := KeySet, 8, 0;
      buf, cbc, ctrIv, ctrPos := Zeros(SIZE), Zeros(SIZE), Zeros(SIZE), 0;
      totalHeaderLength, totalMessageLength, totalFooterLength, aadLength, messageLength := 0, 0, 0, 0, 0;
      nonce, header, message, untouched, specified := [], [], [], false, false;
    }

    method Resynchronize(iv: block) returns (o: Outcome)
      requires Valid()
      modifies this
      ensures Valid() && (o == Ok <==> old(state) != Start && 7 <= |iv| <= 13)
      ensures o == Ok ==> state == IVSet && untouched && nonce == iv && !specified && aadLength == messageLength == 0
    {
      hide BlockCipher, Progress, CounterBlock, LengthSize;
      if state == Start {
        return BadState;
      }
      Clear();
      if |iv| < 7 || |iv| > 13 {
        return InvalidArgument;
      }
      Resync(iv);
      state, untouched := IVSet, true;
      o := Ok;
    }

    /** Forgets the message in progress. */
    method Clear()
      requires Sized()
      modifies this`num, this`state, this`totalHeaderLength, this`totalMessageLength, this`totalFooterLength,
               this`header, this`message, this`untouched, this`specified
      ensures Sized() && num == 0 && state == KeySet && header == [] && message == [] && !untouched && !specified
      ensures totalHeaderLength == totalMessageLength == totalFooterLength == 0
    {
      num, state, totalHeaderLength, totalMessageLength, totalFooterLength := 0, KeySet, 0, 0, 0;
      header, message, untouched, specified := [], [], false, false;
    }

    /** `CCM_Base::Resync`: the counter block of the nonce, with the keystream positioned behind its first block. */
    method Resync(iv: block)
      requires 7 <= |iv| <= 13
      modifies this`L, this`buf, this`ctrIv, this`ctrPos, this`aadLength, this`messageLength, this`nonce
      ensures Keyed() && nonce == iv && buf == ctrIv && ctrPos == SIZE && aadLength == messageLength == 0
    {
      hide ToByte, Zeros;
      L := 15 - |iv|;  // at most 8 for these nonces
      buf := [ToByte(L - 1)] + iv + Zeros(15 - |iv|);
      ctrIv, ctrPos := buf, SIZE;
      aadLength, messageLength := 0, 0;
      nonce := iv;
    }

    /** The announced lengths go into the first block, the header length in front of the header. */
    method SpecifyDataLengths(headerLength: nat, length: nat) returns (o: Outcome)
      requires Valid()
      modifies this
      ensures Valid() && nonce == old(nonce)
      ensures o == Ok <==> headerLength <= MAX_LWORD && length <= MaxMessageLength(old(L)) && old(state) == IVSet
      ensures o == Ok && old(untouched) ==>
                specified && state == IVSet && header == [] && message == [] && aadLength == headerLength
                  && messageLength == length
      ensures o != Ok ==> state == old(state)
    {
      hide BlockCipher, Progress, MaxMessageLength, Fed, HeaderPrefix, CounterBlock, LengthSize;
      if headerLength > MAX_LWORD || length > MaxMessageLength(L) {
        return InvalidArgument;
      }
      if state != IVSet {
        return BadState;
      }
      ghost var wasUntouched := untouched;
      untouched, specified := false, false;
      UncheckedSpecifyDataLengths(headerLength, length, wasUntouched);
      if wasUntouched {
        specified := true;
        Announced();
      }
      o := Ok;
    }

    lemma Announced()
      requires Sized() && Keyed() && state == IVSet && header == [] && message == [] && ctrPos == SIZE
      requires totalHeaderLength == totalMessageLength == totalFooterLength == 0
      requires Fed(cipher, cbc, buf, num,
          FirstBlockOf(nonce, digestSize, aadLength, messageLength) + HeaderPrefix(aadLength))
      ensures Progress()
    {
      hide Fed, HeaderPrefix, FirstBlockOf, BlockCipher;
      assert HeaderPrefix(aadLength) + header == HeaderPrefix(aadLength);
    }

    method UncheckedSpecifyDataLengths(headerLength: nat, length: nat, ghost untouched: bool)
      requires Sized() && Keyed() && (untouched ==> buf == ctrIv && num == 0)
      modifies this`aadLength, this`messageLength, this`cbc, this`buf, this`num
      ensures Sized() && aadLength == headerLength && messageLength == length
      ensures untouched ==>
                Fed(cipher, cbc, buf, num,
                    FirstBlockOf(nonce, digestSize, headerLength, length) + HeaderPrefix(headerLength))
    {
      hide Fed, Chain, ToByte, BigEndian, Flags, Zeros, CounterBlock, BlockCipher, HeaderPrefix, FirstBlockOf;
      aadLength, messageLength := headerLength, length;
      var word := BigEndian(length, 8);
      var b0 := [Flags(headerLength > 0, digestSize, L)] + buf[1..16 - L] + word[8 - L..];
      CipherSize(cipher, b0);
      cbc := cipher(b0);
      ghost var buf0, prefix := buf, HeaderPrefix(headerLength);
      if headerLength > 0 {
        WriteHeaderLength(headerLength);
      }
      if untouched {
        FirstFed(cipher, nonce, digestSize, headerLength, length, b0);
        FedPrefix(cipher, cbc, buf0, b0, prefix);
        assert buf == prefix + buf0[|prefix|..];
      }
    }

    method WriteHeaderLength(headerLength: nat)
      requires |buf| == SIZE && headerLength > 0
      modifies this`buf, this`num
      ensures var prefix := HeaderPrefix(headerLength); buf == prefix + old(buf)[|prefix|..] && num == |prefix|
    {
      hide BigEndian;
      if headerLength < 0xff00 {
        buf := BigEndian(headerLength, 2) + buf[2..];
        num := 2;
      } else if headerLength < 0x1_0000_0000 {
        buf := [FF, FE] + BigEndian(headerLength, 4) + buf[6..];
        num := 6;
      } else {
        buf := [FF, FF] + BigEndian(headerLength, 8) + buf[10..];
        num := 10;
      }
    }

    /** More header, or (after the message) footer data, which this mode then refuses. */
    method Update(input: block) returns (o: Outcome)
      requires Valid()
      modifies this
      ensures Valid() && nonce == old(nonce) && aadLength == old(aadLength) && messageLength == old(messageLength)
      ensures input == [] ==> o == Ok && state == old(state) && specified == old(specified)
                              && header == old(header) && message == old(message)
      ensures input != [] && (old(state) == Start || old(state) == KeySet) ==> o == BadState
      ensures old(state) == IVSet ==> o == Ok && state == IVSet
      ensures old(state) == IVSet && old(specified) ==>
                specified && header == old(header) + input && message == old(message)
      ensures input != [] && (old(state) == AuthUntransformed || old(state) == AuthTransformed) ==>
                (o == Ok <==> messageLength == old(totalMessageLength)) && (o != Ok ==> state == old(state))
      ensures old(state) == AuthFooter ==> o == Ok
      ensures input != [] && o == Ok && old(state) != IVSet ==>
                state == AuthFooter && totalFooterLength == old(totalFooterLength) + |input|
    {
      hide Progress, CounterBlock, BlockCipher, LengthSize;
      if |input| == 0 {
        assert header + input == header;
        return Ok;
      }
      if state == Start || state == KeySet {
        return BadState;
      }
      untouched := false;
      if state == IVSet {
        UpdateHeader(input);
        return Ok;
      }
      specified := false;
      o := UpdateFooter(input);
    }

    method UpdateHeader(input: block)
      requires Sized() && Keyed() && state == IVSet && (specified ==> Progress())
      modifies this`cbc, this`buf, this`num, this`totalHeaderLength, this`header
      ensures Sized() && (specified ==> Progress()) && header == old(header) + input
    {
      hide Fed, Chain, HeaderPrefix, FirstBlockOf, Padded, CounterBlock, BlockCipher, LengthSize;
      ghost var b0 := FirstBlockOf(nonce, digestSize, aadLength, messageLength);
      ghost var fed := b0 + (HeaderPrefix(aadLength) + header);
      assert fed + input == b0 + (HeaderPrefix(aadLength) + (header + input));
      cbc, buf, num := AuthenticateData(cipher, cbc, buf, num, input, fed);
      totalHeaderLength := totalHeaderLength + |input|;
      header := header + input;
    }

    method UpdateFooter(input: block) returns (o: Outcome)
      requires Sized() && (state == AuthUntransformed || state == AuthTransformed || state == AuthFooter)
      modifies this`cbc, this`buf, this`num, this`totalFooterLength, this`state
      ensures Sized() && (o == Ok ==> state == AuthFooter && totalFooterLength == old(totalFooterLength) + |input|)
      ensures o != Ok ==> state == old(state)
      ensures o == InvalidArgument <==> old(state) != AuthFooter && messageLength != totalMessageLength
      ensures o != BadState
    {
      hide Fed, Chain, BlockCipher;
      if state == AuthUntransformed || state == AuthTransformed {
        if messageLength != totalMessageLength {
          return InvalidArgument;
        }
        FinishBlock();
        state := AuthFooter;
      }
      cbc, buf, num := AuthenticateData(cipher, cbc, buf, num, input, []);
      totalFooterLength := totalFooterLength + |input|;
      o := Ok;
    }

    /** Pads the waiting bytes with zeros and chains them (`AuthenticateLastHeaderBlock`,
        `AuthenticateLastConfidentialBlock`). */
    method FinishBlock()
      requires Sized()
      modifies this`cbc, this`num
      ensures Sized() && num == 0
      ensures forall fed :: old(Fed(cipher, cbc, buf, num, fed)) ==> Fed(cipher, cbc, buf, 0, Padded(fed))
    {
      hide Chain;
      forall fed | Fed(cipher, cbc, buf, num, fed)
        ensures num > 0 ==> Fed(cipher, cipher(XorInto(cbc, 0, buf[..num])), buf, 0, Padded(fed))
        ensures num == 0 ==> Padded(fed) == fed
      {
        FedPads(cipher, cbc, buf, num, fed);
      }
      if num > 0 {
        assert SizedAt(cipher, SIZE, XorInto(cbc, 0, buf[..num]));
        cbc := cipher(XorInto(cbc, 0, buf[..num]));
        num := 0;
      }
    }

    /** Ends the header: its length must be the announced one. */
    method BeginMessage(ghost pending: nat)
      returns (o: Outcome)
      requires Sized() && Keyed() && state == IVSet && (specified ==> Progress(pending))
      modifies this`cbc, this`num, this`state
      ensures Sized() && (o == Ok <==> aadLength == totalHeaderLength) && o != BadState
      ensures o == Ok ==>
        (specified ==> Progress(pending)) && state == if forward then AuthUntransformed else AuthTransformed
      ensures o != Ok ==> state == IVSet
    {
      hide Fed, Chain, HeaderPrefix, FirstBlockOf, Padded, CounterBlock, BlockCipher, LengthSize;
      if aadLength != totalHeaderLength {
        return InvalidArgument;
      }
      FinishBlock();
      state := if forward then AuthUntransformed else AuthTransformed;
      if specified {
        var b0, a := FirstBlockOf(nonce, digestSize, aadLength, messageLength), HeaderPrefix(aadLength) + header;
        PaddedTail(b0, a);
        assert b0 + Padded(a) + message == b0 + Padded(a);
      }
      o := Ok;
    }

    /** One piece of message: the authenticated side is the plaintext, whichever side that is. */
    method ProcessPiece(input: block) returns (out: block)
      requires Sized() && Keyed() && (state == AuthUntransformed || state == AuthTransformed)
      requires specified ==> Progress(|input|)
      modifies this`cbc, this`buf, this`num, this`ctrPos, this`message
      ensures Sized() && (specified ==> Progress())
      ensures out == Encrypted(stream, ctrIv, old(ctrPos), input)
      ensures message == old(message) + (if state == AuthUntransformed then input else out)
    {
      hide Fed, Chain, HeaderPrefix, FirstBlockOf, Padded, CounterBlock, BlockCipher, LengthSize, Encrypted;
      ghost var front := FirstBlockOf(nonce, digestSize, aadLength, messageLength)
        + Padded(HeaderPrefix(aadLength) + header);
      out := Encrypted(stream, ctrIv, ctrPos, input);
      var plain := if state == AuthUntransformed then input else out;
      assert front + message + plain == front + (message + plain);
      cbc, buf, num := AuthenticateData(cipher, cbc, buf, num, plain, front + message);
      ctrPos := ctrPos + |input|;
      message := message + plain;
    }

    /** The message, in as many pieces as the caller likes. */
    method ProcessData(input: block) returns (o: Outcome, out: block)
      requires Valid()
      modifies this
      ensures Valid() && nonce == old(nonce) && L == old(L) && aadLength == old(aadLength)
        && messageLength == old(messageLength)
      ensures old(state) == Start || old(state) == KeySet || old(state) == AuthFooter ==> o != Ok
      ensures old(specified) ==>
                (o == Ok <==> |old(message)| + |input| <= MaxMessageLength(old(L)) && |old(header)| == aadLength)
      ensures o == Ok && old(specified) ==>
                && specified && header == old(header)
                && out == Encrypted(stream, CounterBlock(nonce), SIZE + |old(message)|, input)
                && message == old(message) + (if forward then input else out)
    {
      hide Progress, CounterBlock, BlockCipher, LengthSize, MaxMessageLength, Encrypted;
      out := [];
      ghost var was, n := specified, |message|;
      CountMessage(|input|);
      untouched := false;
      if state == Start || state == KeySet {
        return BadState, out;
      }
      if totalMessageLength > MaxMessageLength(L) {
        specified := false;
        return InvalidArgument, out;
      }
      if state == AuthFooter {
        specified := false;
        return BadState, out;
      }
      o, out := ProcessRunning(input);
    }

    method CountMessage(n: nat)
      requires Sized() && (specified ==> Keyed() && Progress())
      modifies this`totalMessageLength
      ensures specified ==> Progress(n) && totalMessageLength == |message| + n && totalHeaderLength == |header|
                            && ctrPos == SIZE + |message|
                            && (state != IVSet ==>
                                 state == (if forward then AuthUntransformed else AuthTransformed)
                                   && |header| == aadLength)
    {
      hide Fed, HeaderPrefix, FirstBlockOf, Padded, CounterBlock, BlockCipher, LengthSize;
      totalMessageLength := totalMessageLength + n;
    }

    method ProcessRunning(input: block) returns (o: Outcome, out: block)
      requires Sized() && Keyed() && (state == IVSet || state == AuthUntransformed || state == AuthTransformed)
      requires specified ==> Progress(|input|)
      modifies this`cbc, this`buf, this`num, this`ctrPos, this`message, this`state, this`specified
      ensures Sized() && (specified ==> Progress())
      ensures o != Ok <==> old(state) == IVSet && aadLength != totalHeaderLength
      ensures o != Ok ==> state == IVSet && !specified
      ensures o == Ok ==>
                && specified == old(specified)
                && state == (if old(state) != IVSet then old(state)
                             else if forward then AuthUntransformed else AuthTransformed)
                && out == Encrypted(stream, ctrIv, old(ctrPos), input)
                && message == old(message) + (if state == AuthUntransformed then input else out)
    {
      hide Progress, CounterBlock, BlockCipher, LengthSize, Encrypted;
      out := [];
      if state == IVSet {
        o := BeginMessage(|input|);
        if o != Ok {
          specified := false;
          return;
        }
      }
      out := ProcessPiece(input);
      o := Ok;
    }

    /** Pads the last block and masks the chaining buffer with the first keystream block. */
    method TruncatedFinal(size: nat) returns (o: Outcome, mac: block)
      requires Valid() && size <= SIZE
      modifies this
      ensures Valid() && nonce == old(nonce) && (o == Ok ==> state == KeySet)
      ensures old(state) == Start || old(state) == KeySet ==> o != Ok
      ensures old(totalFooterLength) > 0 ==> o == InvalidArgument
      ensures old(specified) ==>
                (o == Ok <==> |old(header)| == old(aadLength) <= MAX_LWORD && |old(message)| == old(messageLength))
      ensures o == Ok && old(specified) ==>
                mac == TagOf(cipher, stream, nonce, digestSize, old(header), old(message), size)
    {
      hide Progress, CounterBlock, BlockCipher, LengthSize, TagOf, Encrypted;
      mac := [];
      if specified { Totals(); }
      untouched := false;
      if totalHeaderLength > MAX_LWORD || totalFooterLength > 0 {
        specified := false;
        return InvalidArgument, mac;
      }
      if state == Start || state == KeySet {
        return BadState, mac;
      }
      o, mac := FinishRunning(size);
      specified := false;
      if o == Ok {
        state := KeySet;
      }
    }

    lemma Totals()
      requires Sized() && Keyed() && Progress()
      ensures totalMessageLength == |message| && totalHeaderLength == |header| && totalFooterLength == 0
        && ctrPos == SIZE + |message|
      ensures state != AuthFooter
      ensures state != IVSet ==>
        state == (if forward then AuthUntransformed else AuthTransformed) && |header| == aadLength
    {}

    method FinishRunning(size: nat) returns (o: Outcome, mac: block)
      requires Sized() && Keyed() && Running() && size <= SIZE && (specified ==> Progress())
      modifies this`cbc, this`num, this`state
      ensures Sized() && Running() && o != BadState
      ensures o == Ok <==> (old(state) == IVSet ==> aadLength == totalHeaderLength)
                           && (old(state) != AuthFooter ==> messageLength == totalMessageLength)
      ensures o == Ok && specified ==>
                |header| == aadLength && mac == TagOf(cipher, stream, nonce, digestSize, header, message, size)
    {
      hide Progress, CounterBlock, BlockCipher, LengthSize, TagOf, Encrypted, Chained, Chain;
      mac := [];
      if specified { Totals(); }
      if state == IVSet {
        o := BeginMessage(0);
        if o != Ok {
          return;
        }
      }
      if state != AuthFooter {
        if messageLength != totalMessageLength {
          return InvalidArgument, mac;
        }
        if specified { Totals(); }
        FinishMessage();
      }
      mac := Encrypted(stream, ctrIv, 0, cbc[..size]);
      if specified { TagDone(size); }
      o := Ok;
    }

    /** Everything has been formatted and chained. */
    ghost predicate Chained()
      requires Sized() && Keyed()
      reads this
    {
      |header| == aadLength && |message| == messageLength
      && cbc == Chain(cipher, Zeros(SIZE), Formatted(nonce, digestSize, header, message))
    }

    method FinishMessage()
      requires Sized() && Keyed() && (specified ==> Progress() && state != IVSet && |message| == messageLength)
      modifies this`cbc, this`num
      ensures Sized() && (specified ==> Chained())
    {
      hide Chain, HeaderPrefix, FirstBlockOf, Padded, CounterBlock, BlockCipher, LengthSize;
      ghost var b0, a := FirstBlockOf(nonce, digestSize, aadLength, messageLength),
          Padded(HeaderPrefix(aadLength) + header);
      FinishBlock();
      if specified {
        WholeBlocks(|a|, 0);
        PaddedTail(b0 + a, message);
        var all := b0 + a + Padded(message);
        assert all[..|all| - 0] == all;
      }
    }

    lemma TagDone(size: nat)
      requires Sized() && Keyed() && size <= SIZE && Chained()
      ensures Encrypted(stream, ctrIv, 0, cbc[..size])
        == TagOf(cipher, stream, nonce, digestSize, header, message, size)
    {
      hide Chain, Encrypted, Formatted, CounterBlock, BlockCipher;
    }

    /** Refuses a tag longer than the digest before looking at anything else. */
    method TruncatedVerify(mac: block) returns (o: Outcome, accepted: bool)
      requires Valid()
      modifies this
      ensures Valid() && nonce == old(nonce)
      ensures |mac| > digestSize ==> o == InvalidArgument && state == old(state)
      ensures old(specified) ==>
                (o == Ok <==> |mac| <= digestSize
                              && |old(header)| == old(aadLength) <= MAX_LWORD && |old(message)| == old(messageLength))
      ensures o == Ok && old(specified) ==>
                |mac| <= SIZE
                && (accepted <==> mac == TagOf(cipher, stream, nonce, digestSize, old(header), old(message), |mac|))
    {
      hide Progress, Keyed, TagOf, BlockCipher;
      if |mac| > digestSize {
        return InvalidArgument, false;
      }
      var digest;
      o, digest := TruncatedFinal(|mac|);
      accepted := o == Ok && digest == mac;
    }

    /** Starts a message of announced lengths. */
    method Announce(iv: block, headerLength: nat, length: nat) returns (o: Outcome)
      requires Valid() && state != Start
      modifies this
      ensures Valid() && (o == Ok <==> Acceptable(iv, headerLength, length))
      ensures o == Ok ==> specified && state == IVSet && nonce == iv && header == message == []
                          && aadLength == headerLength && messageLength == length
    {
      hide Progress, Valid, Sized, CounterBlock, LengthSize, MaxMessageLength;
      o := Resynchronize(iv);
      if o != Ok {
        return;
      }
      Nonced();
      o := SpecifyDataLengths(headerLength, length);
    }

    method FeedHeaders(headers: seq<block>)
      requires Valid() && specified && state == IVSet && header == message == []
      modifies this
      ensures Valid() && specified && state == IVSet && header == Joined(headers) && message == []
      ensures nonce == old(nonce) && aadLength == old(aadLength) && messageLength == old(messageLength)
    {
      hide Progress, Valid, Sized;
      for i := 0 to |headers|
        invariant Valid() && specified && state == IVSet && header == Joined(headers[..i]) && message == []
        invariant nonce == old(nonce) && aadLength == old(aadLength) && messageLength == old(messageLength)
      {
        assert headers[..i + 1][..i] == headers[..i];
        var o := Update(headers[i]);
      }
      assert headers[..|headers|] == headers;
    }

    method ProcessPieces(pieces: seq<block>) returns (o: Outcome, out: block)
      requires Valid() && specified && message == [] && |header| == aadLength && 7 <= |nonce| <= 13
      requires |Joined(pieces)| <= MaxMessageLength(L)
      modifies this
      ensures Valid() && specified && o == Ok && header == old(header)
        && message == if forward then Joined(pieces) else out
      ensures out == Encrypted(stream, CounterBlock(nonce), SIZE, Joined(pieces))
      ensures nonce == old(nonce) && aadLength == old(aadLength) && messageLength == old(messageLength)
    {
      hide Progress, Valid, Sized, CounterBlock, MaxMessageLength, Encrypted, LengthSize;
      o, out := Ok, [];
      for i := 0 to |pieces|
        invariant Valid() && specified && o == Ok && header == old(header) && L == old(L)
        invariant nonce == old(nonce) && aadLength == old(aadLength) && messageLength == old(messageLength)
        invariant message == if forward then Joined(pieces[..i]) else out
        invariant out == Encrypted(stream, CounterBlock(nonce), SIZE, Joined(pieces[..i]))
      {
        JoinedPrefix(pieces, i + 1);
        assert pieces[..i + 1][..i] == pieces[..i];
        EncryptedConcat(stream, CounterBlock(nonce), SIZE, Joined(pieces[..i]), pieces[i]);
        var more;
        o, more := ProcessData(pieces[i]);
        out := out + more;
      }
      assert pieces[..|pieces|] == pieces;
    }

    /** Announces the lengths and feeds the header. */
    method Begin(iv: block, header: block, length: nat) returns (o: Outcome)
      requires Valid() && state != Start
      modifies this
      ensures Valid() && (o == Ok <==> Acceptable(iv, |header|, length))
      ensures o == Ok ==> specified && nonce == iv && this.header == header && message == []
                          && aadLength == |header| && messageLength == length
    {
      hide Progress, Valid, Sized, CounterBlock, LengthSize, MaxMessageLength;
      o := Announce(iv, |header|, length);
      if o != Ok {
        return;
      }
      o := Update(header);
      assert [] + header == header;
    }

    lemma Nonced()
      requires Valid() && (Running() || specified)
      ensures BlockCipher(cipher, SIZE) && digestSize >= 4 && 7 <= |nonce| <= 13 && L == LengthSize(nonce)
    {
      hide Progress, BlockCipher;
    }

    method EncryptAndAuthenticate(iv: block, header: block, message: block, size: nat)
      returns (o: Outcome, ciphertext: block, mac: block)
      requires Valid() && state != Start && forward && size <= SIZE
      modifies this
      ensures Valid() && (o == Ok <==> Acceptable(iv, |header|, |message|))
      ensures o == Ok ==> (ciphertext, mac) == Sealed(cipher, stream, digestSize, iv, header, message, size)
    {
      hide Progress, Valid, Sized, CounterBlock, LengthSize, MaxMessageLength, TagOf, Encrypted;
      ciphertext, mac := [], [];
      o := Begin(iv, header, |message|);
      if o != Ok {
        return;
      }
      Nonced();
      o, ciphertext := ProcessData(message);
      assert [] + message == message;
      if o != Ok {
        return;
      }
      o, mac := TruncatedFinal(size);
    }

    method DecryptAndVerify(iv: block, header: block, ciphertext: block, mac: block)
      returns (o: Outcome, message: block, accepted: bool)
      requires Valid() && state != Start && !forward
      modifies this
      ensures Valid() && (o == Ok <==> Acceptable(iv, |header|, |ciphertext|) && |mac| <= digestSize)
      ensures Acceptable(iv, |header|, |ciphertext|) && |mac| > digestSize ==> o == InvalidArgument
      ensures o == Ok ==> |mac| <= SIZE
      ensures o == Ok ==> forall m :: (ciphertext, mac) == Sealed(cipher, stream, digestSize, iv, header, m, |mac|) ==>
                                        accepted && message == m
      ensures o == Ok && accepted ==>
        (ciphertext, mac) == Sealed(cipher, stream, digestSize, iv, header, message, |mac|)
    {
      hide Progress, Valid, Sized, CounterBlock, LengthSize, MaxMessageLength, TagOf, Encrypted;
      message, accepted := [], false;
      o := Begin(iv, header, |ciphertext|);
      if o != Ok {
        return;
      }
      Nonced();
      EncryptedTwice(stream, CounterBlock(iv), SIZE, ciphertext);
      o, message := ProcessData(ciphertext);
      assert [] + message == message;
      if o != Ok {
        return;
      }
      o, accepted := TruncatedVerify(mac);
      if o != Ok {
        return;
      }
      forall m | (ciphertext, mac) == Sealed(cipher, stream, digestSize, iv, header, m, |mac|) ensures message == m {
        EncryptedTwice(stream, CounterBlock(iv), SIZE, m);
      }
    }

    /** The same call sequence with header and message cut into any pieces. */
    method InPieces(iv: block, headers: seq<block>, pieces: seq<block>, size: nat)
      returns (o: Outcome, out: block, mac: block)
      requires Valid() && state != Start && size <= SIZE
      modifies this
      ensures Valid() && (o == Ok <==> Acceptable(iv, |Joined(headers)|, |Joined(pieces)|))
      ensures o == Ok ==>
                var plain := if forward then Joined(pieces) else out;
                && out == Encrypted(stream, CounterBlock(iv), SIZE, Joined(pieces))
                && mac == TagOf(cipher, stream, iv, digestSize, Joined(headers), plain, size)
    {
      hide Progress, Valid, Sized, CounterBlock, LengthSize, MaxMessageLength, TagOf, Encrypted;
      out, mac := [], [];
      o := Announce(iv, |Joined(headers)|, |Joined(pieces)|);
      if o != Ok {
        return;
      }
      FeedHeaders(headers);
      Nonced();
      o, out := ProcessPieces(pieces);
      o, mac := TruncatedFinal(size);
    }
  }

  /** `SetKeyWithoutResync`: tags have 4, 6, 8, 10, 12, 14 or 16 bytes. */
  method SetKeyWithoutResync(cipher: block -> block, stream: keystream, digestSize: nat, forward: bool)
    returns (ccm: CCM?)
    requires BlockCipher(cipher, SIZE)
    ensures ccm != null <==> digestSize in {4, 6, 8, 10, 12, 14, 16}
    ensures ccm != null ==>
              && fresh(ccm) && ccm.Valid() && ccm.state == KeySet && ccm.L == 8
              && ccm.cipher == cipher && ccm.stream == stream && ccm.digestSize == digestSize && ccm.forward == forward
  {
    hide BlockCipher, CCM.Valid;
    if digestSize % 2 > 0 || digestSize < 4 || digestSize > 16 {
      return null;
    }
    ccm := new CCM(cipher, stream, digestSize, forward);
  }

  /** What is made with a tag of some size is accepted, and opens to the message, exactly when the tag is no longer
      than the digest. */
  method Exchange(cipher: block -> block, stream: keystream, digestSize: nat, iv: block, header: block,
        message: block, size: nat)
    returns (sealed: Outcome, read: Outcome, m: block, accepted: bool)
    requires BlockCipher(cipher, SIZE) && 4 <= digestSize <= 16 && digestSize % 2 == 0 && size <= SIZE
    ensures sealed == Ok <==> Acceptable(iv, |header|, |message|)
    ensures sealed == Ok ==> (read == Ok && accepted && m == message <==> size <= digestSize)
    ensures sealed == Ok && size > digestSize ==> read == InvalidArgument
  {
    hide CCM.Valid, BlockCipher, Acceptable, CounterBlock;
    m, read, accepted := [], BadState, false;
    var encryption := new CCM(cipher, stream, digestSize, true);
    var ciphertext, mac;
    sealed, ciphertext, mac := encryption.EncryptAndAuthenticate(iv, header, message, size);
    if sealed == Ok {
      SealedSizes(cipher, stream, digestSize, iv, header, message, size);
      var decryption := new CCM(cipher, stream, digestSize, false);
      read, m, accepted := decryption.DecryptAndVerify(iv, header, ciphertext, mac);
    }
  }

  lemma SealedSizes(cipher: block -> block, stream: keystream, digestSize: nat, iv: block, header: block,
        message: block, size: nat)
    requires BlockCipher(cipher, SIZE) && 7 <= |iv| <= 13 && digestSize >= 2 && size <= SIZE
    ensures var (c, t) := Sealed(cipher, stream, digestSize, iv, header, message, size); |c| == |message| && |t| == size
  {
    hide Chain, Formatted, CounterBlock;
  }

  /** A tag of 16 bytes on a digest of 4 is made, and then refused. */
  method LongTagRefused(cipher: block -> block, stream: keystream) returns (sealed: Outcome, read: Outcome)
    requires BlockCipher(cipher, SIZE)
    ensures sealed == Ok && read == InvalidArgument
  {
    hide BlockCipher;
    var m, accepted;
    sealed, read, m, accepted := Exchange(cipher, stream, 4, Zeros(7), [], [], 16);
  }

  lemma {:induction false} PaddedTail(front: block, m: block)
    requires |front| % SIZE == 0
    ensures Padded(front + m) == front + Padded(m)
  {
    AddMultiple(|front|, |m|, SIZE);
    assert front + m + Zeros(SIZE - |m| % SIZE) == front + (m + Zeros(SIZE - |m| % SIZE));
  }

  lemma CounterHoldsNonce(nonce: block)
    requires 7 <= |nonce| <= 13
    ensures CounterBlock(nonce)[1..16 - LengthSize(nonce)] == nonce
  {}

  lemma CipherSize(cipher: block -> block, b: block)
    requires BlockCipher(cipher, SIZE) && |b| == SIZE
    ensures |cipher(b)| == SIZE
  {
    assert SizedAt(cipher, SIZE, b);
  }

  /** The first block is taken out of the counter block and the announced lengths. */
  lemma FirstFed(cipher: block -> block, nonce: block, digestSize: nat, headerLength: nat, length: nat, b0: block)
    requires BlockCipher(cipher, SIZE) && 7 <= |nonce| <= 13 && digestSize >= 2
    requires var l := LengthSize(nonce);
             b0 == [Flags(headerLength > 0, digestSize, l)] + CounterBlock(nonce)[1..16 - l]
               + BigEndian(length, 8)[8 - l..]
    ensures b0 == FirstBlockOf(nonce, digestSize, headerLength, length)
    ensures Fed(cipher, cipher(b0), CounterBlock(nonce), 0, b0)
  {
    hide Fed, Chain, ToByte, BigEndian, Flags, CounterBlock, BlockCipher;
    BigEndianTail(length, 8, LengthSize(nonce));
    CounterHoldsNonce(nonce);
    FedFirst(cipher, b0, CounterBlock(nonce));
  }

  /** After the first block nothing waits. */
  lemma FedFirst(cipher: block -> block, b0: block, buf: block)
    requires BlockCipher(cipher, SIZE) && |b0| == |buf| == SIZE
    ensures Fed(cipher, cipher(b0), buf, 0, b0)
  {
    OneBlock(cipher, Zeros(SIZE), b0);
    assert XorInto(Zeros(SIZE), 0, b0) == b0 by {
      forall i | 0 <= i < SIZE ensures XorInto(Zeros(SIZE), 0, b0)[i] == b0[i] {
        ZeroXor(b0[i]);
      }
    }
    assert b0[..|b0| - 0] == b0;
  }

  lemma ZeroXor(x: bv8)
    ensures (0 as bv8) ^ x == x
  {}

  lemma FedPrefix(cipher: block -> block, cbc: block, buf: block, fed: block, prefix: block)
    requires BlockCipher(cipher, SIZE) && Fed(cipher, cbc, buf, 0, fed) && |prefix| < SIZE
    ensures Fed(cipher, cbc, prefix + buf[|prefix|..], |prefix|, fed + prefix)
  {
    FedStores(cipher, cbc, buf, 0, fed, prefix);
    assert buf[..0] + prefix + buf[0 + |prefix|..] == prefix + buf[|prefix|..];
  }
}

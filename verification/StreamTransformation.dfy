/** Encrypting and decrypting filters over a chained block transformation, with padding. */
module StreamTransformation {
  import opened Bytes
  import opened Remainders
  import opened BufferedInput

  /** A block transformation that carries state from block to block, such as a chaining mode of a block cipher. */
  datatype Mode<!S> = Mode(size: nat, process: (S, seq<byte>) -> (S, seq<byte>), forward: bool)

  ghost predicate SizedAt<S>(mode: Mode<S>, st: S, b: seq<byte>) {
    |b| == mode.size ==> |mode.process(st, b).1| == mode.size
  }

  ghost predicate WellSized<S(!new)>(mode: Mode<S>): (r: bool)
    ensures r ==> mode.size > 1
  {
    mode.size > 1 && forall st, b :: SizedAt(mode, st, b)
  }

  /** Whole blocks, one after the other. */
  function Run<S>(mode: Mode<S>, st: S, data: seq<byte>): (S, seq<byte>)
    requires mode.size > 1 && |data| % mode.size == 0
    decreases |data|
  {
    if data == [] then (st, [])
    else
      FirstBlock(|data|, mode.size);
      var head := mode.process(st, data[..mode.size]);
      var tail := Run(mode, head.0, data[mode.size..]);
      (tail.0, head.1 + tail.1)
  }

  lemma ProcessSize<S(!new)>(mode: Mode<S>, st: S, b: seq<byte>)
    requires WellSized(mode) && |b| == mode.size
    ensures |mode.process(st, b).1| == mode.size
  {
    assert SizedAt(mode, st, b);
  }

  lemma RunNone<S>(mode: Mode<S>, st: S)
    requires mode.size > 1
    ensures 0 % mode.size == 0 && Run(mode, st, []) == (st, [])
  {
    SmallRemainder(0, mode.size);
  }

  lemma RunOne<S>(mode: Mode<S>, st: S, b: seq<byte>)
    requires mode.size > 1 && |b| == mode.size
    ensures |b| % mode.size == 0 && Run(mode, st, b) == mode.process(st, b)
  {
    RemainderUnique(|b|, mode.size, 1, 0);
    RunNone(mode, mode.process(st, b).0);
    assert b[..mode.size] == b && b[mode.size..] == [];
    assert mode.process(st, b).1 + [] == mode.process(st, b).1;
  }

  lemma {:induction false} RunConcat<S>(mode: Mode<S>, st: S, x: seq<byte>, y: seq<byte>)
    requires mode.size > 1 && |x| % mode.size == 0 && |y| % mode.size == 0
    ensures |x + y| % mode.size == 0
    ensures var a := Run(mode, st, x); var b := Run(mode, a.0, y); Run(mode, st, x + y) == (b.0, a.1 + b.1)
    decreases |x|
  {
    var n := mode.size;
    AddMultiple(|x|, |y|, n);
    if x == [] {
      assert x + y == y && [] + Run(mode, st, y).1 == Run(mode, st, y).1;
    } else {
      FirstBlock(|x|, n);
      FirstBlock(|x + y|, n);
      var head := mode.process(st, x[..n]);
      assert (x + y)[..n] == x[..n] && (x + y)[n..] == x[n..] + y;
      RunConcat(mode, head.0, x[n..], y);
      var mid := Run(mode, head.0, x[n..]);
      assert head.1 + (mid.1 + Run(mode, mid.0, y).1) == head.1 + mid.1 + Run(mode, mid.0, y).1;
    }
  }

  lemma {:induction false} RunLength<S(!new)>(mode: Mode<S>, st: S, data: seq<byte>)
    requires WellSized(mode) && |data| % mode.size == 0
    ensures |Run(mode, st, data).1| == |data|
    decreases |data|
  {
    if data == [] {
    } else {
      FirstBlock(|data|, mode.size);
      assert SizedAt(mode, st, data[..mode.size]);
      RunLength(mode, mode.process(st, data[..mode.size]).0, data[mode.size..]);
    }
  }

  ghost predicate UndoneAt<S>(e: Mode<S>, d: Mode<S>, st: S, b: seq<byte>) {
    |b| == e.size ==> d.process(st, e.process(st, b).1) == (e.process(st, b).0, b)
  }

  /** The second mode undoes the first, block by block and state by state. */
  ghost predicate Undoes<S(!new)>(e: Mode<S>, d: Mode<S>) {
    e.size == d.size && forall st, b :: UndoneAt(e, d, st, b)
  }

  lemma {:induction false} RunUndone<S(!new)>(e: Mode<S>, d: Mode<S>, st: S, data: seq<byte>)
    requires WellSized(e) && Undoes(e, d) && |data| % e.size == 0
    ensures var r := Run(e, st, data); |r.1| % d.size == 0 && Run(d, st, r.1) == (r.0, data)
    decreases |data|
  {
    var r := Run(e, st, data);
    RunLength(e, st, data);
    if data == [] {
    } else {
      var n := e.size;
      FirstBlock(|data|, n);
      var head := e.process(st, data[..n]);
      assert SizedAt(e, st, data[..n]) && UndoneAt(e, d, st, data[..n]);
      RunUndone(e, d, head.0, data[n..]);
      var tail := Run(e, head.0, data[n..]);
      assert r.1[..n] == head.1 && r.1[n..] == tail.1;
      assert data == data[..n] + data[n..];
    }
  }

  // Padding --------------------------------------------------------------------------------------------

  datatype Padding = NoPadding | Zeros | Pkcs | OneAndZeros {
    /** The padding can be told from the message. */
    predicate Marked() {
      Pkcs? || OneAndZeros?
    }
  }

  function Repeat(x: byte, n: nat): (r: seq<byte>)
    ensures |r| == n && forall i :: 0 <= i < n ==> r[i] == x
  {
    seq(n, i => x)
  }

  const ONE: byte := 0x80

  /** The padding behind k bytes of the last block (section 6.3 of RFC 5652 for the first scheme). */
  function PaddingOf(padding: Padding, s: nat, k: nat): (r: seq<byte>)
    requires k < s && (padding.Pkcs? ==> s < 256)
    ensures |r| == if padding.NoPadding? then 0 else s - k
  {
    match padding
    case NoPadding => []
    case Zeros => Repeat(0, s - k)
    case Pkcs => Repeat(s - k, s - k)
    case OneAndZeros => [ONE] + Repeat(0, s - k - 1)
  }

  /** Without padding only whole blocks can be encrypted. */
  predicate Encryptable(padding: Padding, s: nat, m: seq<byte>)
    requires s > 1
  {
    padding.NoPadding? ==> |m| % s == 0
  }

  function PadMessage(padding: Padding, s: nat, m: seq<byte>): (r: seq<byte>)
    requires s > 1 && (padding.Pkcs? ==> s < 256) && Encryptable(padding, s, m)
    ensures |r| % s == 0 && (padding.Marked() ==> |r| >= s)
    ensures !padding.Marked() ==> (r == m <==> |m| % s == 0)
  {
    LessRemainder(|m|, s);
    RemainderUnique(s, s, 1, 0);
    AddMultiple(|m| - |m| % s, s, s);
    if !padding.Marked() && |m| % s == 0 then m else m + PaddingOf(padding, s, |m| % s)
  }

  /** What the padded message is: the message, completed to whole blocks by bytes that count the bytes added, by 0x80
      and zeros, by zeros, or not at all. */
  lemma PadMessageIs(padding: Padding, s: nat, m: seq<byte>)
    requires s > 1 && (padding.Pkcs? ==> s < 256) && Encryptable(padding, s, m)
    ensures var r := PadMessage(padding, s, m); var added := |r| - |m|;
            && 0 <= added <= s && |r| % s == 0 && r[..|m|] == m
            && (padding.Marked() ==> added >= 1)
            && (!padding.Marked() ==> added < s && (padding.NoPadding? ==> added == 0))
            && (padding.Zeros? ==> forall i :: |m| <= i < |r| ==> r[i] == 0)
            && (padding.Pkcs? ==> forall i :: |m| <= i < |r| ==> r[i] == added)
            && (padding.OneAndZeros? ==> r[|m|] == 0x80 && forall i :: |m| < i < |r| ==> r[i] == 0)
  {}

  /** No block has two paddings. */
  lemma PaddingUnique(padding: Padding, s: nat, b: seq<byte>, j: nat, k: nat)
    requires padding.Marked() && (padding.Pkcs? ==> s < 256)
    requires |b| == s && j < s && k < s
    requires b == b[..j] + PaddingOf(padding, s, j) && b == b[..k] + PaddingOf(padding, s, k)
    ensures j == k
  {
    if padding.Pkcs? {
      assert b[s - 1] == PaddingOf(padding, s, j)[s - 1 - j] == s - j;
      assert b[s - 1] == PaddingOf(padding, s, k)[s - 1 - k] == s - k;
    } else if j < k {
      OneAndZerosLast(s, b, j, k);
    } else if k < j {
      OneAndZerosLast(s, b, k, j);
    }
  }

  lemma OneAndZerosLast(s: nat, b: seq<byte>, j: nat, k: nat)
    requires |b| == s && j < k < s
    requires b == b[..j] + PaddingOf(OneAndZeros, s, j)
    ensures b != b[..k] + PaddingOf(OneAndZeros, s, k)
  {
    assert b[k] == PaddingOf(OneAndZeros, s, j)[k - j] == 0;
    assert (b[..k] + PaddingOf(OneAndZeros, s, k))[k] == ONE;
  }

  /** The two forms of the last block's check: accepts exactly the blocks that end in a padding. */
  method Unpad(padding: Padding, b: seq<byte>) returns (ok: bool, length: nat)
    requires |b| > 1 && padding.Marked() && (padding.Pkcs? ==> |b| < 256)
    ensures ok ==> length < |b| && b == b[..length] + PaddingOf(padding, |b|, length)
    ensures !ok ==> forall k :: 0 <= k < |b| ==> b != b[..k] + PaddingOf(padding, |b|, k)
  {
    if padding.Pkcs? {
      ok, length := UnpadPkcs(b);
    } else {
      ok, length := UnpadOneAndZeros(b);
    }
  }

  method UnpadPkcs(b: seq<byte>) returns (ok: bool, length: nat)
    requires 1 < |b| < 256
    ensures ok ==> length < |b| && b == b[..length] + PaddingOf(Pkcs, |b|, length)
    ensures !ok ==> forall k :: 0 <= k < |b| ==> b != b[..k] + PaddingOf(Pkcs, |b|, k)
  {
    var s := |b|;
    var pad := b[s - 1];
    forall k | 0 <= k < s && b == b[..k] + PaddingOf(Pkcs, s, k) ensures k == s - pad {
      assert b[s - 1] == PaddingOf(Pkcs, s, k)[s - 1 - k];
    }
    if pad < 1 || pad > s {
      return false, 0;
    }
    var i := s - pad;
    while i < s && b[i] == pad
      invariant s - pad <= i <= s && forall j :: s - pad <= j < i ==> b[j] == pad
    {
      i := i + 1;
    }
    length := s - pad;
    ok := i == s;
    if ok {
      assert b[length..] == PaddingOf(Pkcs, s, length);
    } else {
      assert (b[..length] + PaddingOf(Pkcs, s, length))[i] == PaddingOf(Pkcs, s, length)[i - length] == pad;
    }
  }

  method UnpadOneAndZeros(b: seq<byte>) returns (ok: bool, length: nat)
    requires 1 < |b|
    ensures ok ==> length < |b| && b == b[..length] + PaddingOf(OneAndZeros, |b|, length)
    ensures !ok ==> forall k :: 0 <= k < |b| ==> b != b[..k] + PaddingOf(OneAndZeros, |b|, k)
  {
    length := |b|;
    while length > 1 && b[length - 1] == 0
      invariant 1 <= length <= |b| && forall j :: length <= j < |b| ==> b[j] == 0
    {
      length := length - 1;
    }
    length := length - 1;
    ok := b[length] == ONE;
    if ok {
      assert b[length..] == PaddingOf(OneAndZeros, |b|, length);
    } else {
      forall k | 0 <= k < |b| ensures b != b[..k] + PaddingOf(OneAndZeros, |b|, k) {
        NotPadded(b, length, k);
      }
    }
  }

  lemma NotPadded(b: seq<byte>, at: nat, k: nat)
    requires at < |b| && k < |b| && b[at] != ONE && (b[at] != 0 || at == 0) && forall j :: at < j < |b| ==> b[j] == 0
    ensures b != b[..k] + PaddingOf(OneAndZeros, |b|, k)
  {
    var padded := b[..k] + PaddingOf(OneAndZeros, |b|, k);
    assert padded[k] == ONE;
    if k < at {
      assert padded[at] == PaddingOf(OneAndZeros, |b|, k)[at - k] == 0;
    }
  }

  // The filter -----------------------------------------------------------------------------------------

  function Encrypt<S>(mode: Mode<S>, st: S, padding: Padding, m: seq<byte>): (S, seq<byte>)
    requires mode.size > 1 && (padding.Pkcs? ==> mode.size < 256) && Encryptable(padding, mode.size, m)
  {
    Run(mode, st, PadMessage(padding, mode.size, m))
  }

  /** A ciphertext that the mode turns into the padded message, or into the message itself where the padding cannot be
      told from it. */
  ghost predicate Decrypts<S>(mode: Mode<S>, st: S, padding: Padding, c: seq<byte>, m: seq<byte>)
    requires mode.size > 1 && (padding.Pkcs? ==> mode.size < 256)
  {
    |c| % mode.size == 0 && Run(mode, st, c).1 == if padding.Marked() then PadMessage(padding, mode.size, m) else m
  }

  ghost predicate Undecryptable<S>(mode: Mode<S>, st: S, padding: Padding, c: seq<byte>)
    requires mode.size > 1 && (padding.Pkcs? ==> mode.size < 256)
  {
    forall m :: !Decrypts(mode, st, padding, c, m)
  }

  /** With modes that undo each other, a ciphertext decrypts to a message exactly when it is its encryption and, where
      the padding cannot be told from the message, nothing was padded. */
  lemma DecryptsIff<S(!new)>(e: Mode<S>, d: Mode<S>, st: S, padding: Padding, c: seq<byte>, m: seq<byte>)
    requires WellSized(e) && WellSized(d) && Undoes(e, d) && Undoes(d, e) && (padding.Pkcs? ==> e.size < 256)
    ensures Decrypts(d, st, padding, c, m)
            <==> (padding.Marked() || |m| % e.size == 0) && c == Encrypt(e, st, padding, m).1
  {
    hide Run, PadMessage;
    if padding.Marked() || |m| % e.size == 0 {
      RunUndone(e, d, st, PadMessage(padding, e.size, m));
    }
    if |c| % d.size == 0 {
      RunUndone(d, e, st, c);
      RunLength(d, st, c);
    }
  }

  /** No two messages have the same padded form. */
  lemma PadMessageUnique(padding: Padding, s: nat, m: seq<byte>, m': seq<byte>)
    requires s > 1 && padding.Marked() && (padding.Pkcs? ==> s < 256)
    requires PadMessage(padding, s, m) == PadMessage(padding, s, m')
    ensures m == m'
  {
    hide PadMessage, PaddingOf;
    var p := PadMessage(padding, s, m);
    var front, b := p[..|p| - s], p[|p| - s..];
    assert front + b == p;
    SplitPadded(padding, s, front, b, m);
    SplitPadded(padding, s, front, b, m');
    PaddingUnique(padding, s, b, |m| - |front|, |m'| - |front|);
  }

  /** The padding of a message is the padding of its last block. */
  lemma SplitPadded(padding: Padding, s: nat, front: seq<byte>, b: seq<byte>, m: seq<byte>)
    requires s > 1 && padding.Marked() && (padding.Pkcs? ==> s < 256)
    requires |b| == s && front + b == PadMessage(padding, s, m)
    ensures |front| <= |m| < |front| + s && front == m[..|front|]
    ensures var k := |m| - |front|; m == front + b[..k] && b == b[..k] + PaddingOf(padding, s, k)
  {
    LessRemainder(|m|, s);
    var k := |m| % s;
    assert |front| == |m| - k;
    var p := PadMessage(padding, s, m);
    assert p == m + PaddingOf(padding, s, k);
    assert front == p[..|front|] && b == p[|front|..];
    assert b[..k] == m[|front|..];
    assert m == front + b[..k];
    assert b[k..] == PaddingOf(padding, s, k);
  }

  lemma JoinPadded(padding: Padding, s: nat, front: seq<byte>, b: seq<byte>, k: nat)
    requires s > 1 && padding.Marked() && (padding.Pkcs? ==> s < 256)
    requires |b| == s && |front| % s == 0 && k < s
    requires b == b[..k] + PaddingOf(padding, s, k)
    ensures front + b == PadMessage(padding, s, front + b[..k])
  {
    AddMultiple(|front|, k, s);
    SmallRemainder(k, s);
    assert front + b[..k] + PaddingOf(padding, s, k) == front + (b[..k] + PaddingOf(padding, s, k));
  }

  class StreamTransformationFilter<S(!new)> {
    const mode: Mode<S>
    const padding: Padding
    const front: FilterWithBufferedInput
    var st: S
    var out: seq<byte>
    var handled: nat  // the calls of the input buffer that have been carried out

    ghost var start: S

    ghost predicate Sized()
      reads this, front
    {
      && WellSized(mode) && (padding.Pkcs? ==> mode.size < 256)
      && front.firstSize == 0 && front.blockSize == mode.size
      && front.lastSize == LastBlockSize(mode, padding)
    }

    ghost predicate Valid()
      reads this, front, front.queue, front.queue.buffer
    {
      && Sized() && front.Valid() && handled == |front.calls|
      && var p := Passed(|front.message|, mode.size, front.lastSize);
      && (st, out) == Run(mode, start, front.message[..p])
    }

    constructor (mode: Mode<S>, padding: Padding, st: S)
      requires WellSized(mode) && (padding.Pkcs? ==> mode.size < 256)
      ensures Valid() && start == st && front.message == [] && this.mode == mode && this.padding == padding
      ensures fresh(front) && fresh(front.queue) && fresh(front.queue.buffer)
    {
      this.mode, this.padding, this.st, out, handled, start := mode, padding, st, [], 0, st;
      front := new FilterWithBufferedInput(0, mode.size, LastBlockSize(mode, padding));
    }

    /** A piece of input: whatever the buffer hands out is transformed and passed on. */
    method Put(input: seq<byte>)
      requires Valid()
      modifies this, front, front.queue, front.queue.buffer
      ensures Valid() && start == old(start) && front.message == old(front.message) + input
      ensures front.queue.buffer == old(front.queue.buffer) || fresh(front.queue.buffer)
    {
      hide Run, Passed, Delivered, WellSized;
      Handed(front.calls, front.message, front.queue.Contents(), mode.size, front.lastSize);
      front.Put(input);
      Handed(front.calls, front.message, front.queue.Contents(), mode.size, front.lastSize);
      assert front.calls[..handled] == old(front.calls) && front.calls[..|front.calls|] == front.calls;
      CarryOut(|front.calls|);
    }

    /** The output so far is the transformation of what the first n calls handed out. */
    ghost predicate Carried(calls: seq<Call>)
      requires mode.size > 1 && Shape(calls, mode.size)
      reads this
    {
      HandedLength(calls, mode.size);
      (st, out) == Run(mode, start, HandedOut(calls))
    }

    /** Carries out the calls up to the n-th. */
    method CarryOut(n: nat)
      requires WellSized(mode) && handled <= n <= |front.calls| && Shape(front.calls[..n], mode.size)
      requires Shape(front.calls[..handled], mode.size) && Carried(front.calls[..handled])
      modifies this`st, this`out, this`handled
      ensures handled == n && Carried(front.calls[..n])
    {
      hide Run, HandedOut, Shape, WellSized;
      while handled < n
        invariant handled <= n && Shape(front.calls[..handled], mode.size) && Carried(front.calls[..handled])
      {
        ghost var done := front.calls[..handled];
        assert front.calls[..n][..handled + 1] == front.calls[..handled + 1] == done + [front.calls[handled]];
        ShapePrefix(front.calls[..n], mode.size, handled + 1);
        ShapeStep(done, front.calls[handled], mode.size);
        HandedLength(done, mode.size);
        match front.calls[handled] {
          case First(_) =>  // only sizes the output buffer
            assert HandedOut(done) + [] == HandedOut(done);
          case Next(data) => 
            RunConcat(mode, start, HandedOut(done), data);
            NextPutMultiple(data);
        }
        handled := handled + 1;
      }
    }

    /** Transforms whole blocks in portions of whatever space the attached transformation offers. */
    method NextPutMultiple(data: seq<byte>)
      requires WellSized(mode) && |data| % mode.size == 0
      modifies this`st, this`out
      ensures var r := Run(mode, old(st), data); (st, out) == (r.0, old(out) + r.1)
    {
      hide Run, WellSized;
      var s := mode.size;
      var i := 0;
      RunNone(mode, st);
      assert data[..0] == [] && out + [] == out;
      while i < |data|
        invariant 0 <= i <= |data| && i % s == 0
        invariant var r := Run(mode, old(st), data[..i]); (st, out) == (r.0, old(out) + r.1)
      {
        var len: nat :| len >= s;
        if len < |data| - i {
          len := RoundDownToMultipleOf(len, s);
        } else {
          len := |data| - i;
          RestMultiple(|data|, i, s);
        }
        var piece := data[i..i + len];
        RunConcat(mode, old(st), data[..i], piece);
        assert data[..i + len] == data[..i] + piece;
        AddMultiple(i, len, s);
        var r := Run(mode, st, piece);
        assert old(out) + Run(mode, old(st), data[..i]).1 + r.1 == old(out) + (Run(mode, old(st), data[..i]).1 + r.1);
        st, out := r.0, out + r.1;
        i := i + len;
      }
      assert data[..|data|] == data;
    }

    /** The end of the message. A decrypting filter rejects what does not end in a padding, and both reject what they
        cannot cut into blocks. */
    method EndMessage() returns (ok: bool, result: seq<byte>)
      requires Valid()
      modifies this, front, front.queue
      ensures ok ==> Valid() && front.message == [] && start == st && fresh(front.queue.buffer)
      ensures mode.forward ==> (ok <==> Encryptable(padding, mode.size, old(front.message)))
      ensures mode.forward && ok ==> (st, result) == Encrypt(mode, old(start), padding, old(front.message))
      ensures !mode.forward && ok ==> Decrypts(mode, old(start), padding, old(front.message), result)
      ensures !mode.forward && ok ==> st == Run(mode, old(start), old(front.message)).0
      ensures !mode.forward && !ok ==> Undecryptable(mode, old(start), padding, old(front.message))
    {
      hide Run, Passed, Delivered, WholeMessage, WellSized, Encrypt, Decrypts, Undecryptable;
      ghost var message := front.message;
      var last := Finish();
      ok := LastPut(last, message);
      result := out;
      if ok {
        front.Restart();
        out, handled := [], 0;
        start := st;
        RunNone(mode, st);
        KeptEnough(0, mode.size, front.lastSize);
      }
    }

    /** A whole message in any pieces. */
    method Transform(pieces: seq<seq<byte>>) returns (ok: bool, result: seq<byte>)
      requires Valid() && front.message == []
      modifies this, front, front.queue, front.queue.buffer
      ensures ok ==> Valid() && front.message == [] && start == st
      ensures mode.forward ==> (ok <==> Encryptable(padding, mode.size, Flattened(pieces)))
      ensures mode.forward && ok ==> (st, result) == Encrypt(mode, old(start), padding, Flattened(pieces))
      ensures !mode.forward && ok ==> Decrypts(mode, old(start), padding, Flattened(pieces), result)
      ensures !mode.forward && ok ==> st == Run(mode, old(start), Flattened(pieces)).0
      ensures !mode.forward && !ok ==> Undecryptable(mode, old(start), padding, Flattened(pieces))
    {
      hide Valid, WellSized, Encrypt, Decrypts, Undecryptable;
      for i := 0 to |pieces|
        invariant Valid() && start == old(start) && front.message == Flattened(pieces[..i])
        invariant front.queue.buffer == old(front.queue.buffer) || fresh(front.queue.buffer)
      {
        assert pieces[..i + 1][..i] == pieces[..i];
        Put(pieces[i]);
      }
      assert pieces[..|pieces|] == pieces;
      ok, result := EndMessage();
    }

    /** Carries out all calls of the message but the last. */
    method Finish() returns (last: seq<byte>)
      requires Valid()
      modifies this`st, this`out, this`handled, front`calls, front.queue`begin, front.queue`size
      ensures var message := front.message; var p := Passed(|message|, mode.size, front.lastSize);
              last == message[p..] && (st, out) == Run(mode, start, message[..p])
    {
      hide Run, Passed, Delivered, WholeMessage, WellSized;
      ghost var message := front.message;
      Handed(front.calls, message, front.queue.Contents(), mode.size, front.lastSize);
      assert front.calls[..handled] == front.calls;
      front.EndMessage();
      var n := |front.calls| - 1;
      WholeHanded(front.calls, message, mode.size, front.lastSize);
      assert front.calls[..handled] == old(front.calls);
      CarryOut(n);
      last := front.calls[n].data;
    }

    method LastPut(last: seq<byte>, ghost message: seq<byte>) returns (ok: bool)
      requires Sized()
      requires var p := Passed(|message|, mode.size, front.lastSize);
               last == message[p..] && (st, out) == Run(mode, start, message[..p])
      modifies this`st, this`out
      ensures mode.forward ==> (ok <==> Encryptable(padding, mode.size, message))
      ensures mode.forward && ok ==> (st, out) == Encrypt(mode, start, padding, message)
      ensures !mode.forward && ok ==> Decrypts(mode, start, padding, message, out) && st == Run(mode, start, message).0
      ensures !mode.forward && !ok ==> Undecryptable(mode, start, padding, message)
    {
      hide Run, Passed;
      if !padding.Marked() {
        var s := mode.size;
        KeptEnough(|message|, s, 0);
        LastRemainder(|message|, s);
        if last != [] && mode.forward && padding.Zeros? {
          EncryptLast(last, message);
          ok := true;
        } else {
          ok := last == [];
          assert ok ==> message[..Passed(|message|, s, 0)] == message;
        }
      } else if mode.forward {
        EncryptLast(last, message);
        ok := true;
      } else {
        ok := DecryptLast(last, message);
      }
    }

    /** Pads the last bytes to a block. */
    method EncryptLast(last: seq<byte>, ghost message: seq<byte>)
      requires Sized() && mode.forward && (padding.Marked() || (padding.Zeros? && last != []))
      requires var p := Passed(|message|, mode.size, 0);
               last == message[p..] && (st, out) == Run(mode, start, message[..p])
      modifies this`st, this`out
      ensures (st, out) == Encrypt(mode, start, padding, message)
    {
      hide Run, Passed, PaddingOf, WellSized;
      var s := mode.size;
      ghost var p := Passed(|message|, s, 0);
      KeptEnough(|message|, s, 0);
      AddMultiple(p, |last|, s);
      SmallRemainder(|last|, s);
      var space := last + PaddingOf(padding, s, |last|);
      RunOne(mode, st, space);
      RunConcat(mode, start, message[..p], space);
      assert message[..p] + space == PadMessage(padding, s, message);
      var r := mode.process(st, space);
      st, out := r.0, out + r.1;
    }

    method DecryptLast(last: seq<byte>, ghost message: seq<byte>) returns (ok: bool)
      requires Sized() && !mode.forward && padding.Marked()
      requires var p := Passed(|message|, mode.size, mode.size);
               last == message[p..] && (st, out) == Run(mode, start, message[..p])
      modifies this`st, this`out
      ensures ok ==> Decrypts(mode, start, padding, message, out) && st == Run(mode, start, message).0
      ensures !ok ==> Undecryptable(mode, start, padding, message)
    {
      hide Run, Passed, PaddingOf, PadMessage, WellSized;
      var s := mode.size;
      ghost var p := Passed(|message|, s, s);
      KeptEnough(|message|, s, s);
      if |last| != s {
        forall m ensures !Decrypts(mode, start, padding, message, m) {
          Ragged(mode, start, padding, message, m);
        }
        return false;
      }
      RunOne(mode, st, last);
      RunConcat(mode, start, message[..p], last);
      assert message[..p] + last == message;
      ProcessSize(mode, st, last);
      ghost var before := out;
      RunLength(mode, start, message[..p]);
      var r := mode.process(st, last);
      st := r.0;
      var length;
      ok, length := Unpad(padding, r.1);
      if ok {
        out := out + r.1[..length];
        JoinPadded(padding, s, before, r.1, length);
      } else {
        forall m ensures !Decrypts(mode, start, padding, message, m) {
          if before + r.1 == PadMessage(padding, s, m) {
            SplitPadded(padding, s, before, r.1, m);
          }
        }
      }
    }
  }

  lemma RestMultiple(n: nat, i: nat, s: nat)
    requires s >= 1 && i <= n && i % s == 0 && n % s == 0
    ensures (n - i) % s == 0
  {
    AddMultiple(i, n - i, s);
  }

  /** A message that leaves another last piece than one block is no ciphertext. */
  lemma Ragged<S(!new)>(mode: Mode<S>, st: S, padding: Padding, c: seq<byte>, m: seq<byte>)
    requires WellSized(mode) && padding.Marked() && (padding.Pkcs? ==> mode.size < 256)
      && |c| - Passed(|c|, mode.size, mode.size) != mode.size
    ensures !Decrypts(mode, st, padding, c, m)
  {
    hide Run, PadMessage, WellSized;
    if |c| % mode.size == 0 {
      RunLength(mode, st, c);
      if |c| >= mode.size {
        LessOne(|c|, mode.size);
        PassedUnique(|c|, mode.size, mode.size, |c| - mode.size);
      }
    }
  }

  /** The calls before the last one of a whole message hand out its passed part. */
  lemma WholeHanded(calls: seq<Call>, message: seq<byte>, s: nat, last: nat)
    requires s > 1 && WholeMessage(0, s, last, message, calls)
    ensures calls != [] && var n := |calls| - 1; var p := Passed(|message|, s, last);
            Shape(calls[..n], s) && HandedOut(calls[..n]) == message[..p] && calls[n].data == message[p..]
  {
    assert message[0..] == message;
    var n := |calls| - 1;
    assert calls[..n][1..] == calls[1..n];
  }

  /** A first call, then whole blocks. */
  ghost predicate Shape(calls: seq<Call>, s: nat)
    requires s > 1
  {
    calls != [] ==> calls[0].First? && Middle(calls[1..], s)
  }

  ghost function HandedOut(calls: seq<Call>): seq<byte> {
    if calls == [] then [] else Joined(calls[1..])
  }

  lemma HandedLength(calls: seq<Call>, s: nat)
    requires s > 1 && Shape(calls, s)
    ensures |HandedOut(calls)| % s == 0
  {
    SmallRemainder(0, s);
    if calls != [] {
      MiddleLength(calls[1..], s);
    }
  }

  lemma ShapePrefix(calls: seq<Call>, s: nat, k: nat)
    requires s > 1 && Shape(calls, s) && k <= |calls|
    ensures Shape(calls[..k], s)
  {
    if k > 0 {
      assert forall c :: c in calls[..k][1..] ==> c in calls[1..];
    }
  }

  lemma ShapeStep(done: seq<Call>, c: Call, s: nat)
    requires s > 1 && Shape(done + [c], s)
    ensures done == [] ==> c.First?
    ensures done != [] ==> c.Next? && |c.data| % s == 0
    ensures HandedOut(done + [c]) == HandedOut(done) + (if c.Next? then c.data else [])
  {
    if done != [] {
      assert (done + [c])[1..] == done[1..] + [c];
      assert c in (done + [c])[1..];
      assert (done[1..] + [c])[..|done| - 1] == done[1..];
    } else {
      assert (done + [c])[1..] == [];
    }
  }

  /** With no first piece, the calls hand out exactly the passed part of the message. */
  lemma Handed(calls: seq<Call>, message: seq<byte>, kept: seq<byte>, s: nat, last: nat)
    requires s > 1 && Delivered(0, s, last, message, calls, kept)
    ensures Shape(calls, s) && HandedOut(calls) == message[..Passed(|message|, s, last)]
  {
    assert message[0..] == message;
    if message == [] { KeptEnough(0, s, last); }
  }

  function LastBlockSize<S>(mode: Mode<S>, padding: Padding): nat {
    if mode.size > 1 && !mode.forward && padding.Marked() then mode.size else 0
  }

  /** What is left of a message after its whole blocks. */
  lemma LastRemainder(n: nat, s: nat)
    requires s > 1
    ensures var p := Passed(n, s, 0); n % s == n - p
  {
    hide Passed;
    KeptEnough(n, s, 0);
    var p := Passed(n, s, 0);
    AddMultiple(p, n - p, s);
    SmallRemainder(n - p, s);
  }

  /** Encryption and decryption, with the message and the ciphertext cut in any way, return the padded message, and the
      message exactly when its padding can be told from it or there is none. */
  method RoundTrip<S(!new)>(e: Mode<S>, d: Mode<S>, st: S, padding: Padding, pieces: seq<seq<byte>>, cuts: seq<nat>)
    returns (ok: bool, m: seq<byte>)
    requires WellSized(e) && WellSized(d) && e.forward && !d.forward && Undoes(e, d) && Undoes(d, e)
    requires padding.Pkcs? ==> e.size < 256
    ensures ok <==> Encryptable(padding, e.size, Flattened(pieces))
    ensures ok ==> m == if padding.Marked() then Flattened(pieces) else PadMessage(padding, e.size, Flattened(pieces))
    ensures ok ==> (m == Flattened(pieces) <==> padding.Marked() || |Flattened(pieces)| % e.size == 0)
  {
    hide StreamTransformationFilter.Valid, WellSized, Encrypt, Decrypts, PadMessage, Encryptable;
    var encryption := new StreamTransformationFilter(e, padding, st);
    var c;
    ok, c := encryption.Transform(pieces);
    if !ok {
      return false, [];
    }
    var decryption := new StreamTransformationFilter(d, padding, st);
    CutFlattened(c, cuts);
    ghost var back := Recovered(e, d, st, padding, c, Flattened(pieces));
    ok, m := decryption.Transform(Cut(c, cuts));
    DecryptsOne(d, st, padding, c, m, back);
  }

  /** What an encryption decrypts to. */
  lemma Recovered<S(!new)>(e: Mode<S>, d: Mode<S>, st: S, padding: Padding, c: seq<byte>, m: seq<byte>)
    returns (back: seq<byte>)
    requires WellSized(e) && WellSized(d) && Undoes(e, d) && Undoes(d, e) && (padding.Pkcs? ==> e.size < 256)
    requires Encryptable(padding, e.size, m) && c == Encrypt(e, st, padding, m).1
    ensures back == if padding.Marked() then m else PadMessage(padding, e.size, m)
    ensures Decrypts(d, st, padding, c, back)
  {
    hide Run, PadMessage;
    back := if padding.Marked() then m else PadMessage(padding, e.size, m);
    RunUndone(e, d, st, PadMessage(padding, e.size, m));
  }

  lemma DecryptsOne<S>(mode: Mode<S>, st: S, padding: Padding, c: seq<byte>, m: seq<byte>, m': seq<byte>)
    requires mode.size > 1 && (padding.Pkcs? ==> mode.size < 256)
    requires Decrypts(mode, st, padding, c, m) && Decrypts(mode, st, padding, c, m')
    ensures m == m'
  {
    hide Run, PadMessage;
    if padding.Marked() {
      PadMessageUnique(padding, mode.size, m, m');
    }
  }
}

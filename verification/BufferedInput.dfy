/** Filters that see their input as a first piece, whole blocks and a last piece, however it was cut. */
module BufferedInput {
  import opened Bytes
  import opened Remainders
  import opened BlockQueues

  /** One call of a hook of the derived filter. */
  datatype Call = First(data: seq<byte>) | Next(data: seq<byte>) | Last(data: seq<byte>)

  ghost predicate Middle(calls: seq<Call>, b: nat)
    requires b >= 1
  {
    forall c :: c in calls ==> c.Next? && c.data != [] && |c.data| % b == 0
  }

  ghost function Joined(calls: seq<Call>): seq<byte> {
    if calls == [] then [] else Joined(calls[..|calls| - 1]) + calls[|calls| - 1].data
  }

  lemma {:induction false} JoinedConcat(x: seq<Call>, y: seq<Call>)
    ensures Joined(x + y) == Joined(x) + Joined(y)
  {
    if y == [] {
      assert x + y == x;
    } else {
      assert (x + y)[..|x + y| - 1] == x + y[..|y| - 1];
      JoinedConcat(x, y[..|y| - 1]);
      assert Joined(x) + Joined(y[..|y| - 1]) + y[|y| - 1].data == Joined(x) + (Joined(y[..|y| - 1]) + y[|y| - 1].data);
    }
  }

  lemma {:induction false} MiddleLength(calls: seq<Call>, b: nat)
    requires b >= 1 && Middle(calls, b)
    ensures |Joined(calls)| % b == 0
    ensures calls != [] ==> Joined(calls) != []
  {
    if calls == [] {
      SmallRemainder(0, b);
    } else {
      MiddleLength(calls[..|calls| - 1], b);
      AddMultiple(|Joined(calls[..|calls| - 1])|, |calls[|calls| - 1].data|, b);
    }
  }

  /** How much of n bytes is passed on in whole blocks while at least `last` bytes are kept. */
  function Passed(n: nat, b: nat, last: nat): (p: nat)
    requires b >= 1
    ensures p <= n && p % b == 0
  {
    if n < last then SmallRemainder(0, b); 0
    else
      var q, r := (n - last) / b, (n - last) % b;
      assert n - last == b * q + r;
      ProductNonNegative(b, q);
      RemainderUnique(b * q, b, q, 0);
      b * q
  }

  /** It is the only multiple of the block size that leaves between `last` and `last + b - 1` bytes. */
  lemma PassedUnique(n: nat, b: nat, last: nat, p: nat)
    requires b >= 1 && p <= n && p % b == 0 && n - p < b + last && (p == 0 || n - p >= last)
    ensures p == Passed(n, b, last)
  {
    var q := p / b;
    assert p == b * q;
    if n >= last {
      RemainderUnique(n - last, b, q, n - p - last);
    }
  }

  /** What the hooks have seen and what the queue still holds after a message so far. */
  ghost predicate Delivered(first: nat, b: nat, last: nat, message: seq<byte>, calls: seq<Call>, kept: seq<byte>)
    requires b >= 1
  {
    if message == [] || |message| < first then calls == [] && kept == message
    else
      && calls != [] && calls[0] == First(message[..first]) && Middle(calls[1..], b)
      && var rest := message[first..]; var p := Passed(|rest|, b, last);
      && Joined(calls[1..]) == rest[..p] && kept == rest[p..]
  }

  /** What the hooks have seen of a whole message. */
  ghost predicate WholeMessage(first: nat, b: nat, last: nat, message: seq<byte>, calls: seq<Call>)
    requires b >= 1
  {
    if |message| < first then calls == [Last(message)]
    else
      && |calls| >= 2 && calls[0] == First(message[..first]) && Middle(calls[1..|calls| - 1], b)
      && var rest := message[first..]; var p := Passed(|rest|, b, last);
      && Joined(calls[1..|calls| - 1]) == rest[..p] && calls[|calls| - 1] == Last(rest[p..])
  }

  /** The capacity of the queue is the smallest number of blocks that holds what is ever kept. */
  lemma Capacity(b: nat, last: nat)
    requires b >= 1
    ensures var blocks := (2 * b + last - 2) / b;
            b + last - 1 <= b * blocks <= 2 * b + last - 2 && (b >= 2 ==> b <= b * blocks)
  {
    var n: int := 2 * b + last - 2;
    var q, r := n / b, n % b;
    assert n == b * q + r;
    if b >= 2 {
      if q < 1 { ProductNonNegative(b, -q); }
      AtLeast(b, q);
    }
  }

  /** A split with few enough bytes kept is the delivered one. */
  lemma DeliveredAs(first: nat, b: nat, last: nat, message: seq<byte>, nexts: seq<Call>, kept: seq<byte>)
    requires b >= 1 && message != [] && |message| >= first
    requires Middle(nexts, b) && Joined(nexts) + kept == message[first..]
    requires |kept| < b + last && (nexts != [] ==> |kept| >= last)
    ensures Delivered(first, b, last, message, [First(message[..first])] + nexts, kept)
  {
    hide Passed;
    MiddleLength(nexts, b);
    if nexts == [] { JoinedNone(); }
    PassedUnique(|message| - first, b, last, |Joined(nexts)|);
    assert ([First(message[..first])] + nexts)[1..] == nexts;
    assert message[first..][..|Joined(nexts)|] == Joined(nexts) && message[first..][|Joined(nexts)|..] == kept;
  }

  /** More whole blocks behind what was delivered. */
  lemma DeliveredMore(first: nat, b: nat, last: nat, message: seq<byte>, calls: seq<Call>, kept: seq<byte>,
                      input: seq<byte>, more: seq<Call>, kept': seq<byte>)
    requires b >= 1 && Delivered(first, b, last, message, calls, kept) && message != [] && |message| >= first
    requires Middle(more, b) && Joined(more) + kept' == kept + input
    requires |kept'| < b + last && (more != [] ==> |kept'| >= last)
    ensures Delivered(first, b, last, message + input, calls + more, kept')
  {
    hide Joined, Passed;
    var rest, nexts := message[first..], calls[1..];
    assert (message + input)[first..] == rest + input && (message + input)[..first] == message[..first];
    JoinedConcat(nexts, more);
    MiddleLength(nexts, b);
    Regroup(Joined(nexts), Joined(more), kept, input, kept', rest);
    KeptEnough(|rest|, b, last);
    if more == [] { JoinedNone(); }
    if nexts == [] { JoinedNone(); }
    DeliveredAs(first, b, last, message + input, nexts + more, kept');
    assert calls + more == [First(message[..first])] + (nexts + more);
  }

  lemma JoinedNone()
    ensures Joined([]) == []
  {}

  lemma Regroup(x: seq<byte>, y: seq<byte>, kept: seq<byte>, input: seq<byte>, kept': seq<byte>, rest: seq<byte>)
    requires y + kept' == kept + input && rest == x + kept
    ensures rest + input == x + y + kept'
    ensures (rest + input)[..|x| + |y|] == x + y && (rest + input)[|x| + |y|..] == kept'
  {
    assert rest + input == x + (kept + input);
    assert x + (y + kept') == x + y + kept';
  }

  lemma KeptEnough(n: nat, b: nat, last: nat)
    requires b >= 1
    ensures var p := Passed(n, b, last); n - p < b + last && (p == 0 || n - p >= last)
  {
    if n >= last {
      assert n - last == b * ((n - last) / b) + (n - last) % b;
    }
  }

  /** Adding the last call, and the first one if it is missing, makes a whole message. */
  lemma WholeIs(first: nat, b: nat, last: nat, message: seq<byte>, calls: seq<Call>, kept: seq<byte>)
    requires b >= 1 && Delivered(first, b, last, message, calls, kept)
    ensures message == [] ==> calls == []
    ensures WholeMessage(first, b, last, message,
        (if message == [] && first == 0 then [First([])] else calls) + [Last(kept)])
  {
    var whole := (if message == [] && first == 0 then [First([])] else calls) + [Last(kept)];
    if message == [] {
      KeptEnough(0, b, last);
    }
    if |message| >= first {
      assert whole[1..|whole| - 1] == if message == [] then [] else calls[1..];
    }
  }

  class FilterWithBufferedInput {
    var firstSize: nat
    const blockSize: nat
    const lastSize: nat
    const queue: BlockQueue
    var firstInputDone: bool
    var calls: seq<Call>  // the hooks called for this message, in order

    ghost var message: seq<byte>

    ghost predicate Sized()
      reads this, queue
    {
      && blockSize >= 1 && queue.Valid() && queue.Aligned()
      && (!firstInputDone ==> queue.begin == 0)
      && queue.blockSize == (if firstInputDone then blockSize else 1)
      && queue.maxBlocks == (if firstInputDone then (2 * blockSize + lastSize - 2) / blockSize else firstSize)
    }

    ghost predicate Valid()
      reads this, queue, queue.buffer
    {
      && Sized()
      && (firstInputDone <==> message != [] && |message| >= firstSize)
      && Delivered(firstSize, blockSize, lastSize, message, calls, queue.Contents())
    }

    constructor (firstSize: nat, blockSize: nat, lastSize: nat)
      requires blockSize >= 1
      ensures Valid() && message == [] && calls == [] && fresh(queue) && fresh(queue.buffer)
      ensures this.firstSize == firstSize && this.blockSize == blockSize && this.lastSize == lastSize
    {
      this.firstSize, this.blockSize, this.lastSize := firstSize, blockSize, lastSize;
      queue := new BlockQueue(1, firstSize);
      firstInputDone, calls, message := false, [], [];
    }

    /** A piece of the message, of any length. */
    method Put(input: seq<byte>)
      requires Valid()
      modifies this, queue, queue.buffer
      ensures Valid() && message == old(message) + input && firstSize == old(firstSize)
      ensures old(calls) <= calls
      ensures queue.buffer == old(queue.buffer) || fresh(queue.buffer)
    {
      hide Delivered;
      if input == [] {
        assert message + input == message;
        return;
      }
      if !firstInputDone {
        if queue.size + |input| >= firstSize {
          PutFirst(input);
        } else {
          PutShort(input);
        }
      } else {
        PutBlocks(input);
      }
    }

    /** Not enough for the first piece yet. */
    method PutShort(input: seq<byte>)
      requires Valid() && !firstInputDone && queue.size + |input| < firstSize
      modifies this`message, queue`size, queue.buffer
      ensures Valid() && !firstInputDone && message == old(message) + input
    {
      queue.Put(input);
      message := message + input;
    }

    /** The input completes the first piece. */
    method PutFirst(input: seq<byte>)
      requires Valid() && !firstInputDone && input != [] && queue.size + |input| >= firstSize
      modifies this, queue, queue.buffer
      ensures Valid() && firstInputDone && message == old(message) + input && firstSize == old(firstSize)
        && fresh(queue.buffer)
      ensures old(calls) == []
    {
      hide Joined, Passed;
      var rest := TakeFirst(input);
      message := message + input;
      ghost var more;
      rest, more := PassOn(rest);
      Capacity(blockSize, lastSize);
      queue.Put(rest);
      DeliveredAs(firstSize, blockSize, lastSize, message, more, queue.Contents());
    }

    /** More input behind the first piece. */
    method PutBlocks(input: seq<byte>)
      requires Valid() && firstInputDone
      modifies this`message, this`calls, queue`begin, queue`size, queue.buffer
      ensures Valid() && firstInputDone && message == old(message) + input && old(calls) <= calls
    {
      hide Joined, Passed, Delivered;
      ghost var kept := queue.Contents();
      var rest;
      ghost var more;
      rest, more := PassOn(input);
      Capacity(blockSize, lastSize);
      queue.Put(rest);
      DeliveredMore(firstSize, blockSize, lastSize, message, old(calls), kept, input, more, queue.Contents());
      message := message + input;
    }

    /** The first piece is complete: hands it out and turns to blocks. */
    method TakeFirst(input: seq<byte>) returns (rest: seq<byte>)
      requires Valid() && !firstInputDone && input != [] && queue.size + |input| >= firstSize
      modifies this, queue, queue.buffer
      ensures Sized() && firstInputDone && queue.Contents() == [] && fresh(queue.buffer)
      ensures firstSize == old(firstSize) && firstSize <= |old(message) + input|
        && rest == (old(message) + input)[firstSize..]
      ensures message == old(message) && calls == [First((message + input)[..firstSize])]
      ensures old(calls) == []
    {
      hide Ring;
      var len := firstSize - queue.size;
      ghost var all := message + input;
      assert all[..firstSize] == message + input[..len] && all[firstSize..] == input[len..];
      queue.Put(input[..len]);
      var first := queue.GetContigousBlocks(firstSize);
      assert first == all[..firstSize];
      firstSize := |first|;
      calls := calls + [First(first)];
      queue.ResetQueue(blockSize, (2 * blockSize + lastSize - 2) / blockSize);
      rest := input[len..];
      firstInputDone := true;
    }

    /** The end of the message: a filter without a first piece still gets its first call, then the rest goes out. */
    method EndMessage()
      requires Valid()
      modifies this`calls, queue`begin, queue`size
      ensures queue.Valid() && WholeMessage(firstSize, blockSize, lastSize, message, calls) && old(calls) < calls
    {
      hide Delivered, WholeMessage, Ring;
      WholeIs(firstSize, blockSize, lastSize, message, calls, queue.Contents());
      if !firstInputDone && firstSize == 0 {
        calls := calls + [First([])];
        assert calls == [First([])];
      }
      var temp := queue.GetAll();
      calls := calls + [Last(temp)];
    }

    /** Ready for the next message. */
    method Restart()
      requires blockSize >= 1
      modifies this`firstInputDone, this`calls, this`message, queue
      ensures Valid() && message == [] && calls == [] && fresh(queue.buffer)
    {
      firstInputDone, calls, message := false, [], [];
      queue.ResetQueue(1, firstSize);
    }

    /** A whole message cut into any pieces: the hooks see a split that depends on the message alone. */
    method Deliver(pieces: seq<seq<byte>>) returns (seen: seq<Call>)
      requires Valid() && message == []
      modifies this, queue, queue.buffer
      ensures Valid() && message == [] && firstSize == old(firstSize)
      ensures WholeMessage(firstSize, blockSize, lastSize, Flattened(pieces), seen)
    {
      hide Delivered, WholeMessage, Middle;
      for i := 0 to |pieces|
        invariant Valid() && firstSize == old(firstSize) && message == Flattened(pieces[..i])
        invariant queue.buffer == old(queue.buffer) || fresh(queue.buffer)
      {
        assert pieces[..i + 1][..i] == pieces[..i];
        Put(pieces[i]);
      }
      assert pieces[..|pieces|] == pieces;
      EndMessage();
      seen := calls;
      Restart();
    }

    /** Hands out what the queue and the input hold beyond the bytes to keep. */
    method PassOn(input: seq<byte>) returns (rest: seq<byte>, ghost more: seq<Call>)
      requires Sized() && firstInputDone
      modifies this`calls, queue`begin, queue`size, queue.buffer
      ensures Sized() && Flow(old(calls), more, rest, old(queue.Contents()) + input)
      ensures queue.size + |rest| < blockSize + lastSize
    {
      if blockSize == 1 {
        rest, more := PassBytes(input);
      } else {
        rest, more := PassBlocks(input);
      }
    }

    method HandOut(data: seq<byte>, ghost more: seq<Call>) returns (ghost more': seq<Call>)
      requires blockSize >= 1 && Middle(more, blockSize) && data != [] && |data| % blockSize == 0
      modifies this`calls
      ensures calls == old(calls) + [Next(data)] && more' == more + [Next(data)] && Middle(more', blockSize)
      ensures Joined(more') == Joined(more) + data
    {
      calls := calls + [Next(data)];
      more' := more + [Next(data)];
      assert more'[..|more'| - 1] == more;
    }

    method PassBytes(input: seq<byte>) returns (rest: seq<byte>, ghost more: seq<Call>)
      requires Sized() && firstInputDone && blockSize == 1
      modifies this`calls, queue`begin, queue`size
      ensures Sized() && Flow(old(calls), more, rest, old(queue.Contents()) + input)
      ensures queue.size + |rest| < blockSize + lastSize
    {
      hide Joined, Ring;
      ghost var all := queue.Contents() + input;
      rest, more := input, [];
      FlowStart(input);
      var newLength := queue.size + |input|;
      while newLength > lastSize && queue.size > 0
        invariant Sized() && newLength == queue.size + |rest| && Flow(old(calls), more, rest, all)
        decreases newLength
      {
        ghost var q := queue.Contents();
        var piece := queue.GetContigousBlocks(newLength - lastSize);
        assert Joined(more) + (q + rest) == Joined(more) + piece + (queue.Contents() + rest);
        more := HandOut(piece, more);
        newLength := newLength - |piece|;
      }
      if newLength > lastSize {
        var len := newLength - lastSize;
        more := PassInput(old(calls), more, rest, all, len);
        rest := rest[len..];
      }
    }

    /** Some bytes have been handed out; the rest waits in the queue and the input. */
    ghost predicate Flow(before: seq<Call>, more: seq<Call>, rest: seq<byte>, all: seq<byte>)
      requires Sized()
      reads this, queue, queue.buffer
    {
      && calls == before + more && Middle(more, blockSize)
      && Joined(more) + (queue.Contents() + rest) == all
      && (more != [] ==> queue.size + |rest| >= lastSize)
    }

    method PassBlocks(input: seq<byte>) returns (rest: seq<byte>, ghost more: seq<Call>)
      requires Sized() && firstInputDone && blockSize > 1
      modifies this`calls, queue`begin, queue`size, queue.buffer
      ensures Sized() && Flow(old(calls), more, rest, old(queue.Contents()) + input)
      ensures queue.size + |rest| < blockSize + lastSize
    {
      hide Flow, Middle;
      ghost var all := queue.Contents() + input;
      rest, more := input, [];
      assert Flow(calls, [], input, all) by { FlowStart(input); }
      var newLength := queue.size + |input|;
      while newLength >= blockSize + lastSize && queue.size >= blockSize
        invariant Sized() && newLength == queue.size + |rest| && Flow(old(calls), more, rest, all)
        decreases newLength
      {
        more := PassBlock(old(calls), more, rest, all);
        newLength := newLength - blockSize;
      }
      if newLength >= blockSize + lastSize && queue.size > 0 {
        rest := FillBlock(old(calls), more, rest, all);
        more := PassBlock(old(calls), more, rest, all);
        newLength := newLength - blockSize;
      }
      if newLength >= blockSize + lastSize {
        var len := RoundDownToMultipleOf(newLength - lastSize, blockSize);
        more := PassInput(old(calls), more, rest, all, len);
        rest := rest[len..];
      }
    }

    lemma FlowStart(input: seq<byte>)
      requires Sized()
      ensures Flow(calls, [], input, queue.Contents() + input)
    {
      assert calls + [] == calls;
      JoinedNone();
    }

    /** Hands out the first block of the queue. */
    method PassBlock(ghost before: seq<Call>, ghost more: seq<Call>, ghost rest: seq<byte>, ghost all: seq<byte>)
      returns (ghost more': seq<Call>)
      requires Sized() && firstInputDone && Flow(before, more, rest, all)
      requires queue.size >= blockSize && queue.size + |rest| >= blockSize + lastSize
      modifies this`calls, queue`begin, queue`size
      ensures Sized() && queue.size == old(queue.size) - blockSize && Flow(before, more', rest, all)
    {
      hide Joined, Ring;
      RemainderUnique(blockSize, blockSize, 1, 0);
      ghost var q := queue.Contents();
      var piece := queue.GetBlock();
      assert Joined(more) + (q + rest) == Joined(more) + piece + (queue.Contents() + rest);
      more' := HandOut(piece, more);
      assert before + more + [Next(piece)] == before + more';
    }

    /** Completes the block at the front of the queue from the input. */
    method FillBlock(ghost before: seq<Call>, ghost more: seq<Call>, rest: seq<byte>, ghost all: seq<byte>)
      returns (rest': seq<byte>)
      requires Sized() && firstInputDone && blockSize > 1 && Flow(before, more, rest, all)
      requires 0 < queue.size < blockSize && queue.size + |rest| >= blockSize + lastSize
      modifies queue`size, queue.buffer
      ensures Sized() && queue.size == blockSize && queue.size + |rest'| == old(queue.size) + |rest|
        && Flow(before, more, rest', all)
    {
      hide Joined, Ring;
      Capacity(blockSize, lastSize);
      var len := blockSize - queue.size;
      ghost var q := queue.Contents();
      queue.Put(rest[..len]);
      rest' := rest[len..];
      assert q + rest == queue.Contents() + rest';
    }

    /** Hands out whole blocks of the input. */
    method PassInput(ghost before: seq<Call>, ghost more: seq<Call>, rest: seq<byte>, ghost all: seq<byte>, len: nat)
      returns (ghost more': seq<Call>)
      requires Sized() && Flow(before, more, rest, all)
      requires queue.size == 0 && 0 < len <= |rest| && |rest| - len >= lastSize && len % blockSize == 0
      modifies this`calls
      ensures Sized() && Flow(before, more', rest[len..], all)
    {
      hide Joined, Ring;
      var piece := rest[..len];
      assert Joined(more) + (queue.Contents() + rest) == Joined(more) + piece + (queue.Contents() + rest[len..]);
      more' := HandOut(piece, more);
      assert before + more + [Next(piece)] == before + more';
    }
  }

  function RoundDownToMultipleOf(n: nat, m: nat): (r: nat)
    requires m >= 1
    ensures r <= n < r + m && r % m == 0
  {
    LessRemainder(n, m);
    n - n % m
  }
}

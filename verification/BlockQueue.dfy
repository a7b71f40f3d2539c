/** The ring buffer in front of every filter that needs its input in blocks. */
module BlockQueues {
  import opened Bytes
  import opened Remainders

  /** The place of the i-th byte of a ring of n bytes that starts at `begin`. */
  ghost function Slot(n: nat, begin: nat, i: nat): (k: nat)
    requires begin < n && i < n
    ensures k < n
  {
    if begin + i < n then begin + i else begin + i - n
  }

  ghost function Ring(s: seq<byte>, begin: nat, size: nat): (r: seq<byte>)
    requires (begin < |s| || begin == 0) && size <= |s|
    ensures |r| == size
  {
    seq(size, i requires 0 <= i < size => s[Slot(|s|, begin, i)])
  }

  lemma RingTake(s: seq<byte>, begin: nat, size: nat, n: nat)
    requires (begin < |s| || begin == 0) && size <= |s| && n <= size && begin + n <= |s|
    ensures var next := if n == size || begin + n == |s| then 0 else begin + n;
            Ring(s, begin, size) == s[begin..begin + n] + Ring(s, next, size - n)
  {}

  function Written(s: seq<byte>, at: nat, data: seq<byte>): (r: seq<byte>)
    requires at + |data| <= |s|
    ensures |r| == |s|
    ensures forall i :: 0 <= i < |s| ==> r[i] == if at <= i < at + |data| then data[i - at] else s[i]
  {
    s[..at] + data + s[at + |data|..]
  }

  /** Writing up to the end of the buffer, and the rest at its start, appends to the ring. */
  lemma RingPut(s: seq<byte>, begin: nat, size: nat, data: seq<byte>, end: nat, len: nat)
    requires begin < |s| && size + |data| <= |s|
    requires end == if size < |s| - begin then begin + size else begin + size - |s|
    requires end <= |s| && len == if |data| < |s| - end then |data| else |s| - end
    ensures Ring(Written(Written(s, end, data[..len]), 0, data[len..]), begin, size + |data|)
      == Ring(s, begin, size) + data
  {
    hide Written;
    var t := Written(Written(s, end, data[..len]), 0, data[len..]);
    var r, all := Ring(t, begin, size + |data|), Ring(s, begin, size) + data;
    forall i | 0 <= i < |r| ensures r[i] == all[i] {
      var k := Slot(|s|, begin, i);
      assert r[i] == t[k];
      assert i < size ==> t[k] == s[k];
      assert i >= size ==> t[k] == data[i - size];
    }
  }

  method Copy(a: array<byte>, at: nat, data: seq<byte>)
    requires at + |data| <= a.Length
    modifies a
    ensures a[..] == Written(old(a[..]), at, data)
  {
    for i := 0 to |data|
      invariant a[..] == Written(old(a[..]), at, data[..i])
    {
      a[at + i] := data[i];
    }
    assert data[..|data|] == data;
  }

  class BlockQueue {
    var buffer: array<byte>
    var blockSize: nat
    var maxBlocks: nat
    var begin: nat
    var size: nat

    ghost predicate Valid()
      reads this
    {
      && blockSize >= 1 && buffer.Length == blockSize * maxBlocks && size <= buffer.Length
      && (begin < buffer.Length || begin == buffer.Length == 0)
    }

    /** Blocks do not straddle the end of the buffer. */
    ghost predicate Aligned()
      reads this
    {
      blockSize >= 1 && begin % blockSize == 0
    }

    ghost function Contents(): (r: seq<byte>)
      requires Valid()
      reads this, buffer
      ensures |r| == size
    {
      Ring(buffer[..], begin, size)
    }

    constructor (blockSize: nat, maxBlocks: nat)
      requires blockSize >= 1
      ensures Valid() && Aligned() && begin == 0 && Contents() == [] && fresh(buffer)
      ensures this.blockSize == blockSize && this.maxBlocks == maxBlocks
    {
      buffer := new byte[blockSize * maxBlocks](i => 0);
      this.blockSize, this.maxBlocks, size, begin := blockSize, maxBlocks, 0, 0;
    }

    method ResetQueue(blockSize: nat, maxBlocks: nat)
      requires blockSize >= 1
      modifies this
      ensures Valid() && Aligned() && begin == 0 && Contents() == [] && fresh(buffer)
      ensures this.blockSize == blockSize && this.maxBlocks == maxBlocks
    {
      buffer := new byte[blockSize * maxBlocks](i => 0);
      this.blockSize, this.maxBlocks, size, begin := blockSize, maxBlocks, 0, 0;
    }

    /** The first block, or nothing when there is no whole block. */
    method GetBlock() returns (r: seq<byte>)
      requires Valid() && Aligned()
      modifies this`begin, this`size
      ensures Valid() && Aligned()
      ensures old(size) < blockSize ==> r == [] && Contents() == old(Contents())
      ensures old(size) >= blockSize ==> |r| == blockSize && old(Contents()) == r + Contents()
    {
      if size >= blockSize {
        MultipleBelow(begin, blockSize, maxBlocks);
        RingTake(buffer[..], begin, size, blockSize);
        r := buffer[begin..begin + blockSize];
        begin := begin + blockSize;
        if begin == buffer.Length {
          begin := 0;
        }
        size := size - blockSize;
      } else {
        r := [];
      }
    }

    /** As many of the first n bytes as lie together. */
    method GetContigousBlocks(n: nat) returns (r: seq<byte>)
      requires Valid()
      modifies this`begin, this`size
      ensures Valid() && |r| <= n && old(Contents()) == r + Contents()
      ensures r == [] ==> n == 0 || old(size) == 0
      ensures |r| < n && size > 0 ==> begin == 0
      ensures old(begin) == 0 && n <= old(size) ==> |r| == n
    {
      var len := buffer.Length - begin;
      if size < len {
        len := size;
      }
      if n < len {
        len := n;
      }
      RingTake(buffer[..], begin, size, len);
      r := buffer[begin..begin + len];
      begin := begin + len;
      size := size - len;
      if size == 0 || begin == buffer.Length {
        begin := 0;
      }
    }

    method GetAll() returns (r: seq<byte>)
      requires Valid()
      modifies this`begin, this`size
      ensures Valid() && r == old(Contents()) && Contents() == []
    {
      r := GetContigousBlocks(maxBlocks * blockSize);
      r := r + buffer[begin..begin + size];
      size := 0;
    }

    method Put(data: seq<byte>)
      requires Valid() && size + |data| <= buffer.Length
      modifies this`size, buffer
      ensures Valid() && Contents() == old(Contents()) + data
    {
      if data == [] {
        return;
      }
      var end := if size < buffer.Length - begin then begin + size else begin + size - buffer.Length;
      var len := if |data| < buffer.Length - end then |data| else buffer.Length - end;
      RingPut(buffer[..], begin, size, data, end, len);
      Copy(buffer, end, data[..len]);
      if len < |data| {
        Copy(buffer, 0, data[len..]);
      }
      size := size + |data|;
    }
  }
}

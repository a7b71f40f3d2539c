/** A byte queue read through nested decoders, each of which may have a definite length. */
module BerSource {
  import opened Bytes

  /** One open decoder: the bytes left of a definite length. */
  datatype Frame = Frame(definite: bool, length: nat)

  function Min(a: nat, b: nat): nat {
    if a < b then a else b
  }

  function Clamped(f: Frame, n: nat): nat {
    if f.definite then Min(n, f.length) else n
  }

  /** How many of n bytes can be read through all the decoders. */
  function Room(frames: seq<Frame>, n: nat): (r: nat)
    ensures r <= n
    decreases |frames|
  {
    if frames == [] then n else Room(frames[..|frames| - 1], Clamped(frames[|frames| - 1], n))
  }

  /** The frames after reading k bytes. */
  function Debited(frames: seq<Frame>, k: nat): (r: seq<Frame>)
    requires Room(frames, k) == k
    ensures |r| == |frames|
    decreases |frames|
  {
    if frames == [] then []
    else
      var f := frames[|frames| - 1];
      RoomShrinks(frames, k);
      Debited(frames[..|frames| - 1], k) + [DebitedFrame(f, k)]
  }

  function DebitedFrame(f: Frame, k: nat): Frame {
    if f.definite && k <= f.length then Frame(true, f.length - k) else f
  }

  /** Every definite length on the way is debited by the bytes read. */
  lemma {:induction false} DebitedAt(frames: seq<Frame>, k: nat, i: nat)
    requires Room(frames, k) == k && i < |frames|
    ensures frames[i].definite ==> k <= frames[i].length
    ensures Debited(frames, k)[i] == DebitedFrame(frames[i], k)
    decreases |frames|
  {
    RoomShrinks(frames, k);
    if i >= |frames| - 1 {
    } else {
      DebitedAt(frames[..|frames| - 1], k, i);
    }
  }

  lemma RoomShrinks(frames: seq<Frame>, k: nat)
    requires frames != [] && Room(frames, k) == k
    ensures Clamped(frames[|frames| - 1], k) == k && Room(frames[..|frames| - 1], k) == k
  {}

  lemma {:induction false} RoomClamp(frames: seq<Frame>, n: nat, m: nat)
    ensures Room(frames, Min(n, m)) == Min(Room(frames, n), m)
    decreases |frames|
  {
    if frames == [] {
    } else {
      var f := frames[|frames| - 1];
      assert Clamped(f, Min(n, m)) == Min(Clamped(f, n), m);
      RoomClamp(frames[..|frames| - 1], Clamped(f, n), m);
    }
  }

  /** What fits can be read. */
  lemma RoomFits(frames: seq<Frame>, n: nat, k: nat)
    requires k <= Room(frames, n)
    ensures Room(frames, k) == k
  {
    RoomClamp(frames, n, k);
  }

  lemma {:induction false} RoomDebited(frames: seq<Frame>, n: nat, k: nat)
    requires k <= Room(frames, n)
    ensures Room(frames, k) == k && Room(Debited(frames, k), n - k) == Room(frames, n) - k
    decreases |frames|
  {
    RoomFits(frames, n, k);
    if frames == [] {
    } else {
      var front, f := frames[..|frames| - 1], frames[|frames| - 1];
      RoomDebited(front, Clamped(f, n), k);
      var d := Debited(frames, k);
      assert d[..|frames| - 1] == Debited(front, k);
      assert Clamped(d[|frames| - 1], n - k) == Clamped(f, n) - k;
    }
  }

  lemma {:induction false} DebitedTwice(frames: seq<Frame>, j: nat, k: nat)
    requires Room(frames, j) == j && Room(Debited(frames, j), k) == k
    ensures Room(frames, j + k) == j + k && Debited(Debited(frames, j), k) == Debited(frames, j + k)
    decreases |frames|
  {
    if frames == [] {
    } else {
      var front, d := frames[..|frames| - 1], Debited(frames, j);
      assert d[..|frames| - 1] == Debited(front, j);
      RoomShrinks(d, k);
      DebitedTwice(front, j, k);
    }
  }

  lemma {:induction false} DebitedNone(frames: seq<Frame>)
    ensures Room(frames, 0) == 0 && Debited(frames, 0) == frames
    decreases |frames|
  {
    if frames == [] {
    } else {
      DebitedNone(frames[..|frames| - 1]);
    }
  }

  /** The data and frames k bytes on. */
  ghost predicate AfterRead(data: seq<byte>, frames: seq<Frame>, data0: seq<byte>, frames0: seq<Frame>, k: nat) {
    && k <= Room(frames0, |data0|)
    && (RoomFits(frames0, |data0|, k); data == data0[k..] && frames == Debited(frames0, k))
  }

  class Source {
    var data: seq<byte>
    var frames: seq<Frame>

    ghost var starts: seq<nat>  // for each open decoder, how much data was left where its element starts
    ghost var ends: seq<int>    // and how much is left where its definite length ends

    /** Every open decoder lies within the enclosing ones, and its length counts the bytes up to its end. */
    ghost predicate Nested()
      reads this
    {
      && |starts| == |ends| == |frames|
      && (forall i :: 0 <= i < |frames| ==>
           |data| <= starts[i] && (frames[i].definite ==> |data| - frames[i].length == ends[i]))
      && (forall i, j :: 0 <= i < j < |frames| ==> starts[j] <= starts[i])
    }

    ghost function Visible(): seq<byte>
      reads this`data, this`frames
    {
      data[..Room(frames, |data|)]
    }

    /** k bytes have been read since the given state. */
    ghost predicate Moved(data0: seq<byte>, frames0: seq<Frame>, k: nat)
      reads this`data, this`frames
    {
      AfterRead(data, frames, data0, frames0, k)
    }

    constructor (data: seq<byte>)
      ensures this.data == data && frames == [] && Visible() == data && Nested()
    {
      this.data, frames, starts, ends := data, [], [], [];
    }

    /** `TransferTo2` of the decoder at a depth: the inner decoder clamps first, and every decoder on the way debits
        what the outer ones let through. */
    method TransferTo2(depth: nat, n: nat) returns (r: seq<byte>)
      requires depth <= |frames|
      modifies this`data, this`frames
      ensures r == old(data)[..Min(Room(old(frames)[..depth], n), |old(data)|)] && data == old(data)[|r|..]
      ensures Room(old(frames)[..depth], |r|) == |r|
        && frames == Debited(old(frames)[..depth], |r|) + old(frames)[depth..]
      decreases depth
    {
      ghost var all := frames;
      if depth == 0 {
        var k := Min(n, |data|);
        r := data[..k];
        data := data[k..];
        assert all[..0] == [] && all[0..] == all;
      } else {
        var f := frames[depth - 1];
        var clamped := Clamped(f, n);
        assert all[..depth][..depth - 1] == all[..depth - 1];
        r := TransferTo2(depth - 1, clamped);
        assert frames[depth - 1] == f;
        if f.definite {
          frames := frames[depth - 1 := Frame(true, f.length - |r|)];
        }
        assert frames == Debited(all[..depth], |r|) + all[depth..];
      }
    }

    /** Up to n bytes through all the decoders. */
    method Get(n: nat) returns (r: seq<byte>)
      modifies this`data, this`frames
      ensures old(Nested()) ==> Nested()
      ensures r == old(Visible())[..Min(n, |old(Visible())|)] && Moved(old(data), old(frames), |r|)
      ensures Visible() == old(Visible())[|r|..]
    {
      ghost var data0, frames0 := data, frames;
      assert frames[..|frames|] == frames && frames[|frames|..] == [];
      r := TransferTo2(|frames|, n);
      RoomClamp(frames0, n, |data0|);
      RoomClamp(frames0, |data0|, n);
      assert Min(n, |data0|) == Min(|data0|, n);
      MovedVisible(data0, frames0, |r|);
      forall i | 0 <= i < |frames|
        ensures frames[i] == DebitedFrame(frames0[i], |r|)
          && (frames0[i].definite ==> |r| <= frames0[i].length)
      {
        DebitedAt(frames0, |r|, i);
      }
    }

    lemma MovedVisible(data0: seq<byte>, frames0: seq<Frame>, k: nat)
      requires Moved(data0, frames0, k)
      ensures Visible() == data0[..Room(frames0, |data0|)][k..]
    {
      RoomDebited(frames0, |data0|, k);
    }

    lemma MovedOn(data0: seq<byte>, frames0: seq<Frame>, data1: seq<byte>, frames1: seq<Frame>, j: nat, k: nat)
      requires AfterRead(data1, frames1, data0, frames0, j) && Moved(data1, frames1, k)
      ensures Moved(data0, frames0, j + k)
    {
      RoomDebited(frames0, |data0|, j);
      RoomFits(frames1, |data1|, k);
      DebitedTwice(frames0, j, k);
    }

    /** The first bytes, without taking them (`CopyRangeTo2`). */
    method Peek(n: nat) returns (r: seq<byte>)
      ensures r == Visible()[..Min(n, |Visible()|)]
    {
      var k, depth: nat := n, |frames|;
      assert frames[..|frames|] == frames;
      while depth > 0
        invariant depth <= |frames| && Room(frames[..depth], k) == Room(frames, n)
      {
        assert frames[..depth][..depth - 1] == frames[..depth - 1];
        k := Clamped(frames[depth - 1], k);
        depth := depth - 1;
      }
      assert frames[..0] == [];
      r := data[..Min(k, |data|)];
      RoomClamp(frames, n, |data|);
      RoomClamp(frames, |data|, n);
      assert Min(n, |data|) == Min(|data|, n);
      assert k == Room(frames, n);
    }
  }
}

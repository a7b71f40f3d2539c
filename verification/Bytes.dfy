/** Bytes and fixed-width words. */
module Bytes {
  type byte = x: nat | x < 256

  datatype Option<T> = None | Some(value: T)

  /** The sum of two 32-bit words, wrapping around. */
  function Add32(a: nat, b: nat): (r: nat)
    ensures r < 0x1_0000_0000
    ensures a + b < 0x1_0000_0000 ==> r == a + b
  {
    (a + b) % 0x1_0000_0000
  }

  /** Pieces of a message put together. */
  ghost function Flattened(pieces: seq<seq<byte>>): seq<byte> {
    if pieces == [] then [] else Flattened(pieces[..|pieces| - 1]) + pieces[|pieces| - 1]
  }

  /** Data cut into pieces of the given lengths, with the rest at the end. */
  function Cut(data: seq<byte>, cuts: seq<nat>): seq<seq<byte>>
    decreases |cuts|
  {
    if cuts == [] then [data]
    else
      var n := if cuts[0] < |data| then cuts[0] else |data|;
      [data[..n]] + Cut(data[n..], cuts[1..])
  }

  lemma {:induction false} CutFlattened(data: seq<byte>, cuts: seq<nat>)
    ensures Flattened(Cut(data, cuts)) == data
    decreases |cuts|
  {
    if cuts == [] {
      FlattenedFront(data, []);
      assert [data] + [] == [data] && data + [] == data;
    } else {
      hide Flattened;
      var n := if cuts[0] < |data| then cuts[0] else |data|;
      var rest := Cut(data[n..], cuts[1..]);
      CutFlattened(data[n..], cuts[1..]);
      FlattenedFront(data[..n], rest);
      assert Cut(data, cuts) == [data[..n]] + rest;
      assert data == data[..n] + data[n..];
    }
  }

  lemma {:induction false} FlattenedFront(x: seq<byte>, pieces: seq<seq<byte>>)
    ensures Flattened([x] + pieces) == x + Flattened(pieces)
    decreases |pieces|
  {
    if pieces == [] {
      assert ([x] + pieces)[..0] == [] && [x] + pieces == [x];
    } else {
      assert ([x] + pieces)[..|pieces|] == [x] + pieces[..|pieces| - 1];
      FlattenedFront(x, pieces[..|pieces| - 1]);
      assert x + Flattened(pieces[..|pieces| - 1]) + pieces[|pieces| - 1]
        == x + (Flattened(pieces[..|pieces| - 1]) + pieces[|pieces| - 1]);
    }
  }
}

/** Nested decoders of elements, and the re-encoder built on them. */
module AsnReencoding {
  import opened Bytes
  import opened BerSource
  import opened AsnLength
  import opened AsnElements

  /** Pushing a decoder onto others that have been debited. */
  lemma PushedRoom(frames: seq<Frame>, f: Frame, n: nat)
    ensures Room(frames + [f], n) == if f.definite then Min(Room(frames, n), f.length) else Room(frames, n)
  {
    assert (frames + [f])[..|frames|] == frames;
    if f.definite { RoomClamp(frames, n, f.length); }
  }

  lemma PushedDebited(frames: seq<Frame>, f: Frame, k: nat)
    requires Room(frames + [f], k) == k
    ensures Room(frames, k) == k && Debited(frames + [f], k) == Debited(frames, k) + [DebitedFrame(f, k)]
  {
    assert (frames + [f])[..|frames|] == frames;
    RoomShrinks(frames + [f], k);
  }

  /** The data and frames of a source after k bytes, with one more decoder open. */
  ghost predicate Inside(source: Source, data0: seq<byte>, frames0: seq<Frame>, k: nat, f: Frame)
    reads source`data, source`frames
  {
    InsideAt(source.data, source.frames, data0, frames0, k, f)
  }

  ghost predicate InsideAt(data: seq<byte>, frames: seq<Frame>, data0: seq<byte>, frames0: seq<Frame>, k: nat,
        f: Frame) {
    && k <= Room(frames0, |data0|)
    && (RoomFits(frames0, |data0|, k); data == data0[k..] && frames == Debited(frames0, k) + [f])
  }

  lemma InsideVisible(source: Source, data0: seq<byte>, frames0: seq<Frame>, k: nat, f: Frame)
    requires Inside(source, data0, frames0, k, f)
    ensures k <= Room(frames0, |data0|)
    ensures var v := data0[..Room(frames0, |data0|)];
            source.Visible() == v[k..][..if f.definite then Min(|v| - k, f.length) else |v| - k]
  {
    hide Room, Debited;
    RoomDebited(frames0, |data0|, k);
    PushedRoom(Debited(frames0, k), f, |data0| - k);
    var n, r := Room(source.frames, |source.data|), Room(frames0, |data0|);
    assert |source.data| == |data0| - k && n == if f.definite then Min(r - k, f.length) else r - k;
    assert data0[..r][k..][..n] == data0[k..][..n];
  }

  /** Reading on inside. */
  lemma InsideMoved(source: Source, data0: seq<byte>, frames0: seq<Frame>, k: nat, f: Frame, data1: seq<byte>,
        frames1: seq<Frame>, j: nat)
    requires InsideAt(data1, frames1, data0, frames0, k, f) && source.Moved(data1, frames1, j)
    ensures Inside(source, data0, frames0, k + j, DebitedFrame(f, j)) && (f.definite ==> j <= f.length)
  {
    hide Room, Debited;
    RoomFits(frames0, |data0|, k);
    var d := Debited(frames0, k);
    RoomDebited(frames0, |data0|, k);
    RoomFits(frames1, |data1|, j);
    PushedDebited(d, f, j);
    PushedRoom(d, f, |data1|);
    PushedRoom(d, f, j);
    DebitedTwice(frames0, k, j);
  }

  /** The tag and length octets of an element that a decoder may open. */
  predicate Opens(v: seq<byte>, tag: byte) {
    v != [] && v[0] == tag && (BerLength(v[1..]).Definite? || (BerLength(v[1..]).Indefinite? && Constructed(tag)))
  }

  function HeaderSize(v: seq<byte>): nat
    requires v != []
  {
    if BerLength(v[1..]).Definite? then 1 + BerLength(v[1..]).used else 2
  }

  function FrameOf(v: seq<byte>): Frame
    requires v != []
  {
    if BerLength(v[1..]).Definite? then Frame(true, BerLength(v[1..]).length) else Frame(false, 0)
  }

  /** Takes the tag and the length octets. */
  method TakeHeader(source: Source, tag: byte) returns (ok: bool, f: Frame)
    modifies source`data, source`frames
    ensures old(source.Nested()) ==> source.Nested()
    ensures var v := old(source.Visible());
            && (ok <==> Opens(v, tag))
            && (ok ==> f == FrameOf(v) && source.Moved(old(source.data), old(source.frames), HeaderSize(v)))
  {
    hide Room, Debited, BerLength, AfterRead, Source.Nested, Source.Visible;
    f := Frame(false, 0);
    ghost var v, data0, frames0 := source.Visible(), source.data, source.frames;
    var b := source.Get(1);
    if |b| == 0 || b[0] != tag {
      return false, f;
    }
    assert source.Visible() == v[1..];
    ghost var data1, frames1 := source.data, source.frames;
    var l := BERLengthDecode(source);
    if !(l.Definite? || (l.Indefinite? && Constructed(tag))) {
      return false, f;
    }
    source.MovedOn(data0, frames0, data1, frames1, 1, HeaderSize(v) - 1);
    f := if l.Definite? then Frame(true, l.length) else Frame(false, 0);
    ok := true;
  }

  /** `BERGeneralDecoder::Init`: opens a decoder on the tag and the length octets. */
  method Open(source: Source, tag: byte) returns (ok: bool)
    modifies source
    ensures old(source.Nested()) && ok ==> source.Nested()
    ensures var v := old(source.Visible());
            && (ok <==> Opens(v, tag))
            && (ok ==> Inside(source, old(source.data), old(source.frames), HeaderSize(v), FrameOf(v)))
    ensures ok ==> source.starts == old(source.starts) + [|old(source.data)|]
  {
    hide Room, Debited, BerLength, Opens, HeaderSize, FrameOf;
    ghost var left := |source.data|;
    var f;
    ok, f := TakeHeader(source, tag);
    if ok {
      source.frames := source.frames + [f];
      source.starts := source.starts + [left];
      source.ends := source.ends + [|source.data| - f.length];
    }
  }

  /** A decoder of definite length ends with its length, another one at the end-of-contents octets. */
  method EndReached(source: Source) returns (end: bool)
    requires source.frames != []
    ensures var f := source.frames[|source.frames| - 1];
            end <==> if f.definite then f.length == 0 else AtEnd(source.Visible())
  {
    var f := source.frames[|source.frames| - 1];
    if f.definite {
      return f.length == 0;
    }
    var two := source.Peek(2);
    end := |two| == 2 && two[0] == 0 && two[1] == 0;
  }

  /** Closes the innermost decoder. When that succeeds its element ends where its length says, and lies within the
      element of every enclosing decoder. */
  method MessageEnd(source: Source, ghost data0: seq<byte>, ghost frames0: seq<Frame>, ghost k: nat) returns (ok: bool)
    requires source.frames != [] && source.Nested()
    requires Inside(source, data0, frames0, k, source.frames[|source.frames| - 1])
    modifies source
    ensures var n := |old(source.frames)| - 1; var f := old(source.frames)[n];
            && (ok <==> if f.definite then f.length == 0 else AtEnd(old(source.Visible())))
            && (ok ==>
                  && source.Nested() && source.starts == old(source.starts)[..|old(source.starts)| - 1]
                  && (f.definite ==> |source.data| == old(source.ends)[n])
                  && |source.data| <= old(source.starts)[n]
                  && (forall i :: 0 <= i < n ==> old(source.starts)[n] <= source.starts[i]
                                                 && (source.frames[i].definite ==> |source.data| >= source.ends[i])))
    ensures ok ==> source.Moved(data0, frames0, if old(source.frames[|source.frames| - 1]).definite then k else k + 2)
  {
    hide Room, Debited;
    var n := |source.frames| - 1;
    var f := source.frames[n];
    assert source.frames == source.frames[..n] + [f];
    if f.definite {
      if f.length != 0 {
        return false;
      }
    } else {
      ghost var data1, frames1 := source.data, source.frames;
      var two := source.Get(2);
      if |two| != 2 || two[0] != 0 || two[1] != 0 {
        return false;
      }
      RoomFits(frames0, |data0|, k);
      InsideMoved(source, data0, frames0, k, f, data1, frames1, 2);
    }
    source.frames := source.frames[..n];
    source.starts := source.starts[..n];
    source.ends := source.ends[..n];
    ok := true;
  }

  lemma TopFrame(source: Source, data0: seq<byte>, frames0: seq<Frame>, k: nat, f: Frame)
    requires Inside(source, data0, frames0, k, f)
    ensures source.frames != [] && source.frames[|source.frames| - 1] == f && |source.data| == |data0| - k
  {}

  /** The bytes of a definite content, as far as the enclosing decoders let them through. */
  method CopyContent(source: Source, ghost data0: seq<byte>, ghost frames0: seq<Frame>, ghost k: nat, f: Frame)
    returns (content: seq<byte>)
    requires source.Nested() && f.definite && Inside(source, data0, frames0, k, f)
    modifies source`data, source`frames
    ensures k <= Room(frames0, |data0|)
    ensures var v := data0[..Room(frames0, |data0|)]; content == v[k..][..Min(|v| - k, f.length)]
    ensures source.Nested() && Inside(source, data0, frames0, k + |content|, Frame(true, f.length - |content|))
  {
    hide Room, Debited, Source.Nested;
    InsideVisible(source, data0, frames0, k, f);
    ghost var data1, frames1 := source.data, source.frames;
    RoomFits(frames0, |data0|, k);
    content := source.Get(f.length);
    InsideMoved(source, data0, frames0, k, f, data1, frames1, |content|);
  }

  /** What is left to do after the first elements of an indefinite content. */
  ghost predicate Progress(all: Option<Output>, content: seq<byte>, m: nat, left: Option<Output>) {
    match left
    case None => all == None
    case Some(r) => all == Some(Output(content + r.out, m + r.taken))
  }

  lemma ProgressStep(all: Option<Output>, content: seq<byte>, m: nat, t: seq<byte>)
    requires 3 * |t| < Pow256(8) && Progress(all, content, m, ReencodeAll(t)) && !AtEnd(t)
    ensures match Reencode(t)
            case None => all == None
            case Some(r) => Progress(all, content + r.out, m + r.taken, ReencodeAll(t[r.taken..]))
  {
    hide Reencode, ReencodeAll, Pow256;
    ReencodeAllStep(t);
    if Reencode(t).Some? {
      var r := Reencode(t).value;
      var rest := ReencodeAll(t[r.taken..]);
      if rest.Some? { assert content + (r.out + rest.value.out) == content + r.out + rest.value.out; }
    }
  }

  lemma ReencodeNone()
    ensures Reencode([]) == None
  {}

  /** The two forms of an element, in terms of its content. */
  lemma ReencodeCases(v: seq<byte>)
    requires 3 * |v| < Pow256(8) && v != []
    ensures var l := BerLength(v[1..]);
            && (!l.Definite? && !(l.Indefinite? && Constructed(v[0])) ==> Reencode(v) == None)
            && (l.Definite? ==>
                  var k := 1 + l.used;
                  && k <= |v| && l.length < Pow256(8)
                  && (|v| - k < l.length ==> Reencode(v) == None)
                  && (l.length <= |v| - k ==>
                       Reencode(v) == Some(Output(Element(v[0], v[k..][..l.length]), k + l.length))))
            && (l.Indefinite? && Constructed(v[0]) ==>
                  && |v| >= 2
                  && (ReencodeAll(v[2..]) == None ==> Reencode(v) == None)
                  && (ReencodeAll(v[2..]).Some? ==>
                        var all := ReencodeAll(v[2..]).value;
                        |all.out| < Pow256(8) && Reencode(v) == Some(Output(Element(v[0], all.out), 2 + all.taken))))
  {
    hide ReencodeAll, Element, BerLength, Pow256;
    if BerLength(v[1..]).Definite? {
      LengthMinimal(v[1..]);
      var l := BerLength(v[1..]);
      var k := 1 + l.used;
      if l.length <= |v| - k { assert v[k..][..l.length] == v[k..k + l.length]; }
    }
  }

  /** Re-encodes the elements up to the end-of-contents octets. */
  method ReencodeContents(source: Source, ghost data0: seq<byte>, ghost frames0: seq<Frame>, ghost k0: nat,
        ghost v: seq<byte>)
    returns (ok: bool, content: seq<byte>, ghost k: nat)
    requires source.Nested() && Inside(source, data0, frames0, k0, Frame(false, 0))
    requires v == data0[..Room(frames0, |data0|)] && k0 <= |v| && 3 * |v| < Pow256(8)
    modifies source
    ensures ok <==> ReencodeAll(v[k0..]).Some?
    ensures ok ==> k0 <= k <= |v| && AtEnd(v[k..]) && ReencodeAll(v[k0..]) == Some(Output(content, k - k0 + 2))
    ensures ok ==>
      source.Nested() && source.starts == old(source.starts) && Inside(source, data0, frames0, k, Frame(false, 0))
    decreases |source.data|, 1
  {
    hide Room, Debited, Source.Nested, Source.Moved, Reencode, ReencodeAll, InsideAt, Pow256, Progress;
    content, k := [], k0;
    ghost var all := ReencodeAll(v[k0..]);
    StartProgress(all);
    InsideVisible(source, data0, frames0, k, Frame(false, 0));
    TopFrame(source, data0, frames0, k, Frame(false, 0));
    var end := EndReached(source);
    while !end
      invariant source.Nested() && source.starts == old(source.starts) && k0 <= k <= |v|
        && Inside(source, data0, frames0, k, Frame(false, 0))
      invariant end <==> AtEnd(v[k..])
      invariant source.Visible() == v[k..] && |source.data| <= old(|source.data|) && |source.data| == |data0| - k
      invariant Progress(all, content, k - k0, ReencodeAll(v[k..]))
      decreases |source.data|
    {
      ghost var data1, frames1 := source.data, source.frames;
      ProgressStep(all, content, k - k0, v[k..]);
      var more;
      ok, more := DERReencode(source);
      if !ok {
        return;
      }
      ghost var r := Reencode(v[k..]).value;
      InsideMoved(source, data0, frames0, k, Frame(false, 0), data1, frames1, r.taken);
      assert v[k..][r.taken..] == v[k + r.taken..];
      content, k := content + more, k + r.taken;
      InsideVisible(source, data0, frames0, k, Frame(false, 0));
      TopFrame(source, data0, frames0, k, Frame(false, 0));
      end := EndReached(source);
    }
    EndProgress(all, content, k - k0, v[k..]);
    ok := true;
  }

  lemma StartProgress(all: Option<Output>)
    ensures Progress(all, [], 0, all)
  {
    if all.Some? { assert [] + all.value.out == all.value.out; }
  }

  lemma EndProgress(all: Option<Output>, content: seq<byte>, m: nat, t: seq<byte>)
    requires 3 * |t| < Pow256(8) && Progress(all, content, m, ReencodeAll(t)) && AtEnd(t)
    ensures all == Some(Output(content, m + 2))
  {
    assert content + [] == content;
  }

  /** Re-encodes one element. */
  method DERReencode(source: Source) returns (ok: bool, out: seq<byte>)
    requires source.Nested() && 3 * |source.Visible()| < Pow256(8)
    modifies source
    ensures ok <==> Reencode(old(source.Visible())).Some?
    ensures ok ==> var r := Reencode(old(source.Visible())).value;
                   out == r.out && source.Moved(old(source.data), old(source.frames), r.taken)
    ensures ok ==> source.Nested() && source.starts == old(source.starts)
    decreases |source.data|, 0
  {
    hide Room, Debited, BerLength, DerLength, InsideAt, Pow256, Source.Nested, Source.Moved, Reencode, ReencodeAll;
    out := [];
    ghost var v, data0, frames0 := source.Visible(), source.data, source.frames;
    var peeked := source.Peek(1);
    var tag: byte := if |peeked| == 1 then peeked[0] else 0;
    if v == [] { ReencodeNone(); } else { ReencodeCases(v); }
    ok := Open(source, tag);
    if !ok {
      return;
    }
    ghost var k := HeaderSize(v);
    TopFrame(source, data0, frames0, k, FrameOf(v));
    var content;
    var f := source.frames[|source.frames| - 1];
    if f.definite {
      content := CopyContent(source, data0, frames0, k, f);
      k := k + |content|;
      TopFrame(source, data0, frames0, k, Frame(true, f.length - |content|));
    } else {
      ok, content, k := ReencodeContents(source, data0, frames0, k, v);
      if !ok {
        return;
      }
      InsideVisible(source, data0, frames0, k, f);
      TopFrame(source, data0, frames0, k, f);
    }
    ok := MessageEnd(source, data0, frames0, k);
    if !ok {
      return;
    }
    var length, n := DERLengthEncode(|content|);
    out := [tag] + length + content;
  }
}

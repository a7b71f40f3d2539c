/** A writer of BER elements that makes every choice the encoding rules leave open for lengths of constructed elements,
    and what re-encoding makes of its output. */
module AsnPrinter {
  import opened Bytes
  import opened AsnLength
  import opened AsnElements

  type Class = x: nat | x < 4
  type Number = x: nat | x < 32

  /** An element: class and number of its tag, and a content. A constructed one says whether its length is written. */
  datatype Written =
    | Primitive(c: Class, k: Number, content: seq<byte>)
    | Compound(c: Class, k: Number, definite: bool, parts: seq<Written>)

  function TagOf(w: Written): byte {
    match w
    case Primitive(c, k, _) => 64 * c + k
    case Compound(c, k, _, _) => 64 * c + 32 + k
  }

  /** Tag, definite length and content; no content of this model is too long for its length. */
  function Definitely(tag: byte, content: seq<byte>): seq<byte> {
    if |content| < Pow256(8) then [tag] + DerLength(|content|) + content else []
  }

  function Print(w: Written): seq<byte>
    decreases w
  {
    match w
    case Primitive(_, _, content) => Definitely(TagOf(w), content)
    case Compound(_, _, definite, parts) =>
      if definite then Definitely(TagOf(w), PrintAll(parts)) else [TagOf(w), 0x80] + PrintAll(parts) + [0, 0]
  }

  function PrintAll(ws: seq<Written>): seq<byte>
    decreases ws
  {
    if ws == [] then [] else Print(ws[0]) + PrintAll(ws[1..])
  }

  function TreeOf(w: Written): Tree
    decreases w
  {
    match w
    case Primitive(_, _, content) => Leaf(TagOf(w), content)
    case Compound(_, _, _, parts) => Node(TagOf(w), TreesOf(parts))
  }

  function TreesOf(ws: seq<Written>): seq<Tree>
    decreases ws
  {
    if ws == [] then [] else [TreeOf(ws[0])] + TreesOf(ws[1..])
  }

  /** The tag that X.690 reserves for the end of contents (section 8.1.5). */
  const RESERVED: Written := Primitive(0, 0, [])

  /** The contents are short enough, and the reserved element is not among those that it would end. */
  predicate Proper(w: Written)
    decreases w
  {
    match w
    case Primitive(_, _, content) => |content| < Pow256(8)
    case Compound(_, _, definite, parts) =>
      && |PrintAll(parts)| < Pow256(8) && AllProper(parts)
      && (!definite ==> RESERVED !in parts)
  }

  predicate AllProper(ws: seq<Written>)
    decreases ws
  {
    ws != [] ==> Proper(ws[0]) && AllProper(ws[1..])
  }

  /** Definite lengths down to the first definite element. */
  function Settled(w: Written): Written
    decreases w
  {
    if w.Primitive? || w.definite then w else Compound(w.c, w.k, true, AllSettled(w.parts))
  }

  function AllSettled(ws: seq<Written>): seq<Written>
    decreases ws
  {
    if ws == [] then [] else [Settled(ws[0])] + AllSettled(ws[1..])
  }

  lemma TagBits(c: Class, k: Number)
    ensures !Constructed(64 * c + k) && Constructed(64 * c + 32 + k)
  {
    assert (64 * c + k) / 32 == 2 * c && (64 * c + 32 + k) / 32 == 2 * c + 1;
  }

  lemma PrintedStart(w: Written)
    requires Proper(w)
    ensures |Print(w)| >= 2 && Print(w)[0] == TagOf(w)
    ensures AtEnd(Print(w)) <==> w == RESERVED
  {
    hide Pow256, DerLength, AllProper, PrintAll;
    if w.Primitive? {
      LengthStart(|w.content|);
      assert Print(w)[1] == DerLength(|w.content|)[0];
    } else if w.definite {
      LengthStart(|PrintAll(w.parts)|);
    }
  }

  lemma LengthStart(n: nat)
    requires n < Pow256(8)
    ensures DerLength(n)[0] == 0 <==> n == 0
  {}

  /** Every proper element is accepted and taken whole, whatever follows it; it has its tree, and it re-encodes to
      itself with definite lengths. */
  lemma {:induction false} Accepted(w: Written, rest: seq<byte>)
    requires Proper(w) && 3 * |Print(w) + rest| < Pow256(8)
    ensures Parse(Print(w) + rest) == Some(Parsed(TreeOf(w), |Print(w)|))
    ensures Reencode(Print(w) + rest) == Some(Output(Print(Settled(w)), |Print(w)|))
    decreases w, 0
  {
    hide Pow256, DerLength, BerLength, Parse, Reencode, Constructed;
    TagBits(w.c, w.k);
    if w.Primitive? {
      ParseElement(TagOf(w), w.content, rest);
      ReencodeAgain(TagOf(w), w.content, rest);
    } else if w.definite {
      AllAccepted(w.parts);
      ParseElement(TagOf(w), PrintAll(w.parts), rest);
      ReencodeAgain(TagOf(w), PrintAll(w.parts), rest);
    } else {
      var s, body := Print(w) + rest, PrintAll(w.parts);
      assert s[2..] == body + [0, 0] + rest;
      AcceptedUntilEnd(w.parts, rest);
      IndefiniteCase(s, w.c, w.k);
    }
  }

  lemma IndefiniteCase(s: seq<byte>, c: Class, k: Number)
    requires |s| >= 2 && s[1] == 0x80 && 3 * |s| < Pow256(8)
    ensures s[0] == 64 * c + 32 + k && ParseUntilEnd(s[2..]).Some? ==>
              var r := ParseUntilEnd(s[2..]).value; Parse(s) == Some(Parsed(Node(s[0], r.trees), 2 + r.taken))
    ensures s[0] == 64 * c + 32 + k && ReencodeAll(s[2..]).Some? ==>
              var r := ReencodeAll(s[2..]).value;
              |r.out| < Pow256(8) && Reencode(s) == Some(Output(Element(s[0], r.out), 2 + r.taken))
    ensures s[0] == 64 * c + k ==> Parse(s) == None && Reencode(s) == None
  {
    hide Pow256, ParseUntilEnd, ReencodeAll, Element, Constructed;
    TagBits(c, k);
    assert BerLength(s[1..]) == Indefinite;
  }

  /** A primitive element of indefinite length is refused, whatever follows its header. */
  lemma PrimitiveRefused(c: Class, k: Number, rest: seq<byte>)
    requires 3 * |[64 * c + k, 0x80] + rest| < Pow256(8)
    ensures var s: seq<byte> := [64 * c + k, 0x80] + rest; Parse(s) == None && Reencode(s) == None
  {
    IndefiniteCase([64 * c + k, 0x80] + rest, c, k);
  }

  /** Elements that fill a content. */
  lemma {:induction false} AllAccepted(ws: seq<Written>)
    requires AllProper(ws) && 3 * |PrintAll(ws)| < Pow256(8)
    ensures ParseAll(PrintAll(ws)) == Some(TreesOf(ws))
    decreases ws
  {
    hide Pow256, Parse, Reencode, Print, AtEnd;
    if ws == [] {
    } else {
      var rest := PrintAll(ws[1..]);
      PrintedStart(ws[0]);
      Accepted(ws[0], rest);
      AllAccepted(ws[1..]);
      assert (Print(ws[0]) + rest)[|Print(ws[0])|..] == rest;
    }
  }

  /** Elements up to the end-of-contents octets. */
  lemma {:induction false} AcceptedUntilEnd(ws: seq<Written>, rest: seq<byte>)
    requires AllProper(ws) && RESERVED !in ws && 3 * |PrintAll(ws) + [0, 0] + rest| < Pow256(8)
    ensures var s := PrintAll(ws) + [0, 0] + rest; var n := |PrintAll(ws)| + 2;
            && ParseUntilEnd(s) == Some(Children(TreesOf(ws), n))
            && ReencodeAll(s) == Some(Output(PrintAll(AllSettled(ws)), n))
    decreases ws
  {
    hide Pow256, Parse, Reencode, ParseUntilEnd, ReencodeAll, Print, Settled, TreeOf, Proper, AtEnd;
    var s := PrintAll(ws) + [0, 0] + rest;
    if ws == [] {
      assert s == [0, 0] + rest;
      NothingLeft(rest);
    } else {
      var first, left := Print(ws[0]), PrintAll(ws[1..]) + [0, 0] + rest;
      assert s == first + left;
      PrintedStart(ws[0]);
      StartsAlike(first, left);
      Accepted(ws[0], left);
      AcceptedUntilEnd(ws[1..], rest);
      assert s[|first|..] == left;
      ParseUntilEndStep(s);
      ReencodeAllStep(s);
    }
  }

  lemma StartsAlike(s: seq<byte>, rest: seq<byte>)
    requires |s| >= 2
    ensures AtEnd(s + rest) <==> AtEnd(s)
  {}

  lemma NothingLeft(rest: seq<byte>)
    requires 3 * |[0, 0] + rest| < Pow256(8)
    ensures ParseUntilEnd([0, 0] + rest) == Some(Children([], 2)) && ReencodeAll([0, 0] + rest) == Some(Output([], 2))
  {
    assert AtEnd([0, 0] + rest);
  }
}

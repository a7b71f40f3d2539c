/** BER elements as trees, and their re-encoding with definite lengths (X.690 sections 8.1.3 and 8.1.5). */
module AsnElements {
  import opened Bytes
  import opened AsnLength

  predicate Constructed(tag: byte) {
    (tag / 32) % 2 == 1
  }

  /** End-of-contents octets at the front. */
  predicate AtEnd(s: seq<byte>) {
    |s| >= 2 && s[0] == 0 && s[1] == 0
  }

  function Element(tag: byte, content: seq<byte>): seq<byte>
    requires |content| < Pow256(8)
  {
    [tag] + DerLength(|content|) + content
  }

  // Re-encoding ----------------------------------------------------------------------------------------

  /** Output and number of bytes taken. */
  datatype Output = Output(out: seq<byte>, taken: nat)

  /** One element: a definite content is copied, the elements of an indefinite one are re-encoded. */
  function Reencode(s: seq<byte>): (r: Option<Output>)
    requires 3 * |s| < Pow256(8)
    ensures r.Some? ==> 2 <= r.value.taken <= |s| && 2 <= |r.value.out| <= 3 * r.value.taken
    decreases |s|, 0
  {
    if s == [] then None
    else
      match BerLength(s[1..])
      case Definite(n, u) =>
        LengthMinimal(s[1..]);
        if 1 + u + n > |s| then None else Some(Output(Element(s[0], s[1 + u..1 + u + n]), 1 + u + n))
      case Indefinite =>
        if !Constructed(s[0]) then None
        else
          (match ReencodeAll(s[2..])
           case None => None
           case Some(all) => Some(Output(Element(s[0], all.out), 2 + all.taken)))
      case _ => None
  }

  /** Elements up to the end-of-contents octets. */
  function ReencodeAll(s: seq<byte>): (r: Option<Output>)
    requires 3 * |s| < Pow256(8)
    ensures r.Some? ==> 2 <= r.value.taken <= |s| && |r.value.out| <= 3 * r.value.taken - 6
    decreases |s|, 1
  {
    if AtEnd(s) then Some(Output([], 2))
    else
      match Reencode(s)
      case None => None
      case Some(first) =>
        match ReencodeAll(s[first.taken..])
        case None => None
        case Some(rest) => Some(Output(first.out + rest.out, first.taken + rest.taken))
  }

  lemma ReencodeAllStep(t: seq<byte>)
    requires 3 * |t| < Pow256(8) && !AtEnd(t)
    ensures match Reencode(t)
            case None => ReencodeAll(t) == None
            case Some(first) =>
              match ReencodeAll(t[first.taken..])
              case None => ReencodeAll(t) == None
              case Some(rest) => ReencodeAll(t) == Some(Output(first.out + rest.out, first.taken + rest.taken))
  {
    hide Reencode, Pow256, AtEnd;
  }

  // Trees ----------------------------------------------------------------------------------------------

  datatype Tree = Leaf(tag: byte, content: seq<byte>) | Node(tag: byte, children: seq<Tree>)

  datatype Parsed = Parsed(tree: Tree, taken: nat)

  datatype Children = Children(trees: seq<Tree>, taken: nat)

  /** The tree of the element at the front of a string. */
  function Parse(s: seq<byte>): (r: Option<Parsed>)
    ensures r.Some? ==> 2 <= r.value.taken <= |s|
    decreases |s|, 0
  {
    if s == [] then None
    else
      match BerLength(s[1..])
      case Definite(n, u) =>
        LengthMinimal(s[1..]);
        if 1 + u + n > |s| then None
        else if Constructed(s[0]) then
          (match ParseAll(s[1 + u..1 + u + n])
           case None => None
           case Some(trees) => Some(Parsed(Node(s[0], trees), 1 + u + n)))
        else Some(Parsed(Leaf(s[0], s[1 + u..1 + u + n]), 1 + u + n))
      case Indefinite =>
        if !Constructed(s[0]) then None
        else
          (match ParseUntilEnd(s[2..])
           case None => None
           case Some(c) => Some(Parsed(Node(s[0], c.trees), 2 + c.taken)))
      case _ => None
  }

  /** The elements that fill a string. */
  function ParseAll(s: seq<byte>): Option<seq<Tree>>
    decreases |s|, 1
  {
    if s == [] then Some([])
    else
      match Parse(s)
      case None => None
      case Some(p) =>
        match ParseAll(s[p.taken..])
        case None => None
        case Some(trees) => Some([p.tree] + trees)
  }

  /** The elements up to the end-of-contents octets. */
  function ParseUntilEnd(s: seq<byte>): (r: Option<Children>)
    ensures r.Some? ==> 2 <= r.value.taken <= |s|
    decreases |s|, 1
  {
    if AtEnd(s) then Some(Children([], 2))
    else
      match Parse(s)
      case None => None
      case Some(p) =>
        match ParseUntilEnd(s[p.taken..])
        case None => None
        case Some(c) => Some(Children([p.tree] + c.trees, p.taken + c.taken))
  }

  lemma ParseUntilEndStep(s: seq<byte>)
    requires !AtEnd(s)
    ensures match Parse(s)
            case None => ParseUntilEnd(s) == None
            case Some(p) =>
              match ParseUntilEnd(s[p.taken..])
              case None => ParseUntilEnd(s) == None
              case Some(c) => ParseUntilEnd(s) == Some(Children([p.tree] + c.trees, p.taken + c.taken))
  {
    hide Parse, AtEnd;
  }

  // The same tree --------------------------------------------------------------------------------------

  /** Where the parts of an element lie. */
  lemma ElementParts(tag: byte, content: seq<byte>, rest: seq<byte>)
    requires |content| < Pow256(8)
    ensures var u := |DerLength(|content|)|; var s := Element(tag, content) + rest;
            && |Element(tag, content)| == 1 + u + |content| && s[0] == tag
            && BerLength(s[1..]) == Definite(|content|, u) && s[1 + u..1 + u + |content|] == content
  {
    hide BerLength, DerLength;
    var d, s := DerLength(|content|), Element(tag, content) + rest;
    assert s[1..] == d + (content + rest);
    LengthRoundTrip(|content|, content + rest);
    assert s[1 + |d|..1 + |d| + |content|] == content;
  }

  /** An element of definite length, whatever follows it. */
  lemma ParseElement(tag: byte, content: seq<byte>, rest: seq<byte>)
    requires |content| < Pow256(8)
    ensures var e := Element(tag, content);
            Parse(e + rest) == if !Constructed(tag) then Some(Parsed(Leaf(tag, content), |e|))
                               else match ParseAll(content)
                                    case None => None
                                    case Some(trees) => Some(Parsed(Node(tag, trees), |e|))
  {
    hide BerLength, DerLength, Element;
    ElementParts(tag, content, rest);
  }

  /** Re-encoding keeps the tree: input and output have the same one, or neither has one. */
  lemma {:induction false} ReencodeKeepsTree(s: seq<byte>, rest: seq<byte>)
    requires 3 * |s| < Pow256(8) && Reencode(s).Some?
    ensures var r := Reencode(s).value;
            match Parse(s)
            case None => Parse(r.out + rest) == None
            case Some(p) => p.taken == r.taken && Parse(r.out + rest) == Some(Parsed(p.tree, |r.out|))
    decreases |s|, 0
  {
    hide BerLength, DerLength, Pow256, Element, AtEnd;
    match BerLength(s[1..])
    case Definite(n, u) =>
      LengthMinimal(s[1..]);
      ParseElement(s[0], s[1 + u..1 + u + n], rest);
    case Indefinite =>
      ReencodeAllKeepsTrees(s[2..]);
      ParseElement(s[0], ReencodeAll(s[2..]).value.out, rest);
  }

  lemma {:induction false} ReencodeAllKeepsTrees(s: seq<byte>)
    requires 3 * |s| < Pow256(8) && ReencodeAll(s).Some?
    ensures var r := ReencodeAll(s).value;
            match ParseUntilEnd(s)
            case None => ParseAll(r.out) == None
            case Some(c) => c.taken == r.taken && ParseAll(r.out) == Some(c.trees)
    decreases |s|, 1
  {
    if AtEnd(s) {
    } else {
      var first := Reencode(s).value;
      var rest := ReencodeAll(s[first.taken..]).value;
      ReencodeKeepsTree(s, rest.out);
      ReencodeAllKeepsTrees(s[first.taken..]);
      assert (first.out + rest.out)[|first.out|..] == rest.out;
    }
  }

  /** The output is one element of definite length with the tag of the input, which re-encodes to itself. */
  lemma ReencodeDefinite(s: seq<byte>) returns (content: seq<byte>)
    requires 3 * |s| < Pow256(8) && Reencode(s).Some?
    ensures |content| < Pow256(8) && Reencode(s).value.out == Element(s[0], content)
  {
    hide BerLength, DerLength;
    match BerLength(s[1..])
    case Definite(n, u) =>
      LengthMinimal(s[1..]);
      content := s[1 + u..1 + u + n];
    case Indefinite =>
      content := ReencodeAll(s[2..]).value.out;
  }

  lemma ReencodeAgain(tag: byte, content: seq<byte>, rest: seq<byte>)
    requires |content| < Pow256(8) && 3 * |Element(tag, content) + rest| < Pow256(8)
    ensures Reencode(Element(tag, content) + rest) == Some(Output(Element(tag, content), |Element(tag, content)|))
  {
    hide BerLength, DerLength, Pow256, Element;
    ElementParts(tag, content, rest);
  }

  // Definite throughout --------------------------------------------------------------------------------

  /** The element and all elements in it have definite lengths. */
  predicate DefiniteThroughout(s: seq<byte>)
    requires Parse(s).Some?
    decreases |s|, 0
  {
    match BerLength(s[1..])
    case Definite(n, u) => LengthMinimal(s[1..]); Constructed(s[0]) ==> AllDefinite(s[1 + u..1 + u + n])
    case _ => false
  }

  predicate AllDefinite(s: seq<byte>)
    requires ParseAll(s).Some?
    decreases |s|, 1
  {
    s != [] ==> DefiniteThroughout(s) && AllDefinite(s[Parse(s).value.taken..])
  }

  /** No element of definite length holds one of indefinite length. */
  predicate NoneHidden(s: seq<byte>)
    requires Parse(s).Some?
    decreases |s|, 0
  {
    if BerLength(s[1..]).Indefinite? then NoneHiddenUntilEnd(s[2..]) else DefiniteThroughout(s)
  }

  predicate NoneHiddenUntilEnd(s: seq<byte>)
    requires ParseUntilEnd(s).Some?
    decreases |s|, 1
  {
    !AtEnd(s) ==> NoneHidden(s) && NoneHiddenUntilEnd(s[Parse(s).value.taken..])
  }

  /** The output is definite throughout exactly when the input hides no indefinite length in a definite one. */
  lemma {:induction false} DefiniteIff(s: seq<byte>, rest: seq<byte>)
    requires 3 * |s| < Pow256(8) && Reencode(s).Some? && Parse(s).Some?
    ensures Parse(Reencode(s).value.out + rest).Some?
    ensures DefiniteThroughout(Reencode(s).value.out + rest) <==> NoneHidden(s)
    decreases |s|, 0
  {
    hide BerLength, DerLength;
    ReencodeKeepsTree(s, rest);
    match BerLength(s[1..])
    case Definite(n, u) =>
      LengthMinimal(s[1..]);
      ElementDefinite(s[0], s[1 + u..1 + u + n], rest);
    case Indefinite =>
      ReencodeAllKeepsTrees(s[2..]);
      DefiniteUntilEnd(s[2..]);
      ElementDefinite(s[0], ReencodeAll(s[2..]).value.out, rest);
  }

  lemma DefiniteCase(s: seq<byte>, n: nat, u: nat, content: seq<byte>)
    requires s != [] && BerLength(s[1..]) == Definite(n, u) && 1 + u + n <= |s| && content == s[1 + u..1 + u + n]
    requires Parse(s).Some? && (Constructed(s[0]) ==> ParseAll(content).Some?)
    ensures DefiniteThroughout(s) <==> (Constructed(s[0]) ==> AllDefinite(content))
  {
    hide BerLength, AllDefinite, Parse, ParseAll;
  }

  lemma ElementDefinite(tag: byte, content: seq<byte>, rest: seq<byte>)
    requires |content| < Pow256(8) && (Constructed(tag) ==> ParseAll(content).Some?)
    ensures var s := Element(tag, content) + rest;
            Parse(s).Some? && (DefiniteThroughout(s) <==> (Constructed(tag) ==> AllDefinite(content)))
  {
    hide BerLength, DerLength, AllDefinite, DefiniteThroughout, Parse, ParseAll, Pow256, Element;
    ParseElement(tag, content, rest);
    ElementParts(tag, content, rest);
    DefiniteCase(Element(tag, content) + rest, |content|, |DerLength(|content|)|, content);
  }

  lemma {:induction false} DefiniteUntilEnd(s: seq<byte>)
    requires 3 * |s| < Pow256(8) && ReencodeAll(s).Some? && ParseUntilEnd(s).Some?
    ensures ParseAll(ReencodeAll(s).value.out).Some?
    ensures AllDefinite(ReencodeAll(s).value.out) <==> NoneHiddenUntilEnd(s)
    decreases |s|, 1
  {
    ReencodeAllKeepsTrees(s);
    if AtEnd(s) {
    } else {
      var first := Reencode(s).value;
      var rest := ReencodeAll(s[first.taken..]).value;
      ReencodeKeepsTree(s, rest.out);
      DefiniteIff(s, rest.out);
      DefiniteUntilEnd(s[first.taken..]);
      assert (first.out + rest.out)[|first.out|..] == rest.out;
    }
  }

  /** So the output need not be DER: here a definite element hides an indefinite one and is copied as it is. */
  lemma HiddenStays()
    ensures var s: seq<byte> := [0x30, 4, 0x30, 0x80, 0, 0];
            3 * |s| < Pow256(8) && Reencode(s) == Some(Output(s, 6)) && Parse(s).Some? && !DefiniteThroughout(s)
  {
    var s: seq<byte> := [0x30, 4, 0x30, 0x80, 0, 0];
    assert Pow256(2) == 256 * Pow256(1) == 65536;
    Pow256Monotone(2, 8);
    assert BerLength(s[1..]) == Definite(4, 1);
    var content := s[2..6];
    assert content == [0x30, 0x80, 0, 0] && BerLength(content[1..]) == Indefinite;
    assert AtEnd(content[2..]);
    assert Parse(content) == Some(Parsed(Node(0x30, []), 4));
    assert content[4..] == [];
    assert s == Element(0x30, content);
  }
}

/** The grouper: breaks a text into groups of fixed size, with a separator between them and a terminator. */
module Grouping {
  import opened Bytes
  import opened BaseNDecoding

  /** The text in groups of g characters, with the separator between groups; in one group when g is 0. */
  function Lines(g: nat, sep: seq<byte>, s: seq<byte>): seq<byte>
    decreases |s|
  {
    if g == 0 || |s| <= g then s else s[..g] + sep + Lines(g, sep, s[g..])
  }

  /** How many characters the last group of n characters has. */
  function Column(g: nat, n: nat): (c: nat)
    requires g >= 1
    ensures c <= g && (c == 0 <==> n == 0)
  {
    if n <= g then n else Column(g, n - g)
  }

  function Grouped(g: nat, sep: seq<byte>, term: seq<byte>, s: seq<byte>): seq<byte> {
    Lines(g, sep, s) + term
  }

  /** Characters that still fit into the last group. */
  lemma {:induction false} LinesExtend(g: nat, sep: seq<byte>, t: seq<byte>, x: seq<byte>)
    requires g >= 1 && Column(g, |t|) + |x| <= g
    ensures Lines(g, sep, t + x) == Lines(g, sep, t) + x
    ensures Column(g, |t| + |x|) == Column(g, |t|) + |x|
    decreases |t|
  {
    if |t| <= g {
    } else {
      assert (t + x)[..g] == t[..g] && (t + x)[g..] == t[g..] + x;
      LinesExtend(g, sep, t[g..], x);
    }
  }

  /** Characters of a new group. */
  lemma {:induction false} LinesBreak(g: nat, sep: seq<byte>, t: seq<byte>, x: seq<byte>)
    requires g >= 1 && Column(g, |t|) == g && 0 < |x| <= g
    ensures Lines(g, sep, t + x) == Lines(g, sep, t) + sep + x
    ensures Column(g, |t| + |x|) == |x|
    decreases |t|
  {
    if |t| > g {
      assert (t + x)[..g] == t[..g] && (t + x)[g..] == t[g..] + x;
      LinesBreak(g, sep, t[g..], x);
      assert |t + x| - g == |t[g..]| + |x|;
      assert t[..g] + sep + (Lines(g, sep, t[g..]) + sep + x) == t[..g] + sep + Lines(g, sep, t[g..]) + sep + x;
    } else {
      assert (t + x)[..g] == t && (t + x)[g..] == x;
    }
  }

  /** Where everything stands in the grouped text: character r of group q behind q whole groups and q separators, and a
      separator behind every group but the last. */
  lemma {:induction false} LinesAt(g: nat, sep: seq<byte>, s: seq<byte>, q: nat, r: nat)
    requires r < g && q * g + r < |s|
    ensures var at := q * (g + |sep|) + r; at < |Lines(g, sep, s)| && Lines(g, sep, s)[at] == s[q * g + r]
    decreases q
  {
    if q == 0 {
    } else {
      OneLess(q, g);
      OneLess(q, g + |sep|);
      LinesAt(g, sep, s[g..], q - 1, r);
      var rest, at := Lines(g, sep, s[g..]), (q - 1) * (g + |sep|) + r;
      assert Lines(g, sep, s)[g + |sep| + at] == rest[at];
    }
  }

  lemma {:induction false} SeparatorAt(g: nat, sep: seq<byte>, s: seq<byte>, q: nat)
    requires g >= 1 && q * g + g < |s|
    ensures var at := q * (g + |sep|) + g;
            at + |sep| <= |Lines(g, sep, s)| && Lines(g, sep, s)[at..at + |sep|] == sep
    decreases q
  {
    if q == 0 {
      assert Lines(g, sep, s)[g..g + |sep|] == sep;
    } else {
      OneLess(q, g);
      OneLess(q, g + |sep|);
      SeparatorAt(g, sep, s[g..], q - 1);
      var rest, at := Lines(g, sep, s[g..]), (q - 1) * (g + |sep|) + g;
      assert Lines(g, sep, s)[g + |sep| + at..g + |sep| + at + |sep|] == rest[at..at + |sep|];
    }
  }

  /** q whole groups before the last one, which is not empty, bring q separators. */
  lemma {:induction false} LinesLength(g: nat, sep: seq<byte>, s: seq<byte>, q: nat, r: nat)
    requires 1 <= r <= g && q * g + r == |s|
    ensures |Lines(g, sep, s)| == q * (g + |sep|) + r
    decreases q
  {
    if q == 0 {
    } else {
      OneLess(q, g);
      OneLess(q, g + |sep|);
      LinesLength(g, sep, s[g..], q - 1, r);
    }
  }

  lemma OneLess(q: nat, g: nat)
    requires q >= 1
    ensures q * g == (q - 1) * g + g && (q - 1) * g >= 0
  {}

  /** A call of the attached filter: data and whether the message ends with it. */
  datatype Offer = Offer(data: seq<byte>, end: bool)

  class Grouper {
    const groupSize: nat
    const separator: seq<byte>
    const terminator: seq<byte>
    const next: BaseNDecoder?  // the attached filter; without one, any transformation may be attached
    var counter: nat
    var inputPosition: nat
    var continueAt: nat
    var delivered: seq<byte>  // what the attached transformation has taken

    ghost var base: seq<byte>     // what it had taken before this message
    ghost var message: seq<byte>  // the message up to the current call
    ghost var input: seq<byte>    // the call that waits for the output
    ghost var end: bool

    ghost function Downstream(): set<object> {
      if next == null then {} else {next, next.outBuf}
    }

    /** What the attached filter had delivered before this message. */
    ghost function NextBase(): seq<byte>
      reads Downstream()
    {
      if next == null then [] else next.base
    }

    /** The attached filter has taken what was delivered of this message, and waits for the given call to
        be repeated. */
    ghost predicate Linked(waiting: Option<Offer>)
      reads this`delivered, this`base, Downstream()
    {
      next != null ==>
        && next.Valid() && delivered == base + next.message
        && (waiting.None? ==> next.continueAt == 0)
        && (waiting.Some? ==> next.continueAt != 0 && Offer(next.input, next.end) == waiting.value)
    }

    /** Everything taken is out; a separator may be out already for the next group. */
    ghost predicate Out(taken: seq<byte>)
      reads this`counter, this`delivered, this`base
    {
      var lines := base + Lines(groupSize, separator, taken);
      if groupSize == 0 then counter == 0 && delivered == lines
      else if counter == 0 && taken != [] then Column(groupSize, |taken|) == groupSize && delivered == lines + separator
      else counter == Column(groupSize, |taken|) && delivered == lines
    }

    /** What the current call still adds to the last group. */
    ghost function Piece(input: seq<byte>): seq<byte>
      requires inputPosition <= |input| && counter <= groupSize
      reads this`inputPosition, this`counter
    {
      var left, room := |input| - inputPosition, groupSize - counter;
      input[inputPosition..][..if left < room then left else room]
    }

    ghost predicate Valid()
      reads this, Downstream()
    {
      match continueAt
      case 0 => Out(message) && (counter == 0 ==> groupSize == 0 || message == []) && Linked(None)
      case 1 => InGroups(input) && counter == groupSize && Linked(Some(Offer(separator, false)))
      case 2 => InGroups(input) && counter < groupSize && Linked(Some(Offer(Piece(input), false)))
      case 3 => groupSize == 0 && Out(message) && Linked(Some(Offer(input, false)))
      case 4 => end && delivered == base + Lines(groupSize, separator, message + input)
        && Linked(Some(Offer(terminator, true)))
      case _ => false
    }

    ghost predicate InGroups(input: seq<byte>)
      reads this`inputPosition, this`counter, this`delivered, this`base, this`message
    {
      groupSize > 0 && inputPosition < |input| && Out(message + input[..inputPosition]) && counter <= groupSize
    }

    constructor (groupSize: nat, separator: seq<byte>, terminator: seq<byte>, next: BaseNDecoder?)
      requires next != null ==> next.Valid() && next.continueAt == 0 && next.message == []
      ensures Valid() && continueAt == 0 && message == delivered == base == [] && this.next == next
      ensures this.groupSize == groupSize && this.separator == separator && this.terminator == terminator
    {
      this.groupSize, this.separator, this.terminator, this.next := groupSize, separator, terminator, next;
      counter, inputPosition, continueAt, delivered := 0, 0, 0, [];
      base, message, input, end := [], [], [], false;
    }

    /** `Filter::Output`: calls the attached filter. Whatever is attached takes all of the data or asks to be called
        again. */
    method Output(site: nat, data: seq<byte>, end: bool) returns (blocked: bool)
      requires Linked(None) || Linked(Some(Offer(data, end)))
      modifies this`continueAt, this`delivered, Downstream()
      ensures blocked ==> continueAt == site && delivered == old(delivered) && Linked(Some(Offer(data, end)))
      ensures !blocked ==> continueAt == 0 && delivered == old(delivered) + data
      ensures !blocked && !end ==> Linked(None)
      ensures blocked || !end ==> NextBase() == old(NextBase())
      ensures !blocked && end && next != null ==>
                && next.Valid() && next.continueAt == 0 && next.message == [] && next.delivered == next.base
                && next.delivered == old(next.base) + Decoded(next.lookup, next.w, old(next.message) + data)
    {
      hide BaseNDecoder.Valid, Decoded;
      if next != null {
        blocked := next.Put2(data, end);
      } else if * {
        blocked := true;
      } else {
        blocked := false;
      }
      continueAt := if blocked then site else 0;
      if !blocked {
        delivered := delivered + data;
      }
    }

    /** A piece of the text. After a blocked call the same call is made again. */
    method Put2(input: seq<byte>, messageEnd: bool) returns (blocked: bool)
      requires Valid() && (continueAt != 0 ==> this.input == input && end == messageEnd)
      modifies this, Downstream()
      ensures Valid() && blocked == (continueAt != 0)
      ensures blocked ==> this.input == input && end == messageEnd && base == old(base) && message == old(message)
      ensures !blocked && !messageEnd ==> base == old(base) && message == old(message) + input
      ensures blocked || !messageEnd ==> NextBase() == old(NextBase())
      ensures !blocked && messageEnd ==>
                && message == [] && delivered == base
                && delivered == old(base) + Grouped(groupSize, separator, terminator, old(message) + input)
      ensures !blocked && messageEnd && next != null ==>
                && next.message == [] && next.delivered == next.base
                && next.delivered == old(NextBase())
                                     + Decoded(next.lookup, next.w,
                                         Grouped(groupSize, separator, terminator, old(message) + input))
    {
      hide Lines, Column, Out, Linked, Decoded, BaseNDecoder.Valid;
      if continueAt == 0 {
        inputPosition := 0;
        this.input, end := input, messageEnd;
        assert message + input[..0] == message;
      }
      if continueAt != 4 {
        if groupSize > 0 {
          blocked := PutGroups(input);
          assert !blocked ==> input[..inputPosition] == input;
        } else {
          blocked := PutPlain(input);
        }
        if blocked {
          return;
        }
        if !messageEnd {
          message := message + input;
          return;
        }
        Whole(message + input);
      }
      blocked := Finish(message + input);
      if blocked {
        return;
      }
      message := [];
      Fresh();
    }

    lemma TableSize()
      requires Valid() && next != null
      ensures |next.lookup| == 256
    {}

    lemma Whole(taken: seq<byte>)
      requires Out(taken) && (counter == 0 ==> groupSize == 0 || taken == [])
      ensures delivered == base + Lines(groupSize, separator, taken)
    {
      hide Lines;
    }

    lemma Fresh()
      requires delivered == base && counter == 0
      ensures Out([])
    {
      LinesNone(groupSize, separator);
    }

    /** The terminator, and the end of the message. */
    method Finish(ghost taken: seq<byte>) returns (blocked: bool)
      requires delivered == base + Lines(groupSize, separator, taken)
      requires Linked(None) || Linked(Some(Offer(terminator, true)))
      modifies this`continueAt, this`delivered, this`counter, this`base, Downstream()
      ensures blocked == (continueAt != 0)
      ensures blocked ==> continueAt == 4 && delivered == old(delivered) && base == old(base) && counter == old(counter)
                          && Linked(Some(Offer(terminator, true))) && NextBase() == old(NextBase())
      ensures !blocked ==>
                && delivered == base == old(base) + Grouped(groupSize, separator, terminator, taken) && counter == 0
                && Linked(None)
      ensures !blocked && next != null ==>
                && next.message == [] && next.delivered == next.base
                && next.delivered
                  == old(NextBase()) + Decoded(next.lookup, next.w, Grouped(groupSize, separator, terminator, taken))
    {
      hide Lines, Decoded, BaseNDecoder.Valid;
      ghost var lines := Lines(groupSize, separator, taken);
      assert base + lines + terminator == base + (lines + terminator);
      if next != null {
        assert (base + next.message)[|base|..] == next.message && (base + lines)[|base|..] == lines;
      }
      blocked := Output(4, terminator, true);
      if !blocked {
        counter := 0;
        base := delivered;
        assert base + [] == base;
      }
    }

    /** Makes a call, and makes it again while it is blocked, up to a number of times. */
    method PutPatiently(input: seq<byte>, messageEnd: bool, patience: nat) returns (blocked: bool)
      requires Valid() && continueAt == 0
      modifies this, Downstream()
      ensures Valid() && blocked == (continueAt != 0)
      ensures !blocked && !messageEnd ==> base == old(base) && message == old(message) + input
      ensures !blocked && messageEnd ==>
                delivered == base == old(base) + Grouped(groupSize, separator, terminator, old(message) + input)
    {
      hide Out, Valid, Grouped;
      blocked := Put2(input, messageEnd);
      var left := patience;
      while blocked && left > 0
        invariant Valid() && blocked == (continueAt != 0)
        invariant blocked ==> this.input == input && end == messageEnd && base == old(base) && message == old(message)
        invariant !blocked && !messageEnd ==> base == old(base) && message == old(message) + input
        invariant !blocked && messageEnd ==>
                    delivered == base == old(base) + Grouped(groupSize, separator, terminator, old(message) + input)
      {
        blocked := Put2(input, messageEnd);
        left := left - 1;
      }
    }

    /** A whole message in any pieces, each call blocked any number of times. */
    method PutMessage(pieces: seq<seq<byte>>, patience: nat) returns (blocked: bool)
      requires Valid() && continueAt == 0 && message == []
      modifies this, Downstream()
      ensures !blocked ==>
        Valid() && delivered == old(base) + Grouped(groupSize, separator, terminator, Flattened(pieces))
    {
      hide Out, Valid, Grouped;
      for i := 0 to |pieces|
        invariant Valid() && continueAt == 0 && base == old(base) && message == Flattened(pieces[..i])
      {
        assert pieces[..i + 1][..i] == pieces[..i];
        blocked := PutPatiently(pieces[i], false, patience);
        if blocked {
          return;
        }
      }
      assert pieces[..|pieces|] == pieces;
      assert message + [] == message;
      blocked := PutPatiently([], true, patience);
    }

    method PutPlain(input: seq<byte>) returns (blocked: bool)
      requires groupSize == 0 && Out(message) && (Linked(None) || Linked(Some(Offer(input, false))))
      modifies this`continueAt, this`delivered, Downstream()
      ensures blocked == (continueAt != 0) && NextBase() == old(NextBase())
      ensures blocked ==> continueAt == 3 && Out(message) && Linked(Some(Offer(input, false)))
      ensures !blocked ==> Out(message + input) && Linked(None)
    {
      hide Linked;
      assert base + message + input == base + (message + input);
      blocked := Output(3, input, false);
    }

    /** The loop over groups stands at its start, or where the output was blocked. */
    ghost predicate AtGroup(input: seq<byte>)
      reads this, Downstream()
    {
      && groupSize > 0 && inputPosition <= |input| && Out(message + input[..inputPosition]) && continueAt <= 2
      && (continueAt == 0 ==> Linked(None) && (counter == 0 ==> message + input[..inputPosition] == []))
      && (continueAt == 1 ==> inputPosition < |input| && counter == groupSize && Linked(Some(Offer(separator, false))))
      && (continueAt == 2 ==>
           inputPosition < |input| && counter < groupSize && Linked(Some(Offer(Piece(input), false))))
    }

    method PutGroups(input: seq<byte>) returns (blocked: bool)
      requires AtGroup(input)
      modifies this`continueAt, this`delivered, this`counter, this`inputPosition, Downstream()
      ensures AtGroup(input) && NextBase() == old(NextBase()) && blocked == (continueAt != 0)
      ensures !blocked ==> inputPosition == |input|
    {
      hide AtGroup;
      Reached(input);
      blocked := false;
      while inputPosition < |input|
        invariant inputPosition <= |input| && AtGroup(input) && NextBase() == old(NextBase())
        invariant inputPosition == |input| ==> continueAt == 0
        decreases |input| - inputPosition
      {
        blocked := PutGroup(input);
        if blocked {
          return;
        }
      }
    }

    lemma Reached(input: seq<byte>)
      requires AtGroup(input)
      ensures inputPosition <= |input| && (inputPosition == |input| ==> continueAt == 0)
    {}

    /** A separator where the last group is full, then what fits into the group. */
    method PutGroup(input: seq<byte>) returns (blocked: bool)
      requires AtGroup(input) && inputPosition < |input|
      modifies this`continueAt, this`delivered, this`counter, this`inputPosition, Downstream()
      ensures AtGroup(input) && NextBase() == old(NextBase()) && blocked == (continueAt != 0)
      ensures !blocked ==> old(inputPosition) < inputPosition <= |input|
    {
      hide Lines, Column, Out, Linked;
      ghost var taken := message + input[..inputPosition];
      RoomInGroup(taken);
      if continueAt != 2 && counter == groupSize {
        blocked := PutSeparator(taken);
        if blocked {
          return;
        }
      }
      var len := if |input| - inputPosition < groupSize - counter then |input| - inputPosition else groupSize - counter;
      var piece := input[inputPosition..inputPosition + len];
      assert piece == Piece(input);
      assert message + input[..inputPosition + len] == taken + piece;
      blocked := PutPiece(taken, piece);
      if !blocked {
        inputPosition := inputPosition + len;
      }
    }

    lemma RoomInGroup(taken: seq<byte>)
      requires groupSize > 0 && Out(taken)
      ensures counter <= groupSize
    {
      hide Lines;
    }

    method PutSeparator(ghost taken: seq<byte>) returns (blocked: bool)
      requires groupSize > 0 && Out(taken) && counter == groupSize
        && (Linked(None) || Linked(Some(Offer(separator, false))))
      modifies this`continueAt, this`delivered, this`counter, Downstream()
      ensures Out(taken) && blocked == (continueAt != 0) && NextBase() == old(NextBase())
      ensures blocked ==> continueAt == 1 && counter == groupSize && Linked(Some(Offer(separator, false)))
      ensures !blocked ==> counter == 0 && Linked(None)
    {
      hide Lines, Linked;
      blocked := Output(1, separator, false);
      if !blocked {
        counter := 0;
      }
    }

    method PutPiece(ghost taken: seq<byte>, piece: seq<byte>) returns (blocked: bool)
      requires groupSize > 0 && Out(taken) && 0 < |piece| <= groupSize - counter
      requires Linked(None) || Linked(Some(Offer(piece, false)))
      modifies this`continueAt, this`delivered, this`counter, Downstream()
      ensures blocked == (continueAt != 0) && NextBase() == old(NextBase())
      ensures blocked ==> continueAt == 2 && Out(taken) && counter == old(counter) && Linked(Some(Offer(piece, false)))
      ensures !blocked ==> Out(taken + piece) && counter > 0 && Linked(None)
    {
      hide Lines, Column, Linked;
      ghost var lines := Lines(groupSize, separator, taken);
      if counter == 0 && taken != [] {
        LinesBreak(groupSize, separator, taken, piece);
        assert base + lines + separator + piece == base + (lines + separator + piece);
      } else {
        LinesExtend(groupSize, separator, taken, piece);
        assert base + lines + piece == base + (lines + piece);
      }
      blocked := Output(2, piece, false);
      if !blocked {
        counter := counter + |piece|;
      }
    }
  }

  lemma LinesNone(g: nat, sep: seq<byte>)
    ensures Lines(g, sep, []) == [] && (g >= 1 ==> Column(g, 0) == 0)
  {}
}

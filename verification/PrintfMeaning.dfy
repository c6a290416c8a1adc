/** What printf writes for a whole format of characters, %% and conversion specifications in turn. */
module PrintfMeaning {
  import opened Page
  import opened Numerals
  import opened PrintfSpec
  import opened PrintfStandard
  import opened PrintfFormats

  // ---- one conversion

  predicate Known(letter: char) { letter in {'o', 'x', 'X', 'u', 'd', 'i', 'c', 's'} }

  predicate Takes(letter: char, arg: Arg) { arg.Str? == (letter == 's') }

  /** The text of a conversion; next is the character of the format behind it. */
  function Effect(s: Spec, letter: char, arg: Arg, next: char): string
    requires ValidSpec(s) && Known(letter) && Takes(letter, arg)
  {
    match letter
    case 'o' => UnsignedText(s, arg.bits, 8, 'a', next)
    case 'u' => UnsignedText(s, arg.bits, 10, 'a', next)
    case 'x' => UnsignedText(s, arg.bits, 16, 'a', 'x')
    case 'X' => UnsignedText(s, arg.bits, 16, 'A', 'X')
    case 's' => StringText(s, arg.s)
    case 'c' => CharText(s, arg.bits)
    case _ => SignedText(s, arg.bits)
  }

  lemma BodyHasNoPercent(c: Conversion)
    requires ValidConversion(c)
    ensures '%' !in Body(c)
  {
    assert '%' !in c.flags && '%' !in FieldText(c.width) && '%' !in PrecisionText(c.precision) && '%' !in c.modifier;
  }

  /** A specification in a format from the % at place i on, its conversion character and its arguments. */
  predicate Standing(f: string, i: nat, c: Conversion, letter: char, args: seq<Arg>, a: nat, p: Places) {
    && ValidConversion(c) && Laid(f, i + 1, c, args, a, p) && p.end <= |f| && At(f, p.end) == letter
    && i < |f| && f[i] == '%' && At(f, i + 1) != '%'
  }

  function DirectiveAt(c: Conversion, p: Places): Directive
    requires ValidConversion(c)
  {
    Directive(Meaning(c), p.end, p.next)
  }

  lemma PieceOf(f: string, i: nat, c: Conversion, letter: char, args: seq<Arg>, a: nat, p: Places)
    requires Standing(f, i, c, letter, args, a, p)
    ensures NextPiece(f, i, args, a) == Convert(f, i, DirectiveAt(c, p), args)
  {
    ReadsBack(f, i + 1, c, args, a, p);
    ConversionPiece(f, i, args, a);
  }

  lemma ConvertUnknown(f: string, i: nat, d: Directive, args: seq<Arg>)
    requires i < d.at <= |f| && ValidSpec(d.spec) && !Known(At(f, d.at))
    ensures Convert(f, i, d, args) == Some(Piece(f[i..], |f|, d.arg))
  {
  }

  // ---- the texts of a script together

  predicate Finishes(s: Script) {
    match s
    case End => true
    case Stuck => false
    case Text(_, rest) => Finishes(rest)
  }

  function Whole(s: Script): string { if s.Text? then s.text + Whole(s.rest) else "" }

  ghost predicate Begins(t: string, u: string) { |t| <= |u| && u[..|t|] == t }

  /** What is written when `written` characters are out already: all of t and its length is
      returned, or part of it and -1. */
  ghost predicate Prints(t: string, written: nat, res: (string, Result)) {
    if written + |t| <= INT_MAX then res == (t, Returned(written + |t|))
    else res.1 == Returned(-1) && Begins(res.0, t)
  }

  lemma {:induction false} PlayWhole(s: Script, written: nat)
    requires Finishes(s) && written <= INT_MAX
    ensures Prints(Whole(s), written, Play(s, written))
  {
    if s.Text? && |s.text| <= INT_MAX - written {
      PlayWhole(s.rest, written + |s.text|);
      var more := Play(s.rest, written + |s.text|).0;
      if written + |Whole(s)| > INT_MAX {
        assert Whole(s)[..|s.text + more|] == s.text + Whole(s.rest)[..|more|];
      }
    }
  }

  lemma ScriptStep(f: string, i: nat, args: seq<Arg>, a: nat, p: Piece)
    requires i < |f| && NextPiece(f, i, args, a) == Some(p)
    ensures p.next <= |f| && ScriptOf(f, i, args, a) == Text(p.text, ScriptOf(f, p.next, args, p.arg))
  {
  }

  /** From these places on the script finishes and its texts together are t. */
  ghost predicate Writes(f: string, i: nat, args: seq<Arg>, a: nat, t: string) {
    && i <= |f|
    && forall j: nat :: j == i ==> Finishes(ScriptOf(f, j, args, a)) && Whole(ScriptOf(f, j, args, a)) == t
  }

  lemma PieceWrites(f: string, i: nat, args: seq<Arg>, a: nat, p: Piece, tail: string)
    requires i < |f| && NextPiece(f, i, args, a) == Some(p) && Writes(f, p.next, args, p.arg, tail)
    ensures Writes(f, i, args, a, p.text + tail)
  {
    ScriptStep(f, i, args, a, p);
    TextWrites(p.text, ScriptOf(f, p.next, args, p.arg));
  }

  lemma TextWrites(text: string, rest: Script)
    ensures Finishes(Text(text, rest)) <==> Finishes(rest)
    ensures Whole(Text(text, rest)) == text + Whole(rest)
  {
  }

  /** A literal character and what follows it. */
  lemma LiteralStep(f: string, i: nat, args: seq<Arg>, a: nat, tail: string)
    requires i < |f| && IsLiteral(f, i) && Writes(f, LiteralStart(f, i) + 1, args, a, tail)
    ensures Writes(f, i, args, a, [f[LiteralStart(f, i)]] + tail)
  {
    var k := LiteralStart(f, i) + 1;
    LiteralPiece(f, i, args, a);
    if k < |f| && f[k] != '%' {
      var e := LiteralEnd(f, k);
      var more := LiteralTail(f, k, args, a, tail);
      PieceWrites(f, i, args, a, Piece(f[k - 1..e], e, a), more);
      assert f[k - 1..e] + more == [f[k - 1]] + (f[k..e] + more);
    } else {
      assert f[k - 1..k] == [f[k - 1]];
      PieceWrites(f, i, args, a, Piece([f[k - 1]], k, a), tail);
    }
  }

  lemma LiteralTail(f: string, k: nat, args: seq<Arg>, a: nat, tail: string) returns (more: string)
    requires k < |f| && f[k] != '%' && Writes(f, k, args, a, tail)
    ensures var e := LiteralEnd(f, k); tail == f[k..e] + more && Writes(f, e, args, a, more)
  {
    var e := LiteralEnd(f, k);
    more := Whole(ScriptOf(f, e, args, a));
    LiteralPiece(f, k, args, a);
    ScriptStep(f, k, args, a, Piece(f[k..e], e, a));
    TextWrites(f[k..e], ScriptOf(f, e, args, a));
  }

  // ---- whole formats

  datatype Item = Character(c: char) | PercentSign | Converted(conversion: Conversion, letter: char, arg: Arg)

  predicate ValidItem(x: Item) {
    match x
    case Character(c) => c != '%'
    case PercentSign => true
    case Converted(c, letter, arg) => ValidConversion(c) && Known(letter) && Takes(letter, arg)
  }

  predicate ValidItems(xs: seq<Item>) { forall k :: 0 <= k < |xs| ==> ValidItem(xs[k]) }

  function ItemText(x: Item): string {
    match x
    case Character(c) => [c]
    case PercentSign => "%%"
    case Converted(c, letter, _) => "%" + (Body(c) + [letter])
  }

  function ItemArgs(x: Item): seq<Arg>
    requires ValidItem(x)
  {
    if x.Converted? then Stars(x.conversion) + [x.arg] else []
  }

  function FormatOf(xs: seq<Item>, rest: string): string {
    if xs == [] then rest else ItemText(xs[0]) + FormatOf(xs[1..], rest)
  }

  function ArgsOf(xs: seq<Item>, rest: seq<Arg>): seq<Arg>
    requires ValidItems(xs)
  {
    if xs == [] then rest else ItemArgs(xs[0]) + ArgsOf(xs[1..], rest)
  }

  /** How a format ends: with its last item, or with a specification that has no known conversion
      character and whatever follows. */
  datatype Ending = Nothing | Unknown(conversion: Conversion, text: string)

  predicate ValidEnding(e: Ending) {
    e.Unknown? ==> ValidConversion(e.conversion) && Ends(At(e.text, 0)) && !Known(At(e.text, 0)) && At(e.text, 0) != '%'
  }

  function EndText(e: Ending): string { if e.Unknown? then "%" + (Body(e.conversion) + e.text) else "" }

  function EndArgs(e: Ending): seq<Arg>
    requires ValidEnding(e)
  {
    if e.Unknown? then Stars(e.conversion) else []
  }

  /** What an item stands for: a character or % as it is, a conversion as its text. */
  function ItemOutput(x: Item, next: char): string
    requires ValidItem(x)
  {
    match x
    case Character(c) => [c]
    case PercentSign => "%"
    case Converted(c, letter, arg) => Effect(Meaning(c), letter, arg, next)
  }

  /** The outputs of the items in turn, and an unknown conversion with all that follows as it is. */
  function Output(xs: seq<Item>, rest: string): string
    requires ValidItems(xs)
  {
    if xs == [] then rest
    else ItemOutput(xs[0], At(FormatOf(xs[1..], rest), 0)) + Output(xs[1..], rest)
  }

  // ---- where the items stand in a format

  function NextAt(i: nat, x: Item): nat { i + |ItemText(x)| }

  function NextArg(a: nat, x: Item): nat
    requires ValidItem(x)
  {
    a + |ItemArgs(x)|
  }

  /** x stands at place i with its arguments at place a, and next behind it. */
  predicate Placed(f: string, i: nat, x: Item, next: char, args: seq<Arg>, a: nat)
    requires ValidItem(x)
  {
    match x
    case Character(c) => i < |f| && f[i] == c
    case PercentSign => i + 1 < |f| && f[i] == '%' && f[i + 1] == '%'
    case Converted(c, letter, arg) =>
      var p := PlacesOf(i + 1, c, a);
      && Standing(f, i, c, letter, args, a, p)
      && p.next < |args| && args[p.next] == arg && p.end < |f| && At(f, p.end + 1) == next
      && p.end + 1 == NextAt(i, x) && p.next + 1 == NextArg(a, x)
  }

  predicate AllPlaced(f: string, i: nat, xs: seq<Item>, nexts: seq<char>, e: Ending, args: seq<Arg>, a: nat)
    requires ValidItems(xs) && ValidEnding(e)
    decreases |xs|
  {
    && |nexts| == |xs|
    && if xs == [] then EndPlaced(f, i, e, args, a)
       else
         && Placed(f, i, xs[0], nexts[0], args, a)
         && AllPlaced(f, NextAt(i, xs[0]), xs[1..], nexts[1..], e, args, NextArg(a, xs[0]))
  }

  predicate EndPlaced(f: string, i: nat, e: Ending, args: seq<Arg>, a: nat)
    requires ValidEnding(e)
  {
    && i <= |f| && f[i..] == EndText(e)
    && (e.Unknown? ==>
          Standing(f, i, e.conversion, At(e.text, 0), args, a, PlacesOf(i + 1, e.conversion, a)))
  }

  /** The characters behind the items. */
  function Nexts(xs: seq<Item>, rest: string): (nexts: seq<char>)
    ensures |nexts| == |xs|
  {
    if xs == [] then [] else [At(FormatOf(xs[1..], rest), 0)] + Nexts(xs[1..], rest)
  }

  /** The format and its arguments from the places i and a on. */
  ghost predicate From(f: string, i: nat, t: string, args: seq<Arg>, a: nat, more: seq<Arg>) {
    i <= |f| && f[i..] == t && a <= |args| && args[a..] == more
  }

  lemma Advance(f: string, i: nat, t: string, rest: string, args: seq<Arg>, a: nat, these: seq<Arg>, more: seq<Arg>,
                j: nat, b: nat)
    requires From(f, i, t + rest, args, a, these + more) && j == i + |t| && b == a + |these|
    ensures From(f, j, rest, args, b, more)
  {
    assert f[i..][|t|..] == rest && args[a..][|these|..] == more;
  }

  lemma StandsBefore(f: string, i: nat, c: Conversion, t: string, args: seq<Arg>, a: nat, more: seq<Arg>, p: Places)
    requires ValidConversion(c) && Ends(At(t, 0)) && At(t, 0) != '%' && p == PlacesOf(i + 1, c, a)
    requires From(f, i, "%" + (Body(c) + t), args, a, Stars(c) + more)
    ensures Standing(f, i, c, At(t, 0), args, a, p) && From(f, p.end, t, args, p.next, more)
  {
    BodyHasNoPercent(c);
    Rest(f, i, Body(c) + t);
    BodyIsLaid(f, i + 1, c, t, args, a, more, p);
    FirstOf(f, i + 1, Body(c), t);
    FirstOf(f, p.end, t, "");
  }

  lemma Rest(f: string, i: nat, t: string)
    requires i <= |f| && f[i..] == "%" + t
    ensures i < |f| && f[i] == '%' && f[i + 1..] == t
  {
    assert f[i] == f[i..][0] && f[i + 1..] == f[i..][1..];
  }

  lemma FirstOf(f: string, i: nat, t: string, u: string)
    requires i <= |f| && f[i..] == t + u
    ensures At(f, i) == if t != "" then t[0] else At(u, 0)
    ensures At(f, i) in t || At(f, i) == At(u, 0)
  {
    if i < |f| { assert f[i] == f[i..][0]; }
  }

  lemma ItemIsPlaced(f: string, i: nat, x: Item, rest: string, args: seq<Arg>, a: nat, more: seq<Arg>)
    requires ValidItem(x) && From(f, i, ItemText(x) + rest, args, a, ItemArgs(x) + more)
    ensures Placed(f, i, x, At(rest, 0), args, a)
  {
    match x
    case Character(c) => assert f[i] == f[i..][0];
    case PercentSign => assert f[i] == f[i..][0] && f[i + 1] == f[i..][1];
    case Converted(c, letter, arg) =>
      ConvertedParts(x, rest, more);
      ConvertedIsPlaced(f, i, x, rest, args, a, more);
  }

  lemma ConvertedParts(x: Item, rest: string, more: seq<Arg>)
    requires ValidItem(x) && x.Converted?
    ensures ItemText(x) + rest == "%" + (Body(x.conversion) + ([x.letter] + rest))
    ensures ItemArgs(x) + more == Stars(x.conversion) + ([x.arg] + more)
  {
  }

  lemma ConvertedIsPlaced(f: string, i: nat, x: Item, rest: string, args: seq<Arg>, a: nat, more: seq<Arg>)
    requires ValidItem(x) && x.Converted?
    requires From(f, i, "%" + (Body(x.conversion) + ([x.letter] + rest)), args, a,
                  Stars(x.conversion) + ([x.arg] + more))
    ensures Placed(f, i, x, At(rest, 0), args, a)
  {
    var p := PlacesOf(i + 1, x.conversion, a);
    StandsBefore(f, i, x.conversion, [x.letter] + rest, args, a, [x.arg] + more, p);
    ArgHere(args, p.next, x.arg, more);
    NextHere(f, p.end, x.letter, rest);
    PlacesCount(i, x, a);
  }

  lemma ArgHere(args: seq<Arg>, b: nat, arg: Arg, more: seq<Arg>)
    requires b <= |args| && args[b..] == [arg] + more
    ensures b < |args| && args[b] == arg
  {
    assert args[b] == args[b..][0];
  }

  lemma NextHere(f: string, j: nat, letter: char, rest: string)
    requires j <= |f| && f[j..] == [letter] + rest
    ensures j < |f| && At(f, j + 1) == At(rest, 0)
  {
    assert At(f, j + 1) == At(f[j..], 1) == At(rest, 0);
  }

  lemma PlacesCount(i: nat, x: Item, a: nat)
    requires ValidItem(x) && x.Converted?
    ensures var p := PlacesOf(i + 1, x.conversion, a); p.end + 1 == NextAt(i, x) && p.next + 1 == NextArg(a, x)
  {
  }

  lemma {:induction false} ItemsArePlaced(f: string, i: nat, xs: seq<Item>, nexts: seq<char>, e: Ending,
                                          args: seq<Arg>, a: nat, more: seq<Arg>)
    requires ValidItems(xs) && ValidEnding(e) && nexts == Nexts(xs, EndText(e))
    requires From(f, i, FormatOf(xs, EndText(e)), args, a, ArgsOf(xs, EndArgs(e) + more))
    ensures AllPlaced(f, i, xs, nexts, e, args, a)
    decreases |xs|
  {
    if xs != [] {
      var x, rest, after := xs[0], FormatOf(xs[1..], EndText(e)), ArgsOf(xs[1..], EndArgs(e) + more);
      Advance(f, i, ItemText(x), rest, args, a, ItemArgs(x), after, NextAt(i, x), NextArg(a, x));
      ItemsArePlaced(f, NextAt(i, x), xs[1..], nexts[1..], e, args, NextArg(a, x), more);
      ItemIsPlaced(f, i, x, rest, args, a, after);
    } else if e.Unknown? {
      StandsBefore(f, i, e.conversion, e.text, args, a, more, PlacesOf(i + 1, e.conversion, a));
    }
  }

  // ---- the script of items that stand in a format

  /** t is the output of x. */
  ghost predicate Printed(x: Item, next: char, t: string)
    requires ValidItem(x)
  {
    forall y :: y == x ==> ItemOutput(y, next) == t
  }

  ghost predicate AllPrinted(xs: seq<Item>, nexts: seq<char>, texts: seq<string>)
    requires ValidItems(xs)
  {
    && |texts| == |nexts| == |xs|
    && (xs != [] ==> Printed(xs[0], nexts[0], texts[0]) && AllPrinted(xs[1..], nexts[1..], texts[1..]))
  }

  function Joined(texts: seq<string>, rest: string): string {
    if texts == [] then rest else texts[0] + Joined(texts[1..], rest)
  }

  lemma ConvertKnown(f: string, i: nat, d: Directive, letter: char, args: seq<Arg>)
    requires i < d.at < |f| && ValidSpec(d.spec) && f[d.at] == letter && Known(letter)
    requires d.arg < |args| && Takes(letter, args[d.arg])
    ensures Convert(f, i, d, args) ==
            Some(Piece(Effect(d.spec, letter, args[d.arg], At(f, d.at + 1)), d.at + 1, d.arg + 1))
  {
  }

  lemma ConvertItem(f: string, i: nat, d: Directive, x: Item, next: char, args: seq<Arg>, p: Piece)
    requires ValidItem(x) && x.Converted? && i < d.at < |f| && d.spec == Meaning(x.conversion) && f[d.at] == x.letter
    requires d.arg < |args| && args[d.arg] == x.arg && At(f, d.at + 1) == next && Printed(x, next, p.text)
    requires p.next == d.at + 1 && p.arg == d.arg + 1
    ensures Convert(f, i, d, args) == Some(p)
  {
    ConvertKnown(f, i, d, x.letter, args);
    assert ItemOutput(x, At(f, d.at + 1)) == p.text;
  }

  lemma ConvertedStep(f: string, i: nat, x: Item, next: char, args: seq<Arg>, a: nat, p: Piece, tail: string)
    requires ValidItem(x) && x.Converted? && Placed(f, i, x, next, args, a)
    requires Printed(x, next, p.text) && p.next == NextAt(i, x) && p.arg == NextArg(a, x)
    requires Writes(f, p.next, args, p.arg, tail)
    ensures Writes(f, i, args, a, p.text + tail)
  {
    var q := PlacesOf(i + 1, x.conversion, a);
    ConvertItem(f, i, DirectiveAt(x.conversion, q), x, next, args, p);
    StandingStep(f, i, x.conversion, x.letter, args, a, q, p, tail);
  }

  lemma StandingStep(f: string, i: nat, c: Conversion, letter: char, args: seq<Arg>, a: nat, p: Places,
                     piece: Piece, tail: string)
    requires Standing(f, i, c, letter, args, a, p) && i < p.end
    requires Convert(f, i, DirectiveAt(c, p), args) == Some(piece) && Writes(f, piece.next, args, piece.arg, tail)
    ensures Writes(f, i, args, a, piece.text + tail)
  {
    PieceOf(f, i, c, letter, args, a, p);
    PieceWrites(f, i, args, a, piece, tail);
  }

  lemma UnknownStep(f: string, i: nat, e: Ending, args: seq<Arg>, a: nat)
    requires ValidEnding(e) && e.Unknown? && EndPlaced(f, i, e, args, a)
    ensures Writes(f, i, args, a, EndText(e))
  {
    var p := PlacesOf(i + 1, e.conversion, a);
    PieceOf(f, i, e.conversion, At(e.text, 0), args, a, p);
    ConvertUnknown(f, i, DirectiveAt(e.conversion, p), args);
    EndWrites(f, args, p.next);
    PieceWrites(f, i, args, a, Piece(f[i..], |f|, p.next), "");
    assert f[i..] + "" == EndText(e);
  }

  lemma EndWrites(f: string, args: seq<Arg>, a: nat)
    ensures Writes(f, |f|, args, a, "")
  {
  }

  /** What an item and what follows it write. */
  lemma ItemStep(f: string, i: nat, x: Item, next: char, args: seq<Arg>, a: nat, text: string, tail: string)
    requires ValidItem(x) && Placed(f, i, x, next, args, a)
    requires Printed(x, next, text) && Writes(f, NextAt(i, x), args, NextArg(a, x), tail)
    ensures Writes(f, i, args, a, text + tail)
  {
    if x.Converted? {
      ConvertedStep(f, i, x, next, args, a, Piece(text, NextAt(i, x), NextArg(a, x)), tail);
    } else {
      assert text == ItemOutput(x, next);
      LiteralStep(f, i, args, a, tail);
    }
  }

  lemma {:induction false} ScriptWrites(f: string, i: nat, xs: seq<Item>, nexts: seq<char>, texts: seq<string>,
                                        e: Ending, args: seq<Arg>, a: nat, t: string)
    requires ValidItems(xs) && ValidEnding(e)
    requires AllPlaced(f, i, xs, nexts, e, args, a) && AllPrinted(xs, nexts, texts) && t == Joined(texts, EndText(e))
    ensures Writes(f, i, args, a, t)
    decreases |xs|
  {
    if xs != [] {
      var tail := Joined(texts[1..], EndText(e));
      assert t == texts[0] + tail;
      ScriptWrites(f, NextAt(i, xs[0]), xs[1..], nexts[1..], texts[1..], e, args, NextArg(a, xs[0]), tail);
      ItemStep(f, i, xs[0], nexts[0], args, a, texts[0], tail);
    } else if e.Unknown? {
      UnknownStep(f, i, e, args, a);
    } else {
      EndWrites(f, args, a);
    }
  }

  lemma {:induction false} OutputIsJoined(xs: seq<Item>, rest: string) returns (texts: seq<string>)
    requires ValidItems(xs)
    ensures AllPrinted(xs, Nexts(xs, rest), texts) && Joined(texts, rest) == Output(xs, rest)
    decreases |xs|
  {
    texts := [];
    if xs != [] {
      var more := OutputIsJoined(xs[1..], rest);
      texts := [ItemOutput(xs[0], At(FormatOf(xs[1..], rest), 0))] + more;
      assert texts[1..] == more && Nexts(xs, rest)[1..] == Nexts(xs[1..], rest);
    }
  }

  /** printf as a whole, for every format: what is written is the output of its items in turn, and
      its length is returned, or if that is more than INT_MAX a part is written and -1 returned. */
  lemma PrintfWrites(xs: seq<Item>, e: Ending, more: seq<Arg>)
    requires ValidItems(xs) && ValidEnding(e)
    ensures var f, args := FormatOf(xs, EndText(e)), ArgsOf(xs, EndArgs(e) + more);
      Prints(Output(xs, EndText(e)), 0, Play(ScriptOf(f, 0, args, 0), 0))
  {
    var f, args := FormatOf(xs, EndText(e)), ArgsOf(xs, EndArgs(e) + more);
    assert f[0..] == f && args[0..] == args;
    ItemsArePlaced(f, 0, xs, Nexts(xs, EndText(e)), e, args, 0, more);
    var texts := OutputIsJoined(xs, EndText(e));
    ScriptWrites(f, 0, xs, Nexts(xs, EndText(e)), texts, e, args, 0, Output(xs, EndText(e)));
    PlayWhole(ScriptOf(f, 0, args, 0), 0);
  }
}

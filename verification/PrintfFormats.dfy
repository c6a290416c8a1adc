/** Formats put together from conversion specifications, characters and %%, as section 7.21.6.1
    of ISO C11 builds them, and what printf makes of them as a whole. */
module PrintfFormats {
  import opened Page
  import opened Numerals
  import opened PrintfSpec
  import opened PrintfStandard

  // ---- conversion specifications

  /** A field width or precision: digits, perhaps none, or * for an int among the arguments. */
  datatype Field = Digits(text: string) | Star(value: int)

  /** A conversion specification up to its conversion character. */
  datatype Conversion = Conversion(flags: string, width: Field, precision: Option<Field>, modifier: string)

  function FieldText(f: Field): string { if f.Star? then "*" else f.text }

  predicate ValidField(f: Field) {
    match f
    case Digits(t) => AllDigits(t) && |t| <= 255 && Decimal(t) <= INT_MAX
    case Star(n) => InInt(n)
  }

  function FieldArgs(f: Field): seq<Arg>
    requires ValidField(f)
  {
    if f.Star? then [Num(Unsigned(f.value))] else []
  }

  function FieldValue(f: Field): int
    requires ValidField(f)
  {
    if f.Star? then f.value else Decimal(f.text)
  }

  const MODIFIERS: set<string> := {"", "hh", "h", "l", "ll", "j", "z", "t", "L"}

  /** A leading 0 of a width would be a flag. */
  predicate ValidConversion(c: Conversion) {
    && (forall k :: 0 <= k < |c.flags| ==> IsFlag(c.flags[k]))
    && ValidField(c.width) && (c.width.Digits? && c.width.text != "" ==> c.width.text[0] != '0')
    && (c.precision.Some? ==> ValidField(c.precision.value))
    && c.modifier in MODIFIERS
  }

  /** A character that ends a conversion specification. */
  predicate Ends(c: char) { !IsFlag(c) && !IsDigit(c) && c !in {'*', '.', 'h', 'l', 'j', 'z', 't', 'L'} }

  function PrecisionText(p: Option<Field>): string { if p.Some? then "." + FieldText(p.value) else "" }

  /** The specification as it follows the % in the format. */
  function Body(c: Conversion): string {
    c.flags + (FieldText(c.width) + (PrecisionText(c.precision) + c.modifier))
  }

  function Stars(c: Conversion): seq<Arg>
    requires ValidConversion(c)
  {
    FieldArgs(c.width) + if c.precision.Some? then FieldArgs(c.precision.value) else []
  }

  /** What the specification stands for. */
  function Meaning(c: Conversion): (s: Spec)
    requires ValidConversion(c)
    ensures ValidSpec(s)
  {
    Spec(Flags('-' in c.flags, '+' in c.flags, ' ' in c.flags, '#' in c.flags, '0' in c.flags),
         FieldValue(c.width), if c.precision.Some? then FieldValue(c.precision.value) else -1)
  }

  // ---- where the parts of a specification stand in a format

  /** The places behind the flags, the width, the precision and the modifier, and the arguments
      behind those of the width and of the precision. */
  datatype Places = Places(width: nat, precision: nat, modifier: nat, end: nat, arg: nat, next: nat)

  /** The places in a specification that begins at place i, with its arguments from a on. */
  function PlacesOf(i: nat, c: Conversion, a: nat): Places
    requires ValidConversion(c)
  {
    var j := i + |c.flags|;
    var k := j + |FieldText(c.width)|;
    var l := k + |PrecisionText(c.precision)|;
    var b := a + |FieldArgs(c.width)|;
    Places(j, k, l, l + |c.modifier|, b, if c.precision.Some? then b + |FieldArgs(c.precision.value)| else b)
  }

  /** The text t stands in f from place i to place j. */
  predicate Stands(f: string, i: nat, j: nat, t: string) { i <= j <= |f| && f[i..j] == t }

  /** The arguments from a to b are those of a width or precision. */
  predicate Passed(args: seq<Arg>, a: nat, b: nat, w: Field)
    requires ValidField(w)
  {
    if w.Star? then a < |args| && args[a] == Num(Unsigned(w.value)) && b == a + 1 else b == a
  }

  predicate Laid(f: string, i: nat, c: Conversion, args: seq<Arg>, a: nat, p: Places)
    requires ValidConversion(c)
  {
    && Stands(f, i, p.width, c.flags) && Stands(f, p.width, p.precision, FieldText(c.width))
    && Stands(f, p.precision, p.modifier, PrecisionText(c.precision)) && Stands(f, p.modifier, p.end, c.modifier)
    && Ends(At(f, p.end))
    && Passed(args, a, p.arg, c.width)
    && (if c.precision.Some? then Passed(args, p.arg, p.next, c.precision.value) else p.next == p.arg)
  }

  lemma StandsNext(f: string, i: nat, t: string, rest: string, j: nat)
    requires i <= |f| && f[i..] == t + rest && j == i + |t|
    ensures Stands(f, i, j, t) && f[j..] == rest
  {
    assert f[i..j] == f[i..][..|t|] && f[j..] == f[i..][|t|..];
  }

  lemma PassedNext(args: seq<Arg>, a: nat, w: Field, rest: seq<Arg>, b: nat)
    requires ValidField(w) && a <= |args| && args[a..] == FieldArgs(w) + rest && b == a + |FieldArgs(w)|
    ensures Passed(args, a, b, w) && b <= |args| && args[b..] == rest
  {
    if w.Star? { assert args[a] == args[a..][0] && args[b..] == args[a..][1..]; }
  }

  lemma BodyInParts(c: Conversion, rest: string)
    ensures Body(c) + rest ==
            c.flags + (FieldText(c.width) + (PrecisionText(c.precision) + (c.modifier + rest)))
  {
  }

  lemma PartsStand(f: string, i: nat, c: Conversion, rest: string, p: Places)
    requires ValidConversion(c) && i <= |f|
    requires f[i..] == c.flags + (FieldText(c.width) + (PrecisionText(c.precision) + (c.modifier + rest)))
    requires p.width == i + |c.flags| && p.precision == p.width + |FieldText(c.width)|
    requires p.modifier == p.precision + |PrecisionText(c.precision)| && p.end == p.modifier + |c.modifier|
    ensures Stands(f, i, p.width, c.flags) && Stands(f, p.width, p.precision, FieldText(c.width))
    ensures Stands(f, p.precision, p.modifier, PrecisionText(c.precision)) && Stands(f, p.modifier, p.end, c.modifier)
    ensures p.end <= |f| && f[p.end..] == rest
  {
    var u := c.modifier + rest;
    var v := PrecisionText(c.precision) + u;
    StandsNext(f, i, c.flags, FieldText(c.width) + v, p.width);
    StandsNext(f, p.width, FieldText(c.width), v, p.precision);
    StandsNext(f, p.precision, PrecisionText(c.precision), u, p.modifier);
    StandsNext(f, p.modifier, c.modifier, rest, p.end);
  }

  lemma StarsPassed(args: seq<Arg>, a: nat, c: Conversion, rest: seq<Arg>, p: Places)
    requires ValidConversion(c) && a <= |args| && args[a..] == Stars(c) + rest && p.arg == a + |FieldArgs(c.width)|
    requires p.next == if c.precision.Some? then p.arg + |FieldArgs(c.precision.value)| else p.arg
    ensures Passed(args, a, p.arg, c.width) && p.next <= |args| && args[p.next..] == rest
    ensures if c.precision.Some? then Passed(args, p.arg, p.next, c.precision.value) else p.next == p.arg
  {
    var more := (if c.precision.Some? then FieldArgs(c.precision.value) else []) + rest;
    assert Stars(c) + rest == FieldArgs(c.width) + more;
    PassedNext(args, a, c.width, more, p.arg);
    if c.precision.Some? { PassedNext(args, p.arg, c.precision.value, rest, p.next); }
  }

  /** A specification in the text of a format has its parts at those places. */
  lemma BodyIsLaid(f: string, i: nat, c: Conversion, t: string, args: seq<Arg>, a: nat, more: seq<Arg>, p: Places)
    requires ValidConversion(c) && i <= |f| && f[i..] == Body(c) + t && Ends(At(t, 0)) && p == PlacesOf(i, c, a)
    requires a <= |args| && args[a..] == Stars(c) + more
    ensures Laid(f, i, c, args, a, p)
    ensures p.end <= |f| && f[p.end..] == t && p.next <= |args| && args[p.next..] == more
  {
    BodyInParts(c, t);
    PartsStand(f, i, c, t, p);
    StarsPassed(args, a, c, more, p);
    assert t != "" ==> f[p.end] == f[p.end..][0];
  }

  // ---- reading them

  lemma StandsFirst(f: string, i: nat, j: nat, t: string)
    requires Stands(f, i, j, t) && t != ""
    ensures i < |f| && At(f, i) == t[0]
  {
    assert f[i] == f[i..j][0];
  }

  /** The flags b with those of the characters of t. */
  function AllFlags(b: Flags, t: string): Flags {
    Flags(b.left || '-' in t, b.plus || '+' in t, b.space || ' ' in t, b.alt || '#' in t, b.zero || '0' in t)
  }

  lemma FirstFlag(b: Flags, t: string)
    requires t != "" && IsFlag(t[0])
    ensures AllFlags(AddFlag(b, t[0]), t[1..]) == AllFlags(b, t)
  {
    assert t == [t[0]] + t[1..];
  }

  lemma {:induction false} ReadsFlags(f: string, i: nat, j: nat, t: string, b: Flags)
    requires Stands(f, i, j, t) && (forall k :: 0 <= k < |t| ==> IsFlag(t[k])) && !IsFlag(At(f, j))
    ensures ReadFlags(f, i, b) == (AllFlags(b, t), j)
    decreases |t|
  {
    if t != "" {
      StandsFirst(f, i, j, t);
      assert f[i + 1..j] == t[1..];
      ReadsFlags(f, i + 1, j, t[1..], AddFlag(b, t[0]));
      FirstFlag(b, t);
    }
  }

  lemma {:induction false} ReadsDigits(f: string, i: nat, j: nat, t: string)
    requires Stands(f, i, j, t) && AllDigits(t) && !IsDigit(At(f, j))
    ensures DigitsEnd(f, i) == j
    decreases |t|
  {
    if t != "" {
      StandsFirst(f, i, j, t);
      assert f[i + 1..j] == t[1..];
      ReadsDigits(f, i + 1, j, t[1..]);
    }
  }

  lemma ReadsField(f: string, i: nat, j: nat, w: Field, args: seq<Arg>, a: nat, b: nat)
    requires ValidField(w) && Stands(f, i, j, FieldText(w)) && Passed(args, a, b, w)
    requires !IsDigit(At(f, j)) && At(f, j) != '*'
    ensures ReadInt(f, i, args, a) == Some(IntAt(FieldValue(w), j, b))
  {
    if w.Star? {
      StandsFirst(f, i, j, "*");
    } else {
      ReadsDigits(f, i, j, w.text);
      if w.text != "" { StandsFirst(f, i, j, w.text); }
    }
  }

  lemma ReadsPrecision(f: string, i: nat, j: nat, w: Field, args: seq<Arg>, a: nat, b: nat)
    requires ValidField(w) && Stands(f, i, j, PrecisionText(Some(w))) && Passed(args, a, b, w)
    requires !IsDigit(At(f, j)) && At(f, j) != '*'
    ensures i < |f| && At(f, i) == '.' && ReadInt(f, i + 1, args, a) == Some(IntAt(FieldValue(w), j, b))
  {
    StandsFirst(f, i, j, PrecisionText(Some(w)));
    assert f[i + 1..j] == f[i..j][1..] == FieldText(w);
    ReadsField(f, i + 1, j, w, args, a, b);
  }

  lemma ReadsModifier(f: string, i: nat, j: nat, m: string)
    requires m in MODIFIERS && Stands(f, i, j, m) && Ends(At(f, j))
    ensures SkipLength(f, i) == j
  {
    var h, l := if m == "hh" then 2 else if m == "h" then 1 else 0, if m == "ll" then 2 else if m == "l" then 1 else 0;
    assert forall k :: i <= k < j ==> f[k] == m[k - i];
    SkipsRun(f, i, h, 'h');
    SkipsRun(f, i + h, l, 'l');
  }

  lemma {:induction false} SkipsRun(f: string, i: nat, n: nat, c: char)
    requires i + n <= |f| && (forall k :: i <= k < i + n ==> f[k] == c) && At(f, i + n) != c
    ensures SkipAll(f, i, c) == i + n
    decreases n
  {
    if n > 0 { SkipsRun(f, i + 1, n - 1, c); }
  }

  // each part ends where the next one begins

  predicate Fresh(c: char) { !IsDigit(c) && c != '*' }

  lemma AfterPrecision(f: string, i: nat, j: nat, m: string)
    requires m in MODIFIERS && Stands(f, i, j, m) && Ends(At(f, j))
    ensures Fresh(At(f, i)) && !IsFlag(At(f, i)) && At(f, i) != '.'
  {
    if m != "" { StandsFirst(f, i, j, m); }
  }

  lemma AfterWidth(f: string, i: nat, j: nat, w: Option<Field>)
    requires Stands(f, i, j, PrecisionText(w)) && Fresh(At(f, j)) && !IsFlag(At(f, j)) && At(f, j) != '.'
    ensures Fresh(At(f, i)) && !IsFlag(At(f, i)) && (At(f, i) == '.' <==> w.Some?)
  {
    if w.Some? { StandsFirst(f, i, j, PrecisionText(w)); }
  }

  lemma AfterFlags(f: string, i: nat, j: nat, w: Field)
    requires ValidField(w) && (w.Digits? && w.text != "" ==> w.text[0] != '0')
    requires Stands(f, i, j, FieldText(w)) && !IsFlag(At(f, j))
    ensures !IsFlag(At(f, i))
  {
    if FieldText(w) != "" { StandsFirst(f, i, j, FieldText(w)); }
  }

  lemma PartsEnd(f: string, i: nat, c: Conversion, args: seq<Arg>, a: nat, p: Places)
    requires ValidConversion(c) && Laid(f, i, c, args, a, p)
    ensures !IsFlag(At(f, p.width)) && Fresh(At(f, p.precision)) && Fresh(At(f, p.modifier))
    ensures At(f, p.precision) == '.' <==> c.precision.Some?
  {
    AfterPrecision(f, p.modifier, p.end, c.modifier);
    AfterWidth(f, p.precision, p.modifier, c.precision);
    AfterFlags(f, p.width, p.precision, c.width);
  }

  lemma ReadsParts(f: string, i: nat, args: seq<Arg>, a: nat, s: Spec, p: Places)
    requires i <= p.width <= p.precision <= p.modifier <= |f| && ReadFlags(f, i, NO_FLAGS) == (s.flags, p.width)
    requires ReadInt(f, p.width, args, a) == Some(IntAt(s.width, p.precision, p.arg))
    requires SkipLength(f, p.modifier) == p.end
    requires if At(f, p.precision) == '.' then
               p.precision < |f| &&
               ReadInt(f, p.precision + 1, args, p.arg) == Some(IntAt(s.precision, p.modifier, p.next))
             else s.precision == -1 && p.modifier == p.precision && p.next == p.arg
    ensures ReadDirective(f, i, args, a) == Some(Directive(s, p.end, p.next))
  {
  }

  lemma PartsAreRead(f: string, i: nat, c: Conversion, args: seq<Arg>, a: nat, p: Places)
    requires ValidConversion(c) && Laid(f, i, c, args, a, p)
    ensures i <= p.width <= p.precision <= p.modifier <= p.end <= |f|
    ensures ReadFlags(f, i, NO_FLAGS) == (Meaning(c).flags, p.width)
    ensures ReadInt(f, p.width, args, a) == Some(IntAt(Meaning(c).width, p.precision, p.arg))
    ensures SkipLength(f, p.modifier) == p.end
  {
    PartsEnd(f, i, c, args, a, p);
    ReadsFlags(f, i, p.width, c.flags, NO_FLAGS);
    ReadsField(f, p.width, p.precision, c.width, args, a, p.arg);
    ReadsModifier(f, p.modifier, p.end, c.modifier);
  }

  lemma PrecisionIsRead(f: string, i: nat, c: Conversion, args: seq<Arg>, a: nat, p: Places)
    requires ValidConversion(c) && Laid(f, i, c, args, a, p)
    ensures if At(f, p.precision) == '.' then
              p.precision < |f| &&
              ReadInt(f, p.precision + 1, args, p.arg) == Some(IntAt(Meaning(c).precision, p.modifier, p.next))
            else Meaning(c).precision == -1 && p.modifier == p.precision && p.next == p.arg
  {
    PartsEnd(f, i, c, args, a, p);
    if c.precision.Some? {
      assert c.precision == Some(c.precision.value) && Meaning(c).precision == FieldValue(c.precision.value);
      ReadsPrecision(f, p.precision, p.modifier, c.precision.value, args, p.arg, p.next);
    } else {
      assert |f[p.precision..p.modifier]| == 0;
    }
  }

  /** Reading a conversion specification gives back what it stands for. */
  lemma ReadsBack(f: string, i: nat, c: Conversion, args: seq<Arg>, a: nat, p: Places)
    requires ValidConversion(c) && Laid(f, i, c, args, a, p)
    ensures ReadDirective(f, i, args, a) == Some(Directive(Meaning(c), p.end, p.next))
  {
    PartsAreRead(f, i, c, args, a, p);
    PrecisionIsRead(f, i, c, args, a, p);
    ReadsParts(f, i, args, a, Meaning(c), p);
  }
}

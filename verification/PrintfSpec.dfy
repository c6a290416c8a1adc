/** What printf (libc/stdio/printf.c) writes for a format and its arguments, and what it
    returns. Section numbers of the C standard are those of ISO C11. */
module PrintfSpec {
  import opened Page
  import opened Numerals

  /** A C string without its terminator. */
  type CString = s: string | forall i :: 0 <= i < |s| ==> s[i] != '\0'

  /** The character at place i, the terminator at the end. */
  function At(f: string, i: nat): char { if i < |f| then f[i] else '\0' }

  datatype Arg = Num(bits: uint32) | Str(s: CString)

  /** The int with these 32 bits. */
  function Signed(bits: uint32): int { if bits <= INT_MAX then bits else bits - LIMIT }

  /** The unsigned int with the bits of an int. */
  function Unsigned(n: int): uint32
    requires -0x8000_0000 <= n <= INT_MAX
  {
    if n >= 0 then n else n + LIMIT
  }

  datatype Flags = Flags(left: bool, plus: bool, space: bool, alt: bool, zero: bool)

  /** The flags, field width and precision of a conversion; precision -1 if there is none. */
  datatype Spec = Spec(flags: Flags, width: int, precision: int)

  predicate InInt(n: int) { -0x8000_0000 <= n <= INT_MAX }

  predicate ValidSpec(s: Spec) { InInt(s.width) && InInt(s.precision) }

  function Repeat(c: char, n: nat): (s: string)
    ensures |s| == n && forall i :: 0 <= i < n ==> s[i] == c
  {
    seq(n, i => c)
  }

  function Max(a: int, b: int): int { if a >= b then a else b }

  // ---- %c

  function CharText(s: Spec, bits: uint32): (t: string)
    ensures |t| == Max(s.width, 1)
    ensures forall i :: 0 <= i < |t| ==>
              t[i] == if i == (if s.flags.left then 0 else |t| - 1) then (bits % 0x100) as char else ' '
  {
    var c, blanks := (bits % 0x100) as char, Repeat(' ', Max(s.width, 1) - 1);
    if s.flags.left then [c] + blanks else blanks + [c]
  }

  // ---- %s

  /** Width and number of characters after the adjustments for a string of length len. */
  function StringExtent(s: Spec, len: nat): (e: (nat, nat))
    requires ValidSpec(s)
    ensures e.1 <= e.0 && e.1 <= len
  {
    var width := Max(Unsigned(s.width), len);
    if 0 <= s.precision < len then (s.precision, s.precision)
    else if 0 <= s.precision < width && 0 <= s.width then (s.precision, len)
    else (width, len)
  }

  function StringText(s: Spec, str: string): (t: string)
    requires ValidSpec(s)
    ensures |t| == StringExtent(s, |str|).0
  {
    var (width, len) := StringExtent(s, |str|);
    if s.flags.left then str[..len] + Repeat(' ', width - len) else Repeat(' ', width - len) + str[..len]
  }

  // ---- %o, %u, %x, %X

  function UnsignedDigits(precision: int, num: uint32, base: nat, letter: char): string
    requires PrintfBase(base) && letter in {'a', 'A'}
  {
    if num == 0 && precision == 0 then "" else Numeral(num, base, letter)
  }

  /** The digits behind zeros to the precision. */
  function UnsignedTail(precision: int, num: uint32, base: nat, letter: char): string
    requires PrintfBase(base) && letter in {'a', 'A'}
  {
    var digits := UnsignedDigits(precision, num, base, letter);
    Repeat('0', Max(precision - |digits|, 0)) + digits
  }

  function SignOf(f: Flags): string { if f.plus then "+" else if f.space then " " else "" }

  /** The number of characters apart from padding to the width. */
  function NumberLength(s: Spec, digits: nat): nat {
    Max(digits, s.precision) + |SignOf(s.flags)| + if s.flags.alt then 2 else 0
  }

  /** Padding to the width: blanks in front, zeros behind the sign, or blanks behind. */
  function Padded(f: Flags, fill: nat, head: string, tail: string): (t: string)
    ensures |t| == fill + |head| + |tail|
  {
    if f.left then head + tail + Repeat(' ', fill)
    else if f.zero then head + Repeat('0', fill) + tail
    else Repeat(' ', fill) + head + tail
  }

  /** The sign and the prefix of the # flag; mark is the character printed after the 0. */
  function UnsignedHead(f: Flags, mark: char): string { SignOf(f) + if f.alt then ['0', mark] else "" }

  function UnsignedText(s: Spec, num: uint32, base: nat, letter: char, mark: char): (t: string)
    requires ValidSpec(s) && PrintfBase(base) && letter in {'a', 'A'}
    ensures |t| == Max(Unsigned(s.width), NumberLength(s, |UnsignedDigits(s.precision, num, base, letter)|))
  {
    var digits := UnsignedDigits(s.precision, num, base, letter);
    var length := NumberLength(s, |digits|);
    Padded(s.flags, Max(Unsigned(s.width) - length, 0),
           UnsignedHead(s.flags, mark),
           UnsignedTail(s.precision, num, base, letter))
  }

  // ---- %d, %i

  function SignedSign(f: Flags, bits: uint32): string { if Signed(bits) < 0 then "-" else SignOf(f) }

  /** The digits are those of the unsigned value, also for a negative number. */
  function SignedText(s: Spec, bits: uint32): (t: string)
    requires ValidSpec(s)
    ensures |t| == Max(Unsigned(s.width), |Numeral(bits, 10, 'a')| + |SignedSign(s.flags, bits)|)
  {
    var digits, sign := Numeral(bits, 10, 'a'), SignedSign(s.flags, bits);
    Padded(s.flags, Max(Unsigned(s.width) - |digits| - |sign|, 0), sign, digits)
  }

  // ---- reading a conversion

  predicate IsFlag(c: char) { c in {'-', '+', ' ', '#', '0'} }

  function AddFlag(f: Flags, c: char): Flags {
    if c == '-' then f.(left := true)
    else if c == '+' then f.(plus := true)
    else if c == ' ' then f.(space := true)
    else if c == '#' then f.(alt := true)
    else f.(zero := true)
  }

  const NO_FLAGS: Flags := Flags(false, false, false, false, false)

  function ReadFlags(f: string, i: nat, flags: Flags): (Flags, nat)
    decreases |f| - i
  {
    if i < |f| && IsFlag(f[i]) then ReadFlags(f, i + 1, AddFlag(flags, f[i])) else (flags, i)
  }

  predicate IsDigit(c: char) { '0' <= c <= '9' }

  function DigitsEnd(f: string, i: nat): (j: nat)
    requires i <= |f|
    ensures i <= j <= |f| && AllDigits(f[i..j]) && (j < |f| ==> !IsDigit(f[j]))
    decreases |f| - i
  {
    if i < |f| && IsDigit(f[i]) then DigitsEnd(f, i + 1) else i
  }

  /** An int from the format or, for *, from the next argument: its value, the place behind it
      and the next argument. None where C leaves the behaviour undefined: a missing or mistyped
      argument, a value that is no int, or a run of more than 255 digits (the reader's counter
      then never reaches its bound). */
  datatype IntAt = IntAt(value: int, next: nat, arg: nat)

  function ReadInt(f: string, i: nat, args: seq<Arg>, a: nat): Option<IntAt>
    requires i <= |f|
  {
    if At(f, i) == '*' then
      if a < |args| && args[a].Num? then Some(IntAt(Signed(args[a].bits), i + 1, a + 1)) else None
    else
      var j := DigitsEnd(f, i);
      if j - i <= 255 && Decimal(f[i..j]) <= INT_MAX then Some(IntAt(Decimal(f[i..j]), j, a)) else None
  }

  /** Length modifiers are skipped. */
  function SkipAll(f: string, i: nat, c: char): (j: nat)
    requires i <= |f|
    ensures i <= j <= |f|
    decreases |f| - i
  {
    if i < |f| && f[i] == c then SkipAll(f, i + 1, c) else i
  }

  function SkipLength(f: string, i: nat): (j: nat)
    requires i <= |f|
    ensures i <= j <= |f|
  {
    var k := SkipAll(f, SkipAll(f, i, 'h'), 'l');
    if At(f, k) in {'j', 'z', 't', 'L'} then k + 1 else k
  }

  /** A conversion specification read from behind the % up to its conversion character. */
  datatype Directive = Directive(spec: Spec, at: nat, arg: nat)

  function ReadDirective(f: string, i: nat, args: seq<Arg>, a: nat): (d: Option<Directive>)
    requires i <= |f|
    ensures d.Some? ==> i <= d.value.at <= |f|
  {
    var (flags, j) := ReadFlags(f, i, NO_FLAGS);
    FlagsEnd(f, i, NO_FLAGS);
    match ReadInt(f, j, args, a)
    case None => None
    case Some(width) =>
      if At(f, width.next) == '.' then
        match ReadInt(f, width.next + 1, args, width.arg)
        case None => None
        case Some(precision) =>
          Some(Directive(Spec(flags, width.value, precision.value), SkipLength(f, precision.next), precision.arg))
      else Some(Directive(Spec(flags, width.value, -1), SkipLength(f, width.next), width.arg))
  }

  lemma {:induction false} FlagsEnd(f: string, i: nat, flags: Flags)
    requires i <= |f|
    ensures i <= ReadFlags(f, i, flags).1 <= |f|
    decreases |f| - i
  {
    if i < |f| && IsFlag(f[i]) { FlagsEnd(f, i + 1, AddFlag(flags, f[i])); }
  }

  // ---- the whole format

  /** One step of the main loop: the text of a literal stretch or of a conversion, where it ends
      in the format and the next argument. */
  datatype Piece = Piece(text: string, next: nat, arg: nat)

  /** The place of the next % from i on, or the end. */
  function LiteralEnd(f: string, i: nat): (j: nat)
    requires i <= |f|
    ensures i <= j <= |f| && '%' !in f[i..j] && (j < |f| ==> f[j] == '%')
    decreases |f| - i
  {
    if i < |f| && f[i] != '%' then LiteralEnd(f, i + 1) else i
  }

  predicate IsUnsigned(c: char) { c in {'o', 'x', 'X', 'u'} }

  function BaseOf(c: char): nat { if c == 'o' then 8 else if c == 'u' then 10 else 16 }

  function LetterOf(c: char): char { if c == 'X' then 'A' else 'a' }

  /** After %o and %u the format has already moved on when # prints its character. */
  function MarkOf(f: string, at: nat): char {
    if At(f, at) in {'x', 'X'} then At(f, at) else At(f, at + 1)
  }

  /** The conversion d; start is the place of its %. */
  function Convert(f: string, start: nat, d: Directive, args: seq<Arg>): (p: Option<Piece>)
    requires start < d.at <= |f| && ValidSpec(d.spec)
    ensures p.Some? ==> start < p.value.next <= |f|
  {
    var c := At(f, d.at);
    if !IsUnsigned(c) && c !in {'c', 's', 'd', 'i'} then Some(Piece(f[start..], |f|, d.arg))
    else if d.arg >= |args| || args[d.arg].Str? != (c == 's') then None
    else
      var text :=
        if c == 's' then StringText(d.spec, args[d.arg].s)
        else if c == 'c' then CharText(d.spec, args[d.arg].bits)
        else if IsUnsigned(c) then UnsignedText(d.spec, args[d.arg].bits, BaseOf(c), LetterOf(c), MarkOf(f, d.at))
        else SignedText(d.spec, args[d.arg].bits);
      Some(Piece(text, d.at + 1, d.arg + 1))
  }

  predicate IsLiteral(f: string, i: nat)
    requires i < |f|
  {
    f[i] != '%' || At(f, i + 1) == '%'
  }

  /** %% stands for one %. */
  function LiteralStart(f: string, i: nat): (from: nat)
    requires i < |f| && IsLiteral(f, i)
    ensures i <= from < |f|
  {
    if f[i] == '%' then i + 1 else i
  }

  function NextPiece(f: string, i: nat, args: seq<Arg>, a: nat): (p: Option<Piece>)
    requires i < |f|
    ensures p.Some? ==> i < p.value.next <= |f|
  {
    if IsLiteral(f, i) then
      var from := LiteralStart(f, i);
      var to := LiteralEnd(f, from + 1);
      Some(Piece(f[from..to], to, a))
    else
      match ReadDirective(f, i + 1, args, a)
      case None => None
      case Some(d) =>
        assert ValidSpec(d.spec);
        Convert(f, i, d, args)
  }

  lemma LiteralPiece(f: string, i: nat, args: seq<Arg>, a: nat)
    requires i < |f| && IsLiteral(f, i)
    ensures var from := LiteralStart(f, i);
      NextPiece(f, i, args, a) == Some(Piece(f[from..LiteralEnd(f, from + 1)], LiteralEnd(f, from + 1), a))
  {
  }

  lemma ConversionPiece(f: string, i: nat, args: seq<Arg>, a: nat)
    requires i < |f| && !IsLiteral(f, i)
    ensures var d := ReadDirective(f, i + 1, args, a);
      && (d.Some? ==> ValidSpec(d.value.spec))
      && NextPiece(f, i, args, a) == if d.None? then None else Convert(f, i, d.value, args)
  {
  }

  datatype Result = Returned(n: int) | Undefined

  /** The texts of a format in turn; Stuck where the behaviour is undefined from there on. */
  datatype Script = End | Stuck | Text(text: string, rest: Script)

  function ScriptOf(f: string, i: nat, args: seq<Arg>, a: nat): Script
    requires i <= |f|
    decreases |f| - i
  {
    if i == |f| then End
    else
      match NextPiece(f, i, args, a)
      case None => Stuck
      case Some(p) => Text(p.text, ScriptOf(f, p.next, args, p.arg))
  }

  /** What is written of a script and what printf returns, when `written` characters are out: -1
      at the first text there is no room for. A result that is not negative is the number of
      characters written, and an int. */
  function Play(s: Script, written: nat): (res: (string, Result))
    requires written <= INT_MAX
    ensures res.1.Returned? ==> res.1.n == -1 || (res.1.n == written + |res.0| && res.1.n <= INT_MAX)
  {
    match s
    case End => ("", Returned(written))
    case Stuck => ("", Undefined)
    case Text(text, rest) =>
      if INT_MAX - written < |text| then ("", Returned(-1))
      else
        var (more, r) := Play(rest, written + |text|);
        (text + more, r)
  }

  // ---- properties

  const PLAIN: Spec := Spec(NO_FLAGS, 0, -1)

  /** %u, %o and %x without flags, width and precision print the canonical numeral. */
  lemma PlainUnsigned(num: uint32, base: nat, letter: char, mark: char)
    requires PrintfBase(base) && letter in {'a', 'A'}
    ensures UnsignedText(PLAIN, num, base, letter, mark) == Numeral(num, base, letter)
    ensures Value(UnsignedText(PLAIN, num, base, letter, mark), base, letter) == num
  {
    NumeralIsCanonical(num, base, letter);
    assert Padded(NO_FLAGS, 0, "" + "", Repeat('0', 0) + Numeral(num, base, letter)) == Numeral(num, base, letter);
  }

  /** parseInt reads back every int that %u prints. */
  lemma ParseReadsPlainUnsigned(num: uint32, mark: char)
    requires num <= INT_MAX
    ensures var t := UnsignedText(PLAIN, num, 10, 'a', mark); AllDigits(t) && |t| <= 255 && Decimal(t) == num
  {
    PlainUnsigned(num, 10, 'a', mark);
    ParseReadsNumeral(num);
  }

  /** Behind sign and prefix, whatever the flags, the numeral is filled with zeros to the precision
      and keeps its value; with precision 0 nothing is written for 0. */
  lemma PrecisionFills(s: Spec, num: uint32, base: nat, letter: char, mark: char)
    requires ValidSpec(s) && PrintfBase(base) && letter in {'a', 'A'} && s.width == 0
    ensures var t, head := UnsignedText(s, num, base, letter, mark), |UnsignedHead(s.flags, mark)|;
      && head <= |t| && t[..head] == UnsignedHead(s.flags, mark)
      && |t[head..]| == Max(s.precision, if s.precision == 0 && num == 0 then 0 else |Numeral(num, base, letter)|)
      && Value(t[head..], base, letter) == num
  {
    var head, tail := UnsignedHead(s.flags, mark), UnsignedTail(s.precision, num, base, letter);
    assert s.(width := 0) == s;
    UnsignedCore(s, num, base, letter, mark);
    Parts(UnsignedText(s, num, base, letter, mark), head, tail);
    TailValue(s.precision, num, base, letter);
  }

  lemma TailValue(precision: int, num: uint32, base: nat, letter: char)
    requires PrintfBase(base) && letter in {'a', 'A'}
    ensures var tail := UnsignedTail(precision, num, base, letter);
      && |tail| == Max(precision, if precision == 0 && num == 0 then 0 else |Numeral(num, base, letter)|)
      && Value(tail, base, letter) == num
  {
    var digits := UnsignedDigits(precision, num, base, letter);
    if precision == 0 && num == 0 {
      assert UnsignedTail(precision, num, base, letter) == "";
    } else {
      FilledValue(Max(precision - |digits|, 0), num, base, letter);
    }
  }

  lemma FilledValue(zeros: nat, num: nat, base: nat, letter: char)
    requires 2 <= base <= 16 && letter in {'a', 'A'}
    ensures Value(Repeat('0', zeros) + Numeral(num, base, letter), base, letter) == num
  {
    NumeralIsCanonical(num, base, letter);
    LeadingZeros(zeros, Numeral(num, base, letter), base, letter);
  }

  lemma {:induction false} LeadingZeros(n: nat, digits: string, base: nat, letter: char)
    ensures Value(Repeat('0', n) + digits, base, letter) == Value(digits, base, letter)
    decreases n + |digits|
  {
    var s := Repeat('0', n) + digits;
    if digits != [] {
      LeadingZeros(n, digits[..|digits| - 1], base, letter);
      assert s[..|s| - 1] == Repeat('0', n) + digits[..|digits| - 1];
    } else if n > 0 {
      LeadingZeros(n - 1, [], base, letter);
      assert s[..|s| - 1] == Repeat('0', n - 1) + [];
      assert Value([], base, letter) == 0;
    } else {
      assert s == digits;
    }
  }

  /** A field width only adds padding to what the conversion writes without one: blanks behind it
      with the - flag, else zeros between sign and digits with the 0 flag, else blanks in front. */
  ghost predicate WidthPads(f: Flags, text: string, sign: string, digits: string, width: nat) {
    var n := Max(width - |sign| - |digits|, 0);
    if f.left then text == (sign + digits) + Repeat(' ', n)
    else if f.zero then text == sign + (Repeat('0', n) + digits)
    else text == Repeat(' ', n) + (sign + digits)
  }

  lemma UnsignedWidthPads(s: Spec, num: uint32, base: nat, letter: char, mark: char)
    requires ValidSpec(s) && PrintfBase(base) && letter in {'a', 'A'} && 0 <= s.width
    ensures var core := UnsignedText(s.(width := 0), num, base, letter, mark);
      var head := |UnsignedHead(s.flags, mark)|;
      head <= |core| &&
      WidthPads(s.flags, UnsignedText(s, num, base, letter, mark), core[..head], core[head..], s.width)
  {
    var head, tail := UnsignedHead(s.flags, mark), UnsignedTail(s.precision, num, base, letter);
    UnsignedIsPadded(s, num, base, letter, mark);
    UnsignedCore(s, num, base, letter, mark);
    PaddedIsWidthPads(s.flags, head, tail, s.width);
    Parts(UnsignedText(s.(width := 0), num, base, letter, mark), head, tail);
  }

  lemma UnsignedIsPadded(s: Spec, num: uint32, base: nat, letter: char, mark: char)
    requires ValidSpec(s) && PrintfBase(base) && letter in {'a', 'A'} && 0 <= s.width
    ensures var head, tail := UnsignedHead(s.flags, mark), UnsignedTail(s.precision, num, base, letter);
      UnsignedText(s, num, base, letter, mark) == Padded(s.flags, Max(s.width - |head| - |tail|, 0), head, tail)
  {
    var digits := UnsignedDigits(s.precision, num, base, letter);
    var head, tail := UnsignedHead(s.flags, mark), UnsignedTail(s.precision, num, base, letter);
    assert Max(Unsigned(s.width) - NumberLength(s, |digits|), 0) == Max(s.width - |head| - |tail|, 0);
  }

  lemma UnsignedCore(s: Spec, num: uint32, base: nat, letter: char, mark: char)
    requires ValidSpec(s) && PrintfBase(base) && letter in {'a', 'A'} && 0 <= s.width
    ensures UnsignedText(s.(width := 0), num, base, letter, mark) ==
            UnsignedHead(s.flags, mark) + UnsignedTail(s.precision, num, base, letter)
  {
    UnsignedIsPadded(s.(width := 0), num, base, letter, mark);
    UnpaddedParts(s.flags, UnsignedHead(s.flags, mark), UnsignedTail(s.precision, num, base, letter));
  }

  lemma Parts(t: string, head: string, tail: string)
    requires t == head + tail
    ensures |head| <= |t| && t[..|head|] == head && t[|head|..] == tail
  {
  }

  lemma SignedWidthPads(s: Spec, bits: uint32)
    requires ValidSpec(s) && 0 <= s.width
    ensures var core := SignedText(s.(width := 0), bits);
      var head := |SignedSign(s.flags, bits)|;
      head <= |core| && WidthPads(s.flags, SignedText(s, bits), core[..head], core[head..], s.width)
  {
    UnpaddedParts(s.flags, SignedSign(s.flags, bits), Numeral(bits, 10, 'a'));
    PaddedIsWidthPads(s.flags, SignedSign(s.flags, bits), Numeral(bits, 10, 'a'), s.width);
  }

  lemma UnpaddedParts(f: Flags, head: string, tail: string)
    ensures var core := Padded(f, 0, head, tail);
      core == head + tail && core[..|head|] == head && core[|head|..] == tail
  {
  }

  lemma PaddedIsWidthPads(f: Flags, head: string, tail: string, width: nat)
    ensures WidthPads(f, Padded(f, Max(width - |head| - |tail|, 0), head, tail), head, tail, width)
  {
  }

  lemma PlayOne(t: string)
    requires |t| <= INT_MAX
    ensures Play(Text(t, End), 0) == (t, Returned(|t|))
  {
    assert Play(End, |t|) == ("", Returned(|t|));
    assert t + "" == t;
  }

  lemma {:induction false} NoPercent(f: string, i: nat)
    requires '%' !in f && i <= |f|
    ensures LiteralEnd(f, i) == |f|
    decreases |f| - i
  {
  }

  /** A format without % is written as it is. */
  lemma LiteralFormat(f: string)
    requires '%' !in f && 0 < |f| <= INT_MAX
    ensures Play(ScriptOf(f, 0, [], 0), 0) == (f, Returned(|f|))
  {
    assert f[0] in f;
    NoPercent(f, 1);
    assert f[0..|f|] == f;
    assert NextPiece(f, 0, [], 0) == Some(Piece(f, |f|, 0));
    assert ScriptOf(f, |f|, [], 0) == End;
    PlayOne(f);
  }

  lemma PlainDirective(args: seq<Arg>)
    ensures ReadDirective("%u", 1, args, 0) == Some(Directive(PLAIN, 1, 0))
  {
  }

  /** An unsigned conversion whose argument is there. */
  lemma ConvertUnsigned(f: string, start: nat, d: Directive, args: seq<Arg>)
    requires start < d.at < |f| && ValidSpec(d.spec) && IsUnsigned(f[d.at]) && d.arg < |args| && args[d.arg].Num?
    ensures Convert(f, start, d, args) ==
            Some(Piece(UnsignedText(d.spec, args[d.arg].bits, BaseOf(f[d.at]), LetterOf(f[d.at]), MarkOf(f, d.at)),
                       d.at + 1, d.arg + 1))
  {
    var c := At(f, d.at);
    assert c == f[d.at] && c !in {'c', 's', 'd', 'i'};
  }

  lemma PlainConvert(num: uint32)
    ensures Convert("%u", 0, Directive(PLAIN, 1, 0), [Num(num)]) == Some(Piece(Numeral(num, 10, 'a'), 2, 1))
  {
    ConvertUnsigned("%u", 0, Directive(PLAIN, 1, 0), [Num(num)]);
    PlainUnsigned(num, 10, 'a', MarkOf("%u", 1));
  }

  lemma PlainPiece(num: uint32)
    ensures NextPiece("%u", 0, [Num(num)], 0) == Some(Piece(Numeral(num, 10, 'a'), 2, 1))
  {
    PlainDirective([Num(num)]);
    PlainConvert(num);
    assert !IsLiteral("%u", 0);
  }

  /** printf("%u", n) writes the canonical decimal numeral and returns its length. */
  lemma PlainFormat(num: uint32)
    ensures Play(ScriptOf("%u", 0, [Num(num)], 0), 0) == (Numeral(num, 10, 'a'), Returned(|Numeral(num, 10, 'a')|))
  {
    PlainPiece(num);
    ShortNumeral(num, 10);
    PlayOne(Numeral(num, 10, 'a'));
  }

  /** The decimal representation of an int. */
  function DecimalText(n: int): string {
    if n < 0 then "-" + Numeral(-n, 10, 'a') else Numeral(n, 10, 'a')
  }

  /** %d prints the number exactly when it is not negative or the least int: the digits of other
      negative numbers are those of their two's complement. */
  lemma SignedIsDecimalIff(bits: uint32)
    ensures SignedText(PLAIN, bits) == DecimalText(Signed(bits)) <==> (Signed(bits) >= 0 || bits == 0x8000_0000)
  {
    var digits := Numeral(bits, 10, 'a');
    NumeralDigits(bits, 'a');
    assert SignedText(PLAIN, bits) == SignedSign(NO_FLAGS, bits) + digits;
    if Signed(bits) < 0 {
      NumeralDigits(-Signed(bits), 'a');
      assert SignedText(PLAIN, bits)[1..] == digits;
      assert DecimalText(Signed(bits))[1..] == Numeral(-Signed(bits), 10, 'a');
    }
  }

  /** What section 7.21.6.1 prescribes for %s: the precision bounds the characters taken from the
      string, and blanks fill the field up to the width. */
  function StandardString(s: Spec, str: string): string {
    var shown := if 0 <= s.precision < |str| then str[..s.precision] else str;
    var blanks := Repeat(' ', Max(s.width - |shown|, 0));
    if s.flags.left then shown + blanks else blanks + shown
  }

  /** %s writes that exactly when there is no precision or the width does not exceed it: otherwise
      the code cuts the padding too. */
  lemma StringIsStandardIff(s: Spec, str: string)
    requires ValidSpec(s) && 0 <= s.width
    ensures StringText(s, str) == StandardString(s, str) <==> (s.precision < 0 || s.width <= s.precision)
  {
    if s.precision < 0 || s.width <= s.precision {
      assert |StringText(s, str)| == |StandardString(s, str)|;
    }
  }

  /** A negative width, which only an argument can give, asks for more than INT_MAX characters, so
      that printf returns -1; %s escapes this exactly when the precision shortens the string. */
  lemma NegativeWidthOverflows(s: Spec, bits: uint32, base: nat, letter: char, mark: char, str: string)
    requires ValidSpec(s) && s.width < 0 && PrintfBase(base) && letter in {'a', 'A'}
    ensures INT_MAX < |UnsignedText(s, bits, base, letter, mark)| && INT_MAX < |SignedText(s, bits)|
    ensures INT_MAX < |StringText(s, str)| <==> !(0 <= s.precision < |str|)
    ensures |CharText(s, bits)| == 1
  {
  }
}

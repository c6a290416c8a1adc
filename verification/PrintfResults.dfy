/** When printf as a whole writes what section 7.21.6.1 of ISO C11 prescribes, and what it writes
    where it does not. */
module PrintfResults {
  import opened Page
  import opened Numerals
  import opened PrintfSpec
  import opened PrintfStandard
  import opened PrintfFormats
  import opened PrintfMeaning

  // ---- one conversion

  function StandardChar(s: Spec, bits: uint32): string {
    var c, blanks := (bits % 0x100) as char, Repeat(' ', Max(s.width - 1, 0));
    if s.flags.left then [c] + blanks else blanks + [c]
  }

  /** What is prescribed for each conversion character. */
  function StandardEffect(s: Spec, letter: char, arg: Arg): string
    requires ValidSpec(s) && 0 <= s.width && Known(letter) && Takes(letter, arg)
  {
    match letter
    case 'o' => StandardUnsigned(s, arg.bits, 8, 'a')
    case 'u' => StandardUnsigned(s, arg.bits, 10, 'a')
    case 'x' => StandardUnsigned(s, arg.bits, 16, 'a')
    case 'X' => StandardUnsigned(s, arg.bits, 16, 'A')
    case 's' => StandardString(s, arg.s)
    case 'c' => StandardChar(s, arg.bits)
    case _ => StandardSigned(s, arg.bits)
  }

  /** When the code writes that. */
  predicate Conforms(s: Spec, letter: char, arg: Arg, next: char)
    requires ValidSpec(s) && Known(letter) && Takes(letter, arg)
  {
    match letter
    case 'o' => UnsignedConforms(s, arg.bits, 8, 'a', next)
    case 'u' => UnsignedConforms(s, arg.bits, 10, 'a', next)
    case 'x' => UnsignedConforms(s, arg.bits, 16, 'a', 'x')
    case 'X' => UnsignedConforms(s, arg.bits, 16, 'A', 'X')
    case 's' => s.precision < 0 || s.width <= s.precision
    case 'c' => true
    case _ => SignedConforms(s, arg.bits)
  }

  /** Every conversion for every flag, width and precision (# has no meaning with %u). */
  lemma EffectIsStandardIff(s: Spec, letter: char, arg: Arg, next: char)
    requires ValidSpec(s) && 0 <= s.width && Known(letter) && Takes(letter, arg) && (s.flags.alt ==> letter != 'u')
    ensures Effect(s, letter, arg, next) == StandardEffect(s, letter, arg) <==> Conforms(s, letter, arg, next)
  {
    match letter
    case 'o' => UnsignedIsStandardIff(s, arg.bits, 8, 'a', next);
    case 'u' => UnsignedIsStandardIff(s, arg.bits, 10, 'a', next);
    case 'x' => UnsignedIsStandardIff(s, arg.bits, 16, 'a', 'x');
    case 'X' => UnsignedIsStandardIff(s, arg.bits, 16, 'A', 'X');
    case 's' => StringIsStandardIff(s, arg.s);
    case 'c' => CharIsStandard(s, arg.bits);
    case _ => SignedIsStandardIff(s, arg.bits);
  }

  lemma CharIsStandard(s: Spec, bits: uint32)
    requires 0 <= s.width
    ensures CharText(s, bits) == StandardChar(s, bits)
  {
  }

  // ---- exactly what is written, prescribed or not

  /** %o, %u, %x and %X: the sign flags and the prefix in front whatever the number is, and digits
      filled with zeros to the precision, laid out in the field as WidthPads says. */
  lemma UnsignedExactly(s: Spec, num: uint32, base: nat, letter: char, mark: char)
    requires ValidSpec(s) && PrintfBase(base) && letter in {'a', 'A'} && 0 <= s.width
    ensures var sign := if s.flags.plus then "+" else if s.flags.space then " " else "";
      var head := sign + if s.flags.alt then ['0', mark] else "";
      var digits := if s.precision == 0 && num == 0 then "" else Numeral(num, base, letter);
      WidthPads(s.flags, UnsignedText(s, num, base, letter, mark), head, Filled(s.precision, digits), s.width)
  {
    BodyIsFilled(s.precision, num, base, letter);
    UnsignedIsPadded(s, num, base, letter, mark);
    PaddedIsWidthPads(s.flags, UnsignedHead(s.flags, mark), UnsignedTail(s.precision, num, base, letter), s.width);
  }

  /** %d and %i: the sign and the digits of the unsigned number with the same bits. */
  lemma SignedExactly(s: Spec, bits: uint32)
    requires ValidSpec(s) && 0 <= s.width
    ensures
      var sign := if bits >= 0x8000_0000 then "-" else if s.flags.plus then "+" else if s.flags.space then " " else "";
      WidthPads(s.flags, SignedText(s, bits), sign, Numeral(bits, 10, 'a'), s.width)
  {
    SignedIsPadded(s, bits);
    PaddedIsWidthPads(s.flags, SignedSign(s.flags, bits), Numeral(bits, 10, 'a'), s.width);
  }

  /** %s: what is prescribed for a width that the precision bounds too; for a negative width, the
      characters up to a precision below the length. */
  lemma StringExactly(s: Spec, str: string)
    requires ValidSpec(s)
    ensures 0 <= s.width ==>
              StringText(s, str) ==
              StandardString(s.(width := if 0 <= s.precision < s.width then s.precision else s.width), str)
    ensures s.width < 0 && 0 <= s.precision < |str| ==> StringText(s, str) == str[..s.precision]
  {
  }

  // ---- whole formats

  function StandardOutput(xs: seq<Item>): string
    requires ValidItems(xs) && Prescribed(xs)
  {
    if xs == [] then ""
    else
      var head :=
        match xs[0]
        case Character(c) => [c]
        case PercentSign => "%"
        case Converted(c, letter, arg) => StandardEffect(Meaning(c), letter, arg);
      head + StandardOutput(xs[1..])
  }

  /** The conversions have a width that is not negative, and # stands where it has a meaning. */
  predicate Prescribed(xs: seq<Item>)
    requires ValidItems(xs)
  {
    forall k :: 0 <= k < |xs| && xs[k].Converted? ==>
      var s := Meaning(xs[k].conversion); 0 <= s.width && (s.flags.alt ==> xs[k].letter != 'u')
  }

  predicate AllConform(xs: seq<Item>)
    requires ValidItems(xs)
  {
    xs == []
    || (&& (xs[0].Converted? ==>
              Conforms(Meaning(xs[0].conversion), xs[0].letter, xs[0].arg, At(FormatOf(xs[1..], ""), 0)))
        && AllConform(xs[1..]))
  }

  lemma {:induction false} OutputIsStandard(xs: seq<Item>)
    requires ValidItems(xs) && Prescribed(xs) && AllConform(xs)
    ensures Output(xs, "") == StandardOutput(xs)
  {
    if xs != [] {
      OutputIsStandard(xs[1..]);
      if xs[0].Converted? {
        EffectIsStandardIff(Meaning(xs[0].conversion), xs[0].letter, xs[0].arg, At(FormatOf(xs[1..], ""), 0));
      }
    }
  }

  /** A format of conversions that all conform is printed as prescribed. */
  lemma PrintfIsStandard(xs: seq<Item>, more: seq<Arg>)
    requires ValidItems(xs) && Prescribed(xs) && AllConform(xs)
    ensures Prints(StandardOutput(xs), 0, Play(ScriptOf(FormatOf(xs, ""), 0, ArgsOf(xs, more), 0), 0))
  {
    assert [] + more == more;
    PrintfWrites(xs, Nothing, more);
    OutputIsStandard(xs);
  }

  function Run(f: string, args: seq<Arg>): (string, Result) { Play(ScriptOf(f, 0, args, 0), 0) }

  /** A format that is one conversion specification. */
  lemma OneConversion(c: Conversion, letter: char, arg: Arg)
    requires ValidConversion(c) && Known(letter) && Takes(letter, arg)
    ensures Prints(Effect(Meaning(c), letter, arg, '\0'), 0, Run("%" + (Body(c) + [letter]), Stars(c) + [arg]))
  {
    var x := Converted(c, letter, arg);
    PrintfWrites([x], Nothing, []);
    assert FormatOf([x], "") == ItemText(x) + "" == ItemText(x);
    assert ArgsOf([x], []) == ItemArgs(x) + [] == ItemArgs(x);
    var t := Effect(Meaning(c), letter, arg, '\0');
    assert Output([x], "") == t + "" == t;
  }

  /** It is printed as prescribed if and only if the conversion conforms, as far as the text fits. */
  lemma OneConversionIff(c: Conversion, letter: char, arg: Arg)
    requires ValidConversion(c) && Known(letter) && Takes(letter, arg)
    requires var s := Meaning(c);
      0 <= s.width && (s.flags.alt ==> letter != 'u') && |Effect(s, letter, arg, '\0')| <= INT_MAX
    ensures var t := StandardEffect(Meaning(c), letter, arg);
      Run("%" + (Body(c) + [letter]), Stars(c) + [arg]) == (t, Returned(|t|))
      <==> Conforms(Meaning(c), letter, arg, '\0')
  {
    OneConversion(c, letter, arg);
    EffectIsStandardIff(Meaning(c), letter, arg, '\0');
  }

  const BARE: Conversion := Conversion("", Digits(""), None, "")

  lemma Bare(letter: char, arg: Arg)
    requires Known(letter) && Takes(letter, arg)
    ensures Prints(Effect(PLAIN, letter, arg, '\0'), 0, Run(['%', letter], [arg]))
  {
    assert ValidConversion(BARE) && Meaning(BARE) == PLAIN && Stars(BARE) == [];
    OneConversion(BARE, letter, arg);
    assert "%" + (Body(BARE) + [letter]) == ['%', letter];
    assert [] + [arg] == [arg];
  }

  // ---- the conversions without flags, width and precision

  /** t is written and its length returned. */
  ghost predicate Says(f: string, args: seq<Arg>, t: string) { Run(f, args) == (t, Returned(|t|)) }

  lemma {:induction false} NumeralFits(n: nat, base: nat, letter: char)
    requires PrintfBase(base) && letter in {'a', 'A'}
    ensures |Numeral(n, base, letter)| <= 1 + n / base
    decreases n
  {
    if n >= base {
      Split(n, base);
      NumeralFits(n / base, base, letter);
    }
  }

  /** %o writes the octal numeral, %x and %X the hexadecimal one with small or capital letters, and
      %u the decimal one. */
  lemma PlainNumerals(n: uint32)
    ensures Says("%o", [Num(n)], Numeral(n, 8, 'a'))
    ensures Says("%x", [Num(n)], Numeral(n, 16, 'a'))
    ensures Says("%X", [Num(n)], Numeral(n, 16, 'A'))
    ensures Says("%u", [Num(n)], Numeral(n, 10, 'a'))
  {
    PlainNumeral('o', n, 8, 'a', '\0');
    PlainNumeral('x', n, 16, 'a', 'x');
    PlainNumeral('X', n, 16, 'A', 'X');
    PlainNumeral('u', n, 10, 'a', '\0');
  }

  lemma PlainNumeral(c: char, n: uint32, base: nat, letter: char, mark: char)
    requires c in {'o', 'x', 'X', 'u'} && PrintfBase(base) && letter in {'a', 'A'}
    requires Effect(PLAIN, c, Num(n), '\0') == UnsignedText(PLAIN, n, base, letter, mark)
    ensures Says(['%', c], [Num(n)], Numeral(n, base, letter))
  {
    PlainUnsigned(n, base, letter, mark);
    NumeralFits(n, base, letter);
    BareSays(c, Num(n), Numeral(n, base, letter));
  }

  lemma BareSays(letter: char, arg: Arg, t: string)
    requires Known(letter) && Takes(letter, arg) && Effect(PLAIN, letter, arg, '\0') == t && |t| <= INT_MAX
    ensures Says(['%', letter], [arg], t)
  {
    Bare(letter, arg);
  }

  function PlainDecimal(n: uint32): string { (if n >= 0x8000_0000 then "-" else "") + Numeral(n, 10, 'a') }

  /** %d and %i write the decimal numeral, of a negative number that of its two's complement behind
      the sign. */
  lemma PlainDecimals(n: uint32)
    ensures Says("%d", [Num(n)], PlainDecimal(n)) && Says("%i", [Num(n)], PlainDecimal(n))
  {
    DecimalEffect(n);
    BareSays('d', Num(n), PlainDecimal(n));
    BareSays('i', Num(n), PlainDecimal(n));
  }

  lemma DecimalEffect(n: uint32)
    ensures SignedText(PLAIN, n) == PlainDecimal(n) && |PlainDecimal(n)| <= INT_MAX
  {
    SignedExactly(PLAIN, n);
    NumeralFits(n, 10, 'a');
    assert SignedText(PLAIN, n) == Repeat(' ', 0) + PlainDecimal(n) == PlainDecimal(n);
  }

  /** %c writes the character with the low eight bits, %s the string as it is. */
  lemma PlainTexts(n: uint32, str: CString)
    requires |str| <= INT_MAX
    ensures Says("%c", [Num(n)], [(n % 0x100) as char])
    ensures Says("%s", [Str(str)], str)
  {
    TextEffects(n, str);
    BareSays('c', Num(n), [(n % 0x100) as char]);
    BareSays('s', Str(str), str);
  }

  lemma TextEffects(n: uint32, str: CString)
    ensures CharText(PLAIN, n) == [(n % 0x100) as char]
    ensures StringText(PLAIN, str) == str
  {
    assert StringText(PLAIN, str) == Repeat(' ', 0) + str[..|str|] == str;
  }

  /** %% writes one %. */
  lemma PlainPercent()
    ensures Says("%%", [], "%")
  {
    PrintfWrites([PercentSign], Nothing, []);
    PercentText();
  }

  lemma PercentText()
    ensures FormatOf([PercentSign], "") == "%%" && ArgsOf([PercentSign], []) == []
    ensures Output([PercentSign], "") == "%"
  {
  }
}

/** What section 7.21.6.1 of ISO C11 prescribes for the integer conversions, and exactly when
    libc/stdio/printf.c writes that. */
module PrintfStandard {
  import opened Page
  import opened Numerals
  import opened PrintfSpec

  // ---- what is prescribed

  /** Blanks behind with the - flag, zeros behind the head with the 0 flag, which is ignored if a
      precision is given, and else blanks in front fill the field up to the width. */
  function Pad(s: Spec, head: string, body: string): string
    requires 0 <= s.width
  {
    var fill := Max(s.width - |head| - |body|, 0);
    if s.flags.left then head + body + Repeat(' ', fill)
    else if s.flags.zero && s.precision < 0 then head + Repeat('0', fill) + body
    else Repeat(' ', fill) + head + body
  }

  /** Digits filled with zeros to the precision. */
  function Filled(precision: int, digits: string): string { Repeat('0', Max(precision - |digits|, 0)) + digits }

  /** With # the octal numeral begins with a zero. */
  function OctalBody(body: string): string { if body == "" || body[0] != '0' then "0" + body else body }

  /** %o, %u, %x and %X: no sign flag has an effect, and # adds 0x to a number other than 0. */
  function StandardUnsigned(s: Spec, num: uint32, base: nat, letter: char): string
    requires 0 <= s.width && PrintfBase(base) && letter in {'a', 'A'}
  {
    var body := Filled(s.precision, if s.precision == 0 && num == 0 then "" else Numeral(num, base, letter));
    if s.flags.alt && base == 8 then Pad(s, "", OctalBody(body))
    else Pad(s, if s.flags.alt && num != 0 then ['0', HexMark(letter)] else "", body)
  }

  function HexMark(letter: char): char { if letter == 'A' then 'X' else 'x' }

  /** %d and %i */
  function StandardSigned(s: Spec, bits: uint32): string
    requires 0 <= s.width
  {
    var n := Signed(bits);
    var digits := if s.precision == 0 && n == 0 then "" else Numeral(if n < 0 then -n else n, 10, 'a');
    var sign := if n < 0 then "-" else if s.flags.plus then "+" else if s.flags.space then " " else "";
    Pad(s, sign, Filled(s.precision, digits))
  }

  // ---- the characters of numerals

  predicate Plain(t: string) { forall i :: 0 <= i < |t| ==> t[i] !in {' ', '+', '-', 'x', 'X'} }

  lemma DigitIsPlain(d: nat, letter: char)
    requires d < 16 && letter in {'a', 'A'}
    ensures DigitChar(d, letter) !in {' ', '+', '-', 'x', 'X'}
  {
  }

  lemma {:induction false} NumeralIsPlain(n: nat, base: nat, letter: char)
    requires 2 <= base <= 16 && letter in {'a', 'A'}
    ensures Plain(Numeral(n, base, letter))
    decreases n
  {
    if n >= base {
      Split(n, base);
      NumeralIsPlain(n / base, base, letter);
      DigitIsPlain(n % base, letter);
    } else {
      DigitIsPlain(n, letter);
    }
  }

  lemma BodyIsPlain(s: Spec, num: uint32, base: nat, letter: char)
    requires PrintfBase(base) && letter in {'a', 'A'}
    ensures Plain(UnsignedTail(s.precision, num, base, letter))
    ensures UnsignedTail(s.precision, num, base, letter) == "" <==> s.precision == 0 && num == 0
  {
    NumeralIsPlain(num, base, letter);
  }

  // ---- where the text of an unsigned conversion is the prescribed one

  /** The code's text and the prescribed one for the same prefix and digits: they differ when the
      0 flag should have been ignored, and by a sign that should not be there. */
  lemma SamePartsAgreeIff(s: Spec, head: string, body: string)
    requires 0 <= s.width && Plain(body) && (head == "" || head[0] == '0') && (s.precision < 0 ==> body != "")
    ensures Padded(s.flags, Max(s.width - |head| - |body|, 0), head, body) == Pad(s, head, body)
       <==> (s.width <= |head| + |body| || s.flags.left || !s.flags.zero || s.precision < 0)
  {
    var c, d := Padded(s.flags, Max(s.width - |head| - |body|, 0), head, body), Pad(s, head, body);
    if s.width > |head| + |body| && !s.flags.left && s.flags.zero && s.precision >= 0 {
      assert c[0] == '0' && d[0] == ' ';
    }
  }

  lemma SpaceAgreesIff(s: Spec, head: string, body: string)
    requires 0 <= s.width && Plain(body) && (head == "" || head[0] == '0') && (s.precision < 0 ==> body != "")
    ensures Padded(s.flags, Max(s.width - 1 - |head| - |body|, 0), " " + head, body) == Pad(s, head, body)
       <==> (&& |head| + |body| < s.width
             && if s.flags.left then head + body == ""
                else !s.flags.zero || (0 <= s.precision && s.width == |head| + |body| + 1))
  {
    var c, d := Padded(s.flags, Max(s.width - 1 - |head| - |body|, 0), " " + head, body), Pad(s, head, body);
    var core := |head| + |body|;
    if core < s.width {
      assert |c| == |d| == s.width && c[0] == ' ';
      if s.flags.left {
        if head + body != "" { assert d[0] == (head + body)[0] != ' '; }
      } else if s.flags.zero {
        if s.precision < 0 {
          assert d[0] == '0';
        } else if s.width > core + 1 {
          assert c[1] == '0' && d[1] == ' ';
        }
      }
    }
  }

  lemma PlusDiffers(f: Flags, n: nat, head: string, body: string, d: string)
    requires '+' !in d
    ensures Padded(f, n, "+" + head, body) != d
  {
    var c := Padded(f, n, "+" + head, body);
    var i := if f.left || f.zero then 0 else n;
    assert c[i] == '+' && c[i] in c;
  }

  lemma PadHasNoPlus(s: Spec, head: string, body: string)
    requires 0 <= s.width && '+' !in head && '+' !in body
    ensures '+' !in Pad(s, head, body)
  {
  }

  /** # with %o: the prefix is there in full, so that the texts agree only if the padding would
      have looked the same. */
  lemma OctalAgreesIff(s: Spec, sign: string, mark: char, body: string)
    requires 0 <= s.width && Plain(body) && (s.precision < 0 ==> body != "") && sign in {"", " "}
    ensures Padded(s.flags, Max(s.width - |sign| - 2 - |body|, 0), sign + ['0', mark], body) ==
            Pad(s, "", OctalBody(body))
       <==> (&& sign == ""
             && if s.flags.left then body == "" && mark == ' ' && 2 <= s.width
                else s.flags.zero && s.precision < 0 && mark == '0' && |body| + 2 <= s.width)
  {
    if |sign| + 2 + |body| <= s.width {
      if s.flags.left {
        OctalLeft(s, sign, mark, body);
      } else if !s.flags.zero {
        OctalRight(s, sign, mark, body);
      } else {
        OctalZeros(s, sign, mark, body);
      }
    }
  }

  lemma OctalLeft(s: Spec, sign: string, mark: char, body: string)
    requires Plain(body) && sign in {"", " "} && |sign| + 2 + |body| <= s.width && s.flags.left
    ensures sign + ['0', mark] + body + Repeat(' ', s.width - |sign| - 2 - |body|) ==
            "" + OctalBody(body) + Repeat(' ', s.width - |OctalBody(body)|)
       <==> sign == "" && body == "" && mark == ' '
  {
    var c := sign + ['0', mark] + body + Repeat(' ', s.width - |sign| - 2 - |body|);
    var d := "" + OctalBody(body) + Repeat(' ', s.width - |OctalBody(body)|);
    var i := |sign| + 1 + |body|;
    if body != "" { assert c[i] == body[|body| - 1] && d[i] == ' '; }
    else if sign == " " { assert c[0] == ' ' && d[0] == '0'; }
    else { assert c[1] == mark && d[1] == ' '; }
  }

  lemma OctalRight(s: Spec, sign: string, mark: char, body: string)
    requires Plain(body) && sign in {"", " "} && |sign| + 2 + |body| <= s.width
    ensures Repeat(' ', s.width - |sign| - 2 - |body|) + (sign + ['0', mark]) + body !=
            Repeat(' ', s.width - |OctalBody(body)|) + "" + OctalBody(body)
  {
    var c := Repeat(' ', s.width - |sign| - 2 - |body|) + (sign + ['0', mark]) + body;
    var d := Repeat(' ', s.width - |OctalBody(body)|) + "" + OctalBody(body);
    var i := s.width - |body| - 2;
    assert c[i] == '0' && d[i] == ' ';
  }

  lemma OctalZeros(s: Spec, sign: string, mark: char, body: string)
    requires 0 <= s.width && Plain(body) && (s.precision < 0 ==> body != "") && sign in {"", " "}
    requires |sign| + 2 + |body| <= s.width && s.flags.zero && !s.flags.left
    ensures Padded(s.flags, s.width - |sign| - 2 - |body|, sign + ['0', mark], body) == Pad(s, "", OctalBody(body))
       <==> sign == "" && s.precision < 0 && mark == '0'
  {
    var c, d := Padded(s.flags, s.width - |sign| - 2 - |body|, sign + ['0', mark], body), Pad(s, "", OctalBody(body));
    assert |c| == |d| == s.width;
    if s.precision >= 0 {
      assert c[|sign|] == '0' && d[|sign|] == ' ';
    } else {
      assert d[0] == '0' && d[1] == '0';
      if sign == "" { assert c[1] == mark; } else { assert c[0] == ' '; }
    }
  }

  /** When the code writes what is prescribed for %o, %u, %x and %X; mark is the character that #
      writes after the 0. */
  predicate UnsignedConforms(s: Spec, num: uint32, base: nat, letter: char, mark: char)
    requires PrintfBase(base) && letter in {'a', 'A'}
  {
    var f, k := s.flags, |UnsignedTail(s.precision, num, base, letter)|;
    if f.plus then false
    else if f.alt && base == 8 then
      && !f.space
      && if f.left then k == 0 && mark == ' ' && 2 <= s.width
         else f.zero && s.precision < 0 && mark == '0' && k + 2 <= s.width
    else if f.alt && num == 0 then false
    else
      var core := k + if f.alt then 2 else 0;
      if !f.space then s.width <= core || f.left || !f.zero || s.precision < 0
      else core < s.width && if f.left then core == 0 else !f.zero || (0 <= s.precision && s.width == core + 1)
  }

  /** %o, %u, %x and %X for every flag, width and precision (# has no meaning with %u): the sign
      flags, # with 0 and with %o, and the 0 flag beside a precision are where the code departs. */
  lemma UnsignedIsStandardIff(s: Spec, num: uint32, base: nat, letter: char, mark: char)
    requires ValidSpec(s) && 0 <= s.width && PrintfBase(base) && letter in {'a', 'A'}
    requires s.flags.alt ==> base != 10 && (base == 16 ==> mark == HexMark(letter))
    ensures UnsignedText(s, num, base, letter, mark) == StandardUnsigned(s, num, base, letter)
       <==> UnsignedConforms(s, num, base, letter, mark)
  {
    if s.flags.plus {
      UnsignedParts(s, num, base, letter, mark);
      PlusCase(s, num, base, letter, Prefix(s.flags, mark));
    } else if s.flags.alt && base == 8 {
      OctalCase(s, num, letter, mark);
    } else if s.flags.alt && num == 0 {
      HexZeroCase(s, letter, mark);
    } else {
      SamePrefixCase(s, num, base, letter, mark);
    }
  }

  lemma HexZeroCase(s: Spec, letter: char, mark: char)
    requires ValidSpec(s) && 0 <= s.width && letter in {'a', 'A'} && mark == HexMark(letter) && s.flags.alt
    requires !s.flags.plus
    ensures UnsignedText(s, 0, 16, letter, mark) != StandardUnsigned(s, 0, 16, letter)
  {
    UnsignedParts(s, 0, 16, letter, mark);
    BodyIsPlain(s, 0, 16, letter);
    ZeroCase(s, SignOf(s.flags), mark, UnsignedTail(s.precision, 0, 16, letter));
  }

  lemma OctalCase(s: Spec, num: uint32, letter: char, mark: char)
    requires ValidSpec(s) && 0 <= s.width && letter in {'a', 'A'} && s.flags.alt && !s.flags.plus
    ensures UnsignedText(s, num, 8, letter, mark) == StandardUnsigned(s, num, 8, letter)
       <==> UnsignedConforms(s, num, 8, letter, mark)
  {
    var sign, body := SignOf(s.flags), UnsignedTail(s.precision, num, 8, letter);
    OctalParts(s, num, letter, mark);
    BodyIsPlain(s, num, 8, letter);
    OctalAgreesIff(s, sign, mark, body);
    assert sign == "" <==> !s.flags.space;
    assert body == "" <==> |body| == 0;
  }

  lemma OctalParts(s: Spec, num: uint32, letter: char, mark: char)
    requires ValidSpec(s) && 0 <= s.width && letter in {'a', 'A'} && s.flags.alt
    ensures var sign, body := SignOf(s.flags), UnsignedTail(s.precision, num, 8, letter);
      && UnsignedText(s, num, 8, letter, mark) ==
         Padded(s.flags, Max(s.width - |sign| - 2 - |body|, 0), sign + ['0', mark], body)
      && StandardUnsigned(s, num, 8, letter) == Pad(s, "", OctalBody(body))
  {
    UnsignedParts(s, num, 8, letter, mark);
    BodyIsFilled(s.precision, num, 8, letter);
  }

  /** The prefix, if any, is as prescribed. */
  lemma SamePrefixCase(s: Spec, num: uint32, base: nat, letter: char, mark: char)
    requires ValidSpec(s) && 0 <= s.width && PrintfBase(base) && letter in {'a', 'A'} && !s.flags.plus
    requires s.flags.alt ==> base == 16 && mark == HexMark(letter) && num != 0
    ensures UnsignedText(s, num, base, letter, mark) == StandardUnsigned(s, num, base, letter)
       <==> UnsignedConforms(s, num, base, letter, mark)
  {
    var body, prefix := UnsignedTail(s.precision, num, base, letter), Prefix(s.flags, mark);
    SamePrefixParts(s, num, base, letter, mark);
    BodyIsPlain(s, num, base, letter);
    if s.flags.space {
      SpaceAgreesIff(s, prefix, body);
    } else {
      SamePartsAgreeIff(s, prefix, body);
    }
  }

  lemma SamePrefixParts(s: Spec, num: uint32, base: nat, letter: char, mark: char)
    requires ValidSpec(s) && 0 <= s.width && PrintfBase(base) && letter in {'a', 'A'} && !s.flags.plus
    requires s.flags.alt ==> base == 16 && mark == HexMark(letter) && num != 0
    ensures var body, prefix := UnsignedTail(s.precision, num, base, letter), Prefix(s.flags, mark);
      && UnsignedText(s, num, base, letter, mark) == TextOf(s, prefix, body)
      && StandardUnsigned(s, num, base, letter) == Pad(s, prefix, body)
  {
    UnsignedParts(s, num, base, letter, mark);
    StandardParts(s, num, base, letter);
    var prefix := Prefix(s.flags, mark);
    assert "" + prefix == prefix;
  }

  lemma StandardParts(s: Spec, num: uint32, base: nat, letter: char)
    requires 0 <= s.width && PrintfBase(base) && letter in {'a', 'A'}
    requires s.flags.alt ==> base == 16 && num != 0
    ensures StandardUnsigned(s, num, base, letter) ==
            Pad(s, Prefix(s.flags, HexMark(letter)), UnsignedTail(s.precision, num, base, letter))
  {
    BodyIsFilled(s.precision, num, base, letter);
  }

  lemma BodyIsFilled(precision: int, num: uint32, base: nat, letter: char)
    requires PrintfBase(base) && letter in {'a', 'A'}
    ensures UnsignedTail(precision, num, base, letter) ==
            Filled(precision, if precision == 0 && num == 0 then "" else Numeral(num, base, letter))
  {
  }

  /** The code's text for prefix and body when there is no + flag. */
  function TextOf(s: Spec, prefix: string, body: string): string {
    if s.flags.space then Padded(s.flags, Max(s.width - 1 - |prefix| - |body|, 0), " " + prefix, body)
    else Padded(s.flags, Max(s.width - |prefix| - |body|, 0), prefix, body)
  }

  function Prefix(f: Flags, mark: char): string { if f.alt then ['0', mark] else "" }

  /** The code's text in its parts. */
  lemma UnsignedParts(s: Spec, num: uint32, base: nat, letter: char, mark: char)
    requires ValidSpec(s) && 0 <= s.width && PrintfBase(base) && letter in {'a', 'A'}
    ensures var sign, prefix, body :=
                  SignOf(s.flags), Prefix(s.flags, mark), UnsignedTail(s.precision, num, base, letter);
      UnsignedText(s, num, base, letter, mark) ==
      Padded(s.flags, Max(s.width - |sign| - |prefix| - |body|, 0), sign + prefix, body)
  {
    UnsignedIsPadded(s, num, base, letter, mark);
  }

  lemma PlusCase(s: Spec, num: uint32, base: nat, letter: char, prefix: string)
    requires 0 <= s.width && PrintfBase(base) && letter in {'a', 'A'}
    ensures var body := UnsignedTail(s.precision, num, base, letter);
      Padded(s.flags, Max(s.width - 1 - |prefix| - |body|, 0), "+" + prefix, body) !=
      StandardUnsigned(s, num, base, letter)
  {
    var body := UnsignedTail(s.precision, num, base, letter);
    BodyIsPlain(s, num, base, letter);
    PadHasNoPlus(s, "", OctalBody(body));
    PadHasNoPlus(s, if s.flags.alt && num != 0 then ['0', HexMark(letter)] else "", body);
    PlusDiffers(s.flags, Max(s.width - 1 - |prefix| - |body|, 0), prefix, body, StandardUnsigned(s, num, base, letter));
  }

  /** # with %x and %X prints 0x before 0 too. */
  lemma ZeroCase(s: Spec, sign: string, mark: char, body: string)
    requires 0 <= s.width && Plain(body) && mark in {'x', 'X'} && sign in {"", " "}
    ensures Padded(s.flags, Max(s.width - |sign| - 2 - |body|, 0), sign + ['0', mark], body) != Pad(s, "", body)
  {
    var n := Max(s.width - |sign| - 2 - |body|, 0);
    var c, d := Padded(s.flags, n, sign + ['0', mark], body), Pad(s, "", body);
    var i := if s.flags.left || s.flags.zero then |sign| + 1 else n + |sign| + 1;
    assert c[i] == mark;
    if i < |d| { assert d[i] != mark; }
  }

  // ---- %d and %i

  /** The digits of a text. */
  function DigitsOf(t: string): string {
    if t == "" then "" else (if IsDigit(t[0]) then [t[0]] else "") + DigitsOf(t[1..])
  }

  lemma {:induction false} DigitsOfConcat(a: string, b: string)
    ensures DigitsOf(a + b) == DigitsOf(a) + DigitsOf(b)
  {
    if a == "" {
      assert a + b == b;
    } else {
      var first := if IsDigit(a[0]) then [a[0]] else "";
      DigitsOfConcat(a[1..], b);
      assert (a + b)[0] == a[0] && (a + b)[1..] == a[1..] + b;
      assert first + (DigitsOf(a[1..]) + DigitsOf(b)) == (first + DigitsOf(a[1..])) + DigitsOf(b);
    }
  }

  lemma {:induction false} DigitsOfDigits(t: string)
    requires AllDigits(t)
    ensures DigitsOf(t) == t
  {
    if t != "" { DigitsOfDigits(t[1..]); }
  }

  lemma {:induction false} DigitsOfBlanks(n: nat)
    ensures DigitsOf(Repeat(' ', n)) == ""
  {
    if n > 0 {
      assert Repeat(' ', n)[1..] == Repeat(' ', n - 1);
      DigitsOfBlanks(n - 1);
    }
  }

  lemma ValueOfDigits(blanks: nat, zeros: nat, num: nat, after: nat)
    ensures Value(DigitsOf(Repeat(' ', blanks) +
              ("-" + (Repeat('0', zeros) + Numeral(num, 10, 'a')) + Repeat(' ', after))), 10, 'a') == num
  {
    var body := Repeat('0', zeros) + Numeral(num, 10, 'a');
    NumeralDigits(num, 'a');
    DigitsOfDigits(body);
    DigitsOfBlanks(blanks);
    DigitsOfBlanks(after);
    DigitsOfConcat(Repeat(' ', blanks), "-" + body + Repeat(' ', after));
    DigitsOfConcat("-" + body, Repeat(' ', after));
    DigitsOfConcat("-", body);
    assert DigitsOf("-") == "" + DigitsOf("-"[1..]);
    var t := Repeat(' ', blanks) + ("-" + body + Repeat(' ', after));
    assert DigitsOf(t) == "" + ("" + body + "") == body;
    FilledValue(zeros, num, 10, 'a');
  }

  /** Padding a number does not change its value. */
  lemma PaddedValue(f: Flags, n: nat, zeros: nat, num: nat)
    ensures Value(DigitsOf(Padded(f, n, "-", Repeat('0', zeros) + Numeral(num, 10, 'a'))), 10, 'a') == num
  {
    var digits := Numeral(num, 10, 'a');
    var body := Repeat('0', zeros) + digits;
    if f.left {
      ValueOfDigits(0, zeros, num, n);
      assert Repeat(' ', 0) + ("-" + body + Repeat(' ', n)) == Padded(f, n, "-", body);
    } else if f.zero {
      ValueOfDigits(0, n + zeros, num, 0);
      assert Repeat('0', n + zeros) + digits == Repeat('0', n) + body;
      assert Repeat(' ', 0) + ("-" + (Repeat('0', n) + body) + Repeat(' ', 0)) == Padded(f, n, "-", body);
    } else {
      ValueOfDigits(n, zeros, num, 0);
      assert Repeat(' ', n) + ("-" + body + Repeat(' ', 0)) == Padded(f, n, "-", body);
    }
  }

  lemma NegativeDiffers(s: Spec, bits: uint32)
    requires ValidSpec(s) && 0 <= s.width && Signed(bits) < 0 && bits != 0x8000_0000
    ensures SignedText(s, bits) != StandardSigned(s, bits)
  {
    var digits, mine := Numeral(-Signed(bits), 10, 'a'), Numeral(bits, 10, 'a');
    assert Repeat('0', 0) + mine == mine;
    PaddedValue(s.flags, Max(s.width - |mine| - 1, 0), 0, bits);
    var body := Filled(s.precision, digits);
    PaddedValue(s.flags.(zero := s.flags.zero && s.precision < 0), Max(s.width - 1 - |body|, 0),
                Max(s.precision - |digits|, 0), -Signed(bits));
  }

  /** Zeros behind the sign are not blanks in front of it. */
  lemma ZerosAreNotBlanks(n: nat, m: nat, sign: string, a: string, b: string)
    requires sign in {"", "-", "+", " "} && 0 < n && 0 < m
    ensures sign + Repeat('0', n) + a != Repeat(' ', m) + sign + b
  {
    var c, d, j := sign + Repeat('0', n) + a, Repeat(' ', m) + sign + b, |sign|;
    assert c[j] == '0';
    assert d[j] == if j < m then ' ' else sign[j - m];
  }

  /** The same digits with zeros to the precision. */
  lemma LongerAgreesIff(s: Spec, sign: string, digits: string)
    requires 0 <= s.width && |digits| < s.precision && sign in {"", "-", "+", " "} && Plain(digits) && digits != ""
    ensures Padded(s.flags, Max(s.width - |sign| - |digits|, 0), sign, digits) ==
            Pad(s, sign, Filled(s.precision, digits))
       <==> s.flags.zero && !s.flags.left && s.width == |sign| + s.precision
  {
    if s.width >= |sign| + s.precision {
      var more, n := s.precision - |digits|, s.width - |sign| - s.precision;
      assert Filled(s.precision, digits) == Repeat('0', more) + digits;
      if s.flags.left {
        LongerLeft(sign, digits, more, n);
      } else if s.flags.zero {
        LongerZeros(sign, digits, more, n);
      } else {
        LongerRight(sign, digits, more, n);
      }
    }
  }

  lemma LongerLeft(sign: string, digits: string, more: nat, n: nat)
    requires 0 < more && Plain(digits) && digits != ""
    ensures sign + digits + Repeat(' ', n + more) != sign + (Repeat('0', more) + digits) + Repeat(' ', n)
  {
    var c, d, i := sign + digits + Repeat(' ', n + more),
                   sign + (Repeat('0', more) + digits) + Repeat(' ', n), |sign| + |digits|;
    assert c[i] == ' ';
    assert d[i] == (Repeat('0', more) + digits)[|digits|];
  }

  lemma LongerRight(sign: string, digits: string, more: nat, n: nat)
    requires 0 < more && sign in {"", "-", "+", " "}
    ensures Repeat(' ', n + more) + sign + digits != Repeat(' ', n) + sign + (Repeat('0', more) + digits)
  {
    var c, d, i := Repeat(' ', n + more) + sign + digits,
                   Repeat(' ', n) + sign + (Repeat('0', more) + digits), n + more + |sign| - 1;
    assert d[i] == '0';
    assert c[i] == if sign == "" then ' ' else sign[0];
  }

  lemma LongerZeros(sign: string, digits: string, more: nat, n: nat)
    requires 0 < more && sign in {"", "-", "+", " "}
    ensures sign + Repeat('0', n + more) + digits == Repeat(' ', n) + sign + (Repeat('0', more) + digits) <==> n == 0
  {
    if n == 0 {
      assert sign + Repeat('0', n + more) + digits == Repeat(' ', n) + sign + (Repeat('0', more) + digits);
    } else {
      ZerosAreNotBlanks(n + more, n, sign, digits, Repeat('0', more) + digits);
    }
  }

  /** The same digits, as many as the precision asks for. */
  lemma FilledAgreesIff(s: Spec, sign: string, digits: string)
    requires 0 <= s.width && 0 <= s.precision <= |digits| && sign in {"", "-", "+", " "}
    ensures Padded(s.flags, Max(s.width - |sign| - |digits|, 0), sign, digits) ==
            Pad(s, sign, Filled(s.precision, digits))
       <==> s.width <= |sign| + |digits| || s.flags.left || !s.flags.zero
  {
    var n := s.width - |sign| - |digits|;
    assert Filled(s.precision, digits) == digits;
    if n > 0 && !s.flags.left && s.flags.zero {
      ZerosAreNotBlanks(n, n, sign, digits, digits);
    }
  }

  /** When ignoring the precision makes no difference for k digits behind a sign of j characters. */
  predicate PrecisionConforms(s: Spec, k: nat, j: nat) {
    s.precision < 0
    || if s.precision <= k then s.width <= j + k || s.flags.left || !s.flags.zero
       else s.flags.zero && !s.flags.left && s.width == j + s.precision
  }

  /** When the code writes what is prescribed for %d and %i. */
  predicate SignedConforms(s: Spec, bits: uint32) {
    && (Signed(bits) >= 0 || bits == 0x8000_0000)
    && !(bits == 0 && s.precision == 0)
    && PrecisionConforms(s, |Numeral(bits, 10, 'a')|, |SignedSign(s.flags, bits)|)
  }

  /** %d and %i for every flag, width and precision: the digits of a negative number, and the
      precision, which the code ignores, are where it departs. */
  lemma SignedIsStandardIff(s: Spec, bits: uint32)
    requires ValidSpec(s) && 0 <= s.width
    ensures SignedText(s, bits) == StandardSigned(s, bits) <==> SignedConforms(s, bits)
  {
    if Signed(bits) < 0 && bits != 0x8000_0000 {
      NegativeDiffers(s, bits);
    } else if bits == 0 && s.precision == 0 {
      NoDigitDiffers(s);
    } else {
      SameDigitsCase(s, bits);
    }
  }

  /** The digits are as prescribed. */
  lemma SameDigitsCase(s: Spec, bits: uint32)
    requires ValidSpec(s) && 0 <= s.width && (Signed(bits) >= 0 || bits == 0x8000_0000)
    requires (bits != 0 || s.precision != 0)
    ensures SignedText(s, bits) == StandardSigned(s, bits) <==> SignedConforms(s, bits)
  {
    var digits, sign := Numeral(bits, 10, 'a'), SignedSign(s.flags, bits);
    NumeralIsPlain(bits, 10, 'a');
    PrecisionAgreesIff(s, sign, digits);
    SignedIsPadded(s, bits);
    StandardIsPadded(s, bits);
  }

  lemma SignedIsPadded(s: Spec, bits: uint32)
    requires ValidSpec(s) && 0 <= s.width
    ensures var digits, sign := Numeral(bits, 10, 'a'), SignedSign(s.flags, bits);
      SignedText(s, bits) == Padded(s.flags, Max(s.width - |sign| - |digits|, 0), sign, digits)
  {
    var digits, sign := Numeral(bits, 10, 'a'), SignedSign(s.flags, bits);
    var n, m := Max(Unsigned(s.width) - |digits| - |sign|, 0), Max(s.width - |sign| - |digits|, 0);
    assert n == m;
    assert SignedText(s, bits) == Padded(s.flags, n, sign, digits);
  }

  lemma StandardIsPadded(s: Spec, bits: uint32)
    requires 0 <= s.width && (Signed(bits) >= 0 || bits == 0x8000_0000) && (bits != 0 || s.precision != 0)
    ensures StandardSigned(s, bits) == Pad(s, SignedSign(s.flags, bits), Filled(s.precision, Numeral(bits, 10, 'a')))
  {
    var n := Signed(bits);
    assert (if n < 0 then -n else n) == bits && !(s.precision == 0 && n == 0);
  }

  lemma PrecisionAgreesIff(s: Spec, sign: string, digits: string)
    requires 0 <= s.width && sign in {"", "-", "+", " "} && Plain(digits) && digits != ""
    ensures Padded(s.flags, Max(s.width - |sign| - |digits|, 0), sign, digits) ==
            Pad(s, sign, Filled(s.precision, digits))
       <==> PrecisionConforms(s, |digits|, |sign|)
  {
    if s.precision < 0 {
      NoPrecision(s, sign, digits);
    } else if s.precision <= |digits| {
      FilledAgreesIff(s, sign, digits);
    } else {
      LongerAgreesIff(s, sign, digits);
    }
  }

  lemma NoPrecision(s: Spec, sign: string, digits: string)
    requires 0 <= s.width && s.precision < 0
    ensures Padded(s.flags, Max(s.width - |sign| - |digits|, 0), sign, digits) ==
            Pad(s, sign, Filled(s.precision, digits))
  {
    assert Filled(s.precision, digits) == digits;
  }

  /** With precision 0 no digit is prescribed for 0. */
  lemma NoDigitDiffers(s: Spec)
    requires ValidSpec(s) && 0 <= s.width && s.precision == 0
    ensures SignedText(s, 0) != StandardSigned(s, 0)
  {
    var c, d, sign := SignedText(s, 0), StandardSigned(s, 0), SignedSign(s.flags, 0);
    assert Numeral(0, 10, 'a') == "0";
    var n := Max(s.width - 1 - |sign|, 0);
    var i := if s.flags.left then |sign| else n + |sign|;
    assert c[i] == '0' && c[i] in c;
    assert d == Pad(s, sign, "");
    assert '0' !in d;
  }
}

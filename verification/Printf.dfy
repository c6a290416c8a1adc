/** printf (libc/stdio/printf.c) as it runs: loops over the format, the digits and the padding,
    each character printed as it is found. Proved to write and return what PrintfSpec says. The
    kernel's print never fails, so its error branch is not taken. */
module Printf {
  import opened Page
  import opened Numerals
  import opened PrintfSpec

  lemma {:induction false} ShiftPositive(n: nat, base: nat, j: nat, k: nat)
    requires 2 <= base && j <= k && 0 < Shift(n, base, k)
    ensures 0 < Shift(n, base, j) && (j < k ==> base <= Shift(n, base, j))
    decreases k
  {
    if j < k {
      Split(Shift(n, base, k - 1), base);
      ShiftPositive(n, base, j, k - 1);
    }
  }

  lemma PowDivision(base: nat, k: nat)
    requires 2 <= base && 0 < k
    ensures Pow(base, k) / base == Pow(base, k - 1)
  {
    Quotient(Pow(base, k), base, Pow(base, k - 1), 0);
  }

  /** The digits written when the k lowest are still to come. */
  ghost function HighDigits(num: nat, base: nat, letter: char, k: nat, len: nat): string
    requires 2 <= base <= 16 && letter in {'a', 'A'}
  {
    if k >= len then "" else Numeral(Shift(num, base, k), base, letter)
  }

  lemma SmallRemainder(n: nat, b: nat)
    requires n < b
    ensures n % b == n
  {
  }

  lemma HighDigitsStep(num: nat, base: nat, letter: char, k: nat, len: nat)
    requires 2 <= base <= 16 && letter in {'a', 'A'} && k < len && Shift(num, base, len - 1) < base
    requires len == 1 || 0 < Shift(num, base, len - 1)
    ensures HighDigits(num, base, letter, k, len) ==
            HighDigits(num, base, letter, k + 1, len) + [DigitChar(Shift(num, base, k) % base, letter)]
  {
    if k + 1 < len {
      ShiftPositive(num, base, k, len - 1);
      NumeralGrows(num, base, letter, k);
    } else {
      SmallRemainder(Shift(num, base, k), base);
    }
  }

  // ---- the three places where a number is padded

  ghost function Before(f: Flags, fill: nat): string { if f.left || f.zero then "" else Repeat(' ', fill) }

  ghost function Zeros(f: Flags, fill: nat): string { if !f.left && f.zero then Repeat('0', fill) else "" }

  ghost function After(f: Flags, fill: nat): string { if f.left then Repeat(' ', fill) else "" }

  lemma PaddedParts(out: string, f: Flags, fill: nat, head: string, tail: string)
    ensures out + Before(f, fill) + head + Zeros(f, fill) + tail + After(f, fill) == out + Padded(f, fill, head, tail)
  {
  }

  /** A conversion whose text fits is printed and its length returned, any other is not begun. */
  ghost predicate Printed(text: string, room: nat, ok: bool, n: nat, before: string, after: string) {
    && (ok <==> |text| <= room)
    && after == (if ok then before + text else before)
    && (ok ==> n == |text|)
  }

  class Printer {
    var out: string

    constructor ()
      ensures out == ""
    {
      out := "";
    }

    /** print */
    method Print(s: string)
      modifies this
      ensures out == old(out) + s
    {
      out := out + s;
    }

    /** The padding loops. */
    method Fill(c: char, n: nat)
      modifies this
      ensures out == old(out) + Repeat(c, n)
    {
      var i := 0;
      while i < n
        invariant i <= n && out == old(out) + Repeat(c, i)
      {
        Print([c]);
        i := i + 1;
        assert Repeat(c, i) == Repeat(c, i - 1) + [c];
      }
    }

    /** The loop that divides by falling powers of the base, and the last digit. */
    method PutDigits(num: uint32, base: nat, letter: char, top: uint32, ghost len: nat)
      requires PrintfBase(base) && letter in {'a', 'A'} && 0 < len && top == Pow(base, len - 1)
      requires Shift(num, base, len - 1) < base && (len == 1 || 0 < Shift(num, base, len - 1))
      modifies this
      ensures out == old(out) + Numeral(num, base, letter)
    {
      var div: nat := top;
      ghost var k: nat := len - 1;
      while div > base - 1
        invariant k < len && div == Pow(base, k)
        invariant out == old(out) + HighDigits(num, base, letter, k + 1, len)
        decreases k
      {
        assert k > 0;
        ShiftIsDivision(num, base, k);
        HighDigitsStep(num, base, letter, k, len);
        PowDivision(base, k);
        var n := num / div;
        div := div / base;
        Print([DigitChar(n % base, letter)]);
        k := k - 1;
      }
      PowPositive(base, k);
      HighDigitsStep(num, base, letter, 0, len);
      Print([DigitChar(num % base, letter)]);
    }

    /** The lengths and the width of an unsigned conversion. */
    method MeasureUnsigned(s: Spec, num: uint32, base: nat, letter: char)
      returns (div: uint32, ghost top: nat, len: nat, lenPrec: nat, lenWidth: nat, width: nat)
      requires ValidSpec(s) && PrintfBase(base) && letter in {'a', 'A'}
      ensures 0 < top && div == Pow(base, top - 1) && Shift(num, base, top - 1) < base
      ensures top == 1 || 0 < Shift(num, base, top - 1)
      ensures len == |UnsignedDigits(s.precision, num, base, letter)| && lenPrec == Max(len, s.precision)
      ensures lenWidth == NumberLength(s, len) && width == Max(Unsigned(s.width), lenWidth)
    {
      div, len := TopPower(num, base);
      NumeralLength(num, base, letter, len - 1);
      top := len;
      if s.precision == 0 && num == 0 {
        len := 0;
      }
      lenPrec, lenWidth := len, len;
      if s.precision >= 0 && s.precision > len {
        lenPrec, lenWidth := s.precision, s.precision;
      }
      if s.flags.plus || s.flags.space {
        lenWidth := lenWidth + 1;
      }
      if s.flags.alt {
        lenWidth := lenWidth + 2;
      }
      width := Unsigned(s.width);
      if width < lenWidth {
        width := lenWidth;
      }
    }

    /** The zeros up to the precision, then the digits. */
    method PutFilledDigits(s: Spec, num: uint32, base: nat, letter: char, div: uint32, ghost top: nat, zeros: nat)
      requires PrintfBase(base) && letter in {'a', 'A'} && 0 < top && div == Pow(base, top - 1)
      requires Shift(num, base, top - 1) < base && (top == 1 || 0 < Shift(num, base, top - 1))
      requires zeros == Max(s.precision - |UnsignedDigits(s.precision, num, base, letter)|, 0)
      modifies this
      ensures out == old(out) + UnsignedTail(s.precision, num, base, letter)
    {
      ghost var before := out;
      Fill('0', zeros);
      if num == 0 {
        if s.precision != 0 {
          Print("0");
        }
      } else {
        PutDigits(num, base, letter, div, top);
      }
      assert out == before + Repeat('0', zeros) + UnsignedDigits(s.precision, num, base, letter);
      assert out == before + (Repeat('0', zeros) + UnsignedDigits(s.precision, num, base, letter));
    }

    /** The branches for %o, %u, %x and %X. */
    method PutUnsigned(s: Spec, num: uint32, base: nat, letter: char, mark: char, room: nat) returns (ok: bool, n: nat)
      requires ValidSpec(s) && PrintfBase(base) && letter in {'a', 'A'}
      modifies this
      ensures Printed(UnsignedText(s, num, base, letter, mark), room, ok, n, old(out), out)
    {
      ghost var top;
      var div, len, lenPrec, lenWidth, width;
      div, top, len, lenPrec, lenWidth, width := MeasureUnsigned(s, num, base, letter);
      if room < width {
        return false, 0;
      }
      assert width - lenWidth == Max(Unsigned(s.width) - NumberLength(s, len), 0);
      EmitUnsigned(s, num, base, letter, mark, div, top, lenPrec - len, width - lenWidth);
      return true, width;
    }

    method EmitUnsigned(s: Spec, num: uint32, base: nat, letter: char, mark: char, div: uint32, ghost top: nat,
                        zeros: nat, fill: nat)
      requires PrintfBase(base) && letter in {'a', 'A'} && 0 < top && div == Pow(base, top - 1)
      requires Shift(num, base, top - 1) < base && (top == 1 || 0 < Shift(num, base, top - 1))
      requires zeros == Max(s.precision - |UnsignedDigits(s.precision, num, base, letter)|, 0)
      modifies this
      ensures out == old(out) +
                     Padded(s.flags, fill, UnsignedHead(s.flags, mark), UnsignedTail(s.precision, num, base, letter))
    {
      PadBefore(s.flags, fill);
      PutMarks(s.flags, mark);
      PadZeros(s.flags, fill);
      PutFilledDigits(s, num, base, letter, div, top, zeros);
      PadAfter(s.flags, fill);
      PaddedParts(old(out), s.flags, fill, UnsignedHead(s.flags, mark), UnsignedTail(s.precision, num, base, letter));
    }

    /** The length and the width of %d: num / div is an unsigned division. */
    method MeasureSigned(s: Spec, bits: uint32) returns (div: uint32, ghost top: nat, len: nat, width: nat)
      requires ValidSpec(s)
      ensures 0 < top && div == Pow(10, top - 1) && Shift(bits, 10, top - 1) < 10
      ensures top == 1 || 0 < Shift(bits, 10, top - 1)
      ensures len == |Numeral(bits, 10, 'a')| + |SignedSign(s.flags, bits)| && width == Max(Unsigned(s.width), len)
    {
      div, len := TopPower(bits, 10);
      NumeralLength(bits, 10, 'a', len - 1);
      top := len;
      if (s.flags.plus || s.flags.space) && Signed(bits) >= 0 {
        len := len + 1;
      }
      if Signed(bits) < 0 {
        len := len + 1;
      }
      width := Unsigned(s.width);
      if width < len {
        width := len;
      }
    }

    method EmitSigned(f: Flags, bits: uint32, div: uint32, ghost top: nat, fill: nat)
      requires 0 < top && div == Pow(10, top - 1)
      requires Shift(bits, 10, top - 1) < 10 && (top == 1 || 0 < Shift(bits, 10, top - 1))
      modifies this
      ensures out == old(out) + Padded(f, fill, SignedSign(f, bits), Numeral(bits, 10, 'a'))
    {
      PadBefore(f, fill);
      PutSign(f, Signed(bits));
      PadZeros(f, fill);
      PutDigits(bits, 10, 'a', div, top);
      PadAfter(f, fill);
      PaddedParts(old(out), f, fill, SignedSign(f, bits), Numeral(bits, 10, 'a'));
    }

    /** The branch for %d and %i. */
    method PutSigned(s: Spec, bits: uint32, room: nat) returns (ok: bool, n: nat)
      requires ValidSpec(s)
      modifies this
      ensures Printed(SignedText(s, bits), room, ok, n, old(out), out)
    {
      ghost var top;
      var div, len, width;
      div, top, len, width := MeasureSigned(s, bits);
      if room < width {
        return false, 0;
      }
      EmitSigned(s.flags, bits, div, top, width - len);
      return true, width;
    }

    method PutSign(f: Flags, num: int)
      modifies this
      ensures out == old(out) + if num < 0 then "-" else SignOf(f)
    {
      if num >= 0 {
        if f.plus {
          Print("+");
        } else if f.space {
          Print(" ");
        }
      } else {
        Print("-");
      }
    }

    method PadBefore(f: Flags, fill: nat)
      modifies this
      ensures out == old(out) + Before(f, fill)
    {
      if !(f.left || f.zero) {
        Fill(' ', fill);
      }
    }

    method PadZeros(f: Flags, fill: nat)
      modifies this
      ensures out == old(out) + Zeros(f, fill)
    {
      if !f.left && f.zero {
        Fill('0', fill);
      }
    }

    method PadAfter(f: Flags, fill: nat)
      modifies this
      ensures out == old(out) + After(f, fill)
    {
      if f.left {
        Fill(' ', fill);
      }
    }

    /** The sign and the prefix of the # flag. */
    method PutMarks(f: Flags, mark: char)
      modifies this
      ensures out == old(out) + UnsignedHead(f, mark)
    {
      if f.plus {
        Print("+");
      } else if f.space {
        Print(" ");
      }
      if f.alt {
        Print("0");
        Print([mark]);
      }
    }

    /** The branch for %c. */
    method PutChar(s: Spec, bits: uint32, room: nat) returns (ok: bool, n: nat)
      modifies this
      ensures Printed(CharText(s, bits), room, ok, n, old(out), out)
    {
      var c := (bits % 0x100) as char;
      var width := s.width;
      if width < 1 {
        width := 1;
      }
      if room < width {
        return false, 0;
      }
      if !s.flags.left {
        Fill(' ', width - 1);
      }
      Print([c]);
      if s.flags.left {
        Fill(' ', width - 1);
      }
      return true, width;
    }

    /** The branch for %s. */
    method PutString(s: Spec, str: string, room: nat) returns (ok: bool, n: nat)
      requires ValidSpec(s)
      modifies this
      ensures Printed(StringText(s, str), room, ok, n, old(out), out)
    {
      var len, width := |str|, Unsigned(s.width);
      if len > width {
        width := len;
      }
      if s.precision >= 0 && s.precision < width && s.width >= 0 {
        width := s.precision;
      }
      if s.precision >= 0 && s.precision < len {
        len, width := s.precision, s.precision;
      }
      if room < width {
        return false, 0;
      }
      if len < width {
        if s.flags.left {
          Print(str[..len]);
          Fill(' ', width - len);
        } else {
          Fill(' ', width - len);
          Print(str[..len]);
        }
      } else {
        Print(str[..len]);
      }
      return true, width;
    }

    /** The branches on the conversion character. stuck is set where the argument is missing or
        of the wrong type, ok cleared where printf returns -1. */
    method PutConversion(f: string, start: nat, d: Directive, args: seq<Arg>, room: nat)
      returns (stuck: bool, ok: bool, n: nat, next: nat, arg: nat)
      requires start < d.at <= |f| && ValidSpec(d.spec)
      modifies this
      ensures stuck <==> Convert(f, start, d, args).None?
      ensures stuck ==> out == old(out)
      ensures !stuck ==> var p := Convert(f, start, d, args).value;
        next == p.next && arg == p.arg && Printed(p.text, room, ok, n, old(out), out)
    {
      var c := At(f, d.at);
      stuck, ok, n, next, arg := false, true, 0, d.at + 1, d.arg + 1;
      if c in {'c', 'o', 'x', 'X', 'u', 'd', 'i'} {
        if d.arg >= |args| || args[d.arg].Str? {
          stuck := true;
          return;
        }
        var bits := args[d.arg].bits;
        if c == 'c' {
          ok, n := PutChar(d.spec, bits, room);
        } else if IsUnsigned(c) {
          ok, n := PutUnsigned(d.spec, bits, BaseOf(c), LetterOf(c), MarkOf(f, d.at), room);
        } else {
          ok, n := PutSigned(d.spec, bits, room);
        }
      } else if c == 's' {
        if d.arg >= |args| || args[d.arg].Num? {
          stuck := true;
          return;
        }
        ok, n := PutString(d.spec, args[d.arg].s, room);
      } else {
        next, arg, n := |f|, d.arg, |f| - start;
        ok := room >= n;
        if ok {
          Print(f[start..]);
        }
      }
    }

    // ---- reading the format

    method ScanFlags(f: string, i: nat) returns (flags: Flags, next: nat)
      requires i <= |f|
      ensures (flags, next) == ReadFlags(f, i, NO_FLAGS) && i <= next <= |f|
    {
      flags, next := NO_FLAGS, i;
      while IsFlag(At(f, next))
        invariant i <= next <= |f| && ReadFlags(f, next, flags) == ReadFlags(f, i, NO_FLAGS)
        decreases |f| - next
      {
        flags := AddFlag(flags, f[next]);
        next := next + 1;
      }
    }

    /** A width or a precision: * or a run of digits. */
    method ScanInt(f: string, i: nat, args: seq<Arg>, a: nat) returns (r: Option<IntAt>)
      requires i <= |f|
      ensures r == ReadInt(f, i, args, a)
    {
      if At(f, i) == '*' {
        if a < |args| && args[a].Num? {
          return Some(IntAt(Signed(args[a].bits), i + 1, a + 1));
        }
        return None;
      }
      var len := 0;
      while IsDigit(At(f, i + len))
        invariant i + len <= |f| && DigitsEnd(f, i + len) == DigitsEnd(f, i)
        decreases |f| - i - len
      {
        len := len + 1;
      }
      if len > 255 || Decimal(f[i..i + len]) > INT_MAX {
        return None;
      }
      var n := ParseInt(f[i..i + len]);
      r := Some(IntAt(n, i + len, a));
    }

    method ScanLength(f: string, i: nat) returns (next: nat)
      requires i <= |f|
      ensures next == SkipLength(f, i)
    {
      next := i;
      while At(f, next) == 'h'
        invariant i <= next <= |f| && SkipAll(f, next, 'h') == SkipAll(f, i, 'h')
        decreases |f| - next
      {
        next := next + 1;
      }
      ghost var j := next;
      while At(f, next) == 'l'
        invariant j <= next <= |f| && SkipAll(f, next, 'l') == SkipAll(f, j, 'l')
        decreases |f| - next
      {
        next := next + 1;
      }
      if At(f, next) in {'j', 'z', 't', 'L'} {
        next := next + 1;
      }
    }

    method ScanDirective(f: string, i: nat, args: seq<Arg>, a: nat) returns (d: Option<Directive>)
      requires i <= |f|
      ensures d == ReadDirective(f, i, args, a)
    {
      var flags, next := ScanFlags(f, i);
      var width := ScanInt(f, next, args, a);
      if width.None? {
        return None;
      }
      next := width.value.next;
      var arg, precision := width.value.arg, -1;
      if At(f, next) == '.' {
        var r := ScanInt(f, next + 1, args, arg);
        if r.None? {
          return None;
        }
        precision, next, arg := r.value.value, r.value.next, r.value.arg;
      }
      next := ScanLength(f, next);
      d := Some(Directive(Spec(flags, width.value.value, precision), next, arg));
    }

    /** The loop over a literal stretch that starts at place `from`. */
    method LiteralLength(f: CString, from: nat) returns (amount: nat)
      requires from < |f|
      ensures from + amount == LiteralEnd(f, from + 1)
    {
      amount := 1;
      while At(f, from + amount) != '\0' && At(f, from + amount) != '%'
        invariant 1 <= amount && from + amount <= |f| && LiteralEnd(f, from + amount) == LiteralEnd(f, from + 1)
        decreases |f| - from - amount
      {
        amount := amount + 1;
      }
    }

    /** One round of the main loop. */
    method PutPiece(f: CString, i: nat, args: seq<Arg>, a: nat, room: nat)
      returns (stuck: bool, ok: bool, n: nat, next: nat, arg: nat, ghost p: Option<Piece>)
      requires i < |f|
      modifies this
      ensures p == NextPiece(f, i, args, a) && (stuck <==> p.None?)
      ensures stuck ==> out == old(out)
      ensures !stuck ==> i < next <= |f| && p.value == Piece(p.value.text, next, arg)
      ensures !stuck ==> Printed(p.value.text, room, ok, n, old(out), out)
    {
      p := NextPiece(f, i, args, a);
      if f[i] != '%' || At(f, i + 1) == '%' {
        ok, n, next := PutLiteral(f, i, room);
        stuck, arg := false, a;
        LiteralPiece(f, i, args, a);
      } else {
        var d := ScanDirective(f, i + 1, args, a);
        ConversionPiece(f, i, args, a);
        if d.None? {
          return true, false, 0, 0, 0, p;
        }
        stuck, ok, n, next, arg := PutConversion(f, i, d.value, args, room);
      }
    }

    /** A literal stretch; %% stands for one %. */
    method PutLiteral(f: CString, i: nat, room: nat) returns (ok: bool, n: nat, next: nat)
      requires i < |f| && IsLiteral(f, i)
      modifies this
      ensures next == LiteralEnd(f, LiteralStart(f, i) + 1)
      ensures Printed(f[LiteralStart(f, i)..next], room, ok, n, old(out), out)
    {
      var from := i;
      if f[i] == '%' {
        from := from + 1;
      }
      var amount := LiteralLength(f, from);
      ok, n, next := room >= amount, amount, from + amount;
      if ok {
        Print(f[from..next]);
      }
    }

    /** The piece as the next one of the script. */
    method PutNext(f: CString, i: nat, args: seq<Arg>, a: nat, room: nat, ghost script: Script)
      returns (stuck: bool, ok: bool, n: nat, next: nat, arg: nat)
      requires i < |f| && script == ScriptOf(f, i, args, a)
      modifies this
      ensures if stuck then script == Stuck && out == old(out)
              else script.Text? && i < next <= |f| && script.rest == ScriptOf(f, next, args, arg)
                   && Printed(script.text, room, ok, n, old(out), out)
    {
      ghost var p;
      stuck, ok, n, next, arg, p := PutPiece(f, i, args, a, room);
      ScriptStep(f, i, args, a, p);
    }

    /** The same round with the count; a result ends printf. `script` is what is left to write. */
    method Round(f: CString, i: nat, args: seq<Arg>, a: nat, written: nat, ghost script: Script)
      returns (result: Option<Result>, next: nat, arg: nat, total: nat, ghost rest: Script)
      requires i < |f| && script == ScriptOf(f, i, args, a) && written <= INT_MAX
      modifies this
      ensures Progress(old(out), script, written, result, out, rest, total)
      ensures result.None? ==> i < next <= |f| && rest == ScriptOf(f, next, args, arg)
    {
      ghost var before := out;
      var stuck, ok, n;
      stuck, ok, n, next, arg := PutNext(f, i, args, a, INT_MAX - written, script);
      result, total, rest := None, written, End;
      if stuck {
        result := Some(Undefined);
      } else if !ok {
        result := Some(Returned(-1));
      } else {
        total, rest := written + n, script.rest;
      }
    }

    method Printf(f: CString, args: seq<Arg>) returns (r: Result)
      modifies this
      ensures (out, r) == Finish(old(out), ScriptOf(f, 0, args, 0), 0)
    {
      var i: nat, a: nat, written: nat := 0, 0, 0;
      ghost var script := ScriptOf(f, 0, args, 0);
      ghost var goal := Finish(out, script, 0);
      while i < |f|
        invariant i <= |f| && script == ScriptOf(f, i, args, a) && written <= INT_MAX
        invariant Finish(out, script, written) == goal
        decreases |f| - i
      {
        ghost var before := out;
        var result, next, arg, total;
        ghost var rest;
        result, next, arg, total, rest := Round(f, i, args, a, written, script);
        ProgressKeepsFinish(before, script, written, result, out, rest, total);
        if result.Some? {
          return result.value;
        }
        i, a, written, script := next, arg, total, rest;
      }
      FinishEnd(out, written);
      r := Returned(written);
    }
  }

  /** The whole output and the result when `out` is written and the script is left. */
  function Finish(out: string, s: Script, written: nat): (string, Result)
    requires written <= INT_MAX
  {
    (out + Play(s, written).0, Play(s, written).1)
  }

  lemma FinishEnd(out: string, written: nat)
    requires written <= INT_MAX
    ensures Finish(out, End, written) == (out, Returned(written))
  {
    assert out + "" == out;
  }

  lemma ScriptStep(f: string, i: nat, args: seq<Arg>, a: nat, p: Option<Piece>)
    requires i < |f| && p == NextPiece(f, i, args, a)
    ensures ScriptOf(f, i, args, a) ==
            match p
            case None => Stuck
            case Some(q) => Text(q.text, ScriptOf(f, q.next, args, q.arg))
  {
  }

  /** One round: the next text is written and counted, or there is no room for it, or the
      behaviour is undefined. */
  ghost predicate Progress(before: string, s: Script, written: nat, result: Option<Result>, out: string, rest: Script,
                           total: nat) {
    match s
    case End => false
    case Stuck => out == before && result == Some(Undefined)
    case Text(text, tail) =>
      if INT_MAX < written + |text| then out == before && result == Some(Returned(-1))
      else out == before + text && result == None && rest == tail && total == written + |text|
  }

  lemma ProgressKeepsFinish(before: string, s: Script, written: nat, result: Option<Result>, out: string,
                            rest: Script, total: nat)
    requires written <= INT_MAX && Progress(before, s, written, result, out, rest, total)
    ensures match result
            case Some(r) => Finish(before, s, written) == (out, r)
            case None => total <= INT_MAX && Finish(before, s, written) == Finish(out, rest, total)
  {
    if result.Some? {
      assert before + "" == before;
    } else {
      assert before + (s.text + Play(rest, total).0) == (before + s.text) + Play(rest, total).0;
    }
  }
}

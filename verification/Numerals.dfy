/** Positional numerals, and the loops that libc/stdio/printf.c uses to read and write them. */
module Numerals {
  import opened Page

  const INT_MAX: nat := 0x7FFF_FFFF

  /** The digit d; letter is the digit for ten. */
  function DigitChar(d: nat, letter: char): char
    requires d < 16 && letter in {'a', 'A'}
  {
    if d < 10 then '0' + d as char else letter + (d - 10) as char
  }

  /** The canonical numeral: no leading zero. */
  function Numeral(n: nat, base: nat, letter: char): (s: string)
    requires 2 <= base <= 16 && letter in {'a', 'A'}
    ensures s != []
  {
    if n < base then [DigitChar(n, letter)] else Numeral(n / base, base, letter) + [DigitChar(n % base, letter)]
  }

  function DigitValue(c: char, letter: char): int {
    if '0' <= c <= '9' then c as int - '0' as int else c as int - letter as int + 10
  }

  function Value(s: string, base: nat, letter: char): int {
    if s == [] then 0 else base * Value(s[..|s| - 1], base, letter) + DigitValue(s[|s| - 1], letter)
  }

  lemma DigitsInOrder(d: nat)
    requires d < 16
    ensures DigitChar(d, 'a') == "0123456789abcdef"[d] && DigitChar(d, 'A') == "0123456789ABCDEF"[d]
  {
  }

  lemma DigitRoundTrip(d: nat, letter: char)
    requires d < 16 && letter in {'a', 'A'}
    ensures DigitValue(DigitChar(d, letter), letter) == d
  {
  }

  lemma DigitZero(d: nat, letter: char)
    requires d < 16 && letter in {'a', 'A'}
    ensures DigitChar(d, letter) == '0' <==> d == 0
  {
  }

  lemma ValueStep(s: string, d: nat, base: nat, letter: char)
    requires d < 16 && letter in {'a', 'A'}
    ensures Value(s + [DigitChar(d, letter)], base, letter) == base * Value(s, base, letter) + d
  {
    DigitRoundTrip(d, letter);
    assert (s + [DigitChar(d, letter)])[..|s|] == s;
  }

  lemma {:induction false} NumeralDenotes(n: nat, base: nat, letter: char)
    requires 2 <= base <= 16 && letter in {'a', 'A'}
    ensures Value(Numeral(n, base, letter), base, letter) == n
    decreases n
  {
    if n >= base {
      Split(n, base);
      NumeralDenotes(n / base, base, letter);
      NextDigit(n, base, letter);
    } else {
      OneDigit(n, base, letter);
    }
  }

  lemma NextDigit(n: nat, base: nat, letter: char)
    requires 2 <= base <= 16 && letter in {'a', 'A'} && base <= n
    requires Value(Numeral(n / base, base, letter), base, letter) == n / base
    ensures Value(Numeral(n, base, letter), base, letter) == n
  {
    var s, d := Numeral(n / base, base, letter), n % base;
    ValueStep(s, d, base, letter);
    Split(n, base);
    assert Numeral(n, base, letter) == s + [DigitChar(d, letter)];
  }

  lemma OneDigit(n: nat, base: nat, letter: char)
    requires 2 <= base <= 16 && letter in {'a', 'A'} && n < base
    ensures Value(Numeral(n, base, letter), base, letter) == n
  {
    ValueStep([], n, base, letter);
    assert [] + [DigitChar(n, letter)] == [DigitChar(n, letter)];
  }

  lemma FirstDigit(n: nat, base: nat, letter: char)
    requires 2 <= base <= 16 && letter in {'a', 'A'} && base <= n
    ensures Numeral(n, base, letter)[0] == Numeral(n / base, base, letter)[0]
  {
    assert Numeral(n, base, letter) == Numeral(n / base, base, letter) + [DigitChar(n % base, letter)];
  }

  lemma {:induction false} NoLeadingZero(n: nat, base: nat, letter: char)
    requires 2 <= base <= 16 && letter in {'a', 'A'}
    ensures Numeral(n, base, letter)[0] == '0' <==> n == 0
    decreases n
  {
    if n >= base {
      Split(n, base);
      NoLeadingZero(n / base, base, letter);
      FirstDigit(n, base, letter);
    } else {
      DigitZero(n, letter);
    }
  }

  /** The numeral of n denotes n, and starts with 0 only for n = 0. */
  lemma NumeralIsCanonical(n: nat, base: nat, letter: char)
    requires 2 <= base <= 16 && letter in {'a', 'A'}
    ensures Value(Numeral(n, base, letter), base, letter) == n
    ensures Numeral(n, base, letter)[0] == '0' <==> n == 0
  {
    NumeralDenotes(n, base, letter);
    NoLeadingZero(n, base, letter);
  }

  function Pow(base: nat, k: nat): nat {
    if k == 0 then 1 else base * Pow(base, k - 1)
  }

  lemma {:induction false} PowPositive(base: nat, k: nat)
    requires 2 <= base
    ensures 0 < Pow(base, k) && (k > 0 ==> base <= Pow(base, k))
  {
    if k > 0 {
      PowPositive(base, k - 1);
      Scale(1, Pow(base, k - 1), base);
    }
  }

  lemma Scale(a: nat, b: nat, c: nat)
    requires a <= b
    ensures a * c <= b * c && c * a <= c * b
  {
  }

  lemma Regroup(d: nat, b: nat, r: nat, t: nat)
    ensures d * (b * r + t) == d * b * r + d * t
  {
  }

  lemma Split(n: nat, b: nat)
    requires 0 < b
    ensures n == b * (n / b) + n % b && n % b < b && (n < b <==> n / b == 0)
  {
  }

  lemma DivMul(n: nat, d: nat, b: nat)
    requires 0 < d && 0 < b
    ensures 0 < d * b && n / d / b == n / (d * b)
  {
    var q, m := n / d, n % d;
    var r, t := q / b, q % b;
    Split(n, d);
    Split(q, b);
    Regroup(d, b, r, t);
    Scale(t, b - 1, d);
    DivSplit(n, d, b, q, m, r, t);
  }

  lemma DivSplit(n: nat, d: nat, b: nat, q: nat, m: nat, r: nat, t: nat)
    requires n == d * q + m && m < d && q == b * r + t && t < b && 0 < d
    requires d * q == d * b * r + d * t && d * t <= d * (b - 1)
    ensures 0 < d * b && n / (d * b) == r
  {
    assert d * (b - 1) == d * b - d;
    Quotient(n, d * b, r, d * t + m);
  }

  /** n without its k lowest digits */
  function Shift(n: nat, base: nat, k: nat): nat
    requires 2 <= base
  {
    if k == 0 then n else Shift(n, base, k - 1) / base
  }

  lemma {:induction false} ShiftIsDivision(n: nat, base: nat, k: nat)
    requires 2 <= base
    ensures 0 < Pow(base, k) && n / Pow(base, k) == Shift(n, base, k)
  {
    if k > 0 {
      ShiftIsDivision(n, base, k - 1);
      DivMul(n, Pow(base, k - 1), base);
    }
  }

  /** Writing the digits from the highest down builds the numeral. */
  lemma NumeralGrows(n: nat, base: nat, letter: char, k: nat)
    requires 2 <= base <= 16 && letter in {'a', 'A'} && base <= Shift(n, base, k)
    ensures Numeral(Shift(n, base, k), base, letter) ==
            Numeral(Shift(n, base, k + 1), base, letter) + [DigitChar(Shift(n, base, k) % base, letter)]
  {
  }

  lemma {:induction false} NumeralLength(n: nat, base: nat, letter: char, k: nat)
    requires 2 <= base <= 16 && letter in {'a', 'A'}
    requires Shift(n, base, k) < base && (k == 0 || 0 < Shift(n, base, k))
    ensures |Numeral(n, base, letter)| == k + 1
    decreases k
  {
    if k > 0 {
      ShiftFront(n, base, k);
      ShiftZero(base, k - 1);
      Split(n, base);
      NumeralLength(n / base, base, letter, k - 1);
    }
  }

  lemma {:induction false} ShiftFront(n: nat, base: nat, k: nat)
    requires 2 <= base && k > 0
    ensures Shift(n, base, k) == Shift(n / base, base, k - 1)
  {
    if k > 1 { ShiftFront(n, base, k - 1); }
  }

  lemma {:induction false} ShiftZero(base: nat, k: nat)
    requires 2 <= base
    ensures Shift(0, base, k) == 0
  {
    if k > 0 { ShiftZero(base, k - 1); }
  }

  // ---- the division loops of printf

  /** The bases printf writes. */
  predicate PrintfBase(base: nat) { base == 8 || base == 10 || base == 16 }

  /** The loop that finds the highest power of the base not above num; div never overflows. */
  method TopPower(num: uint32, base: nat) returns (div: uint32, len: nat)
    requires PrintfBase(base)
    ensures 0 < len && div == Pow(base, len - 1) && Shift(num, base, len - 1) < base
    ensures len == 1 || 0 < Shift(num, base, len - 1)
  {
    div, len := 1, 1;
    while num / div > base - 1
      invariant 0 < len && 0 < div && div == Pow(base, len - 1) && num / div == Shift(num, base, len - 1)
      invariant len == 1 || 0 < Shift(num, base, len - 1)
      decreases num - div
    {
      TopStep(num, div, base, len);
      div := div * base;
      len := len + 1;
    }
  }

  lemma TopStep(num: uint32, div: nat, base: nat, len: nat)
    requires PrintfBase(base) && 0 < len && div == Pow(base, len - 1) && 0 < div && num / div > base - 1
    ensures div < div * base <= num && div * base == Pow(base, len)
    ensures num / (div * base) == Shift(num, base, len) && 0 < Shift(num, base, len)
  {
    var p := Pow(base, len);
    NextPower(num, div, base);
    PowStep(base, len);
    ShiftIsDivision(num, base, len);
    AtLeastOne(num, p);
  }

  lemma PowStep(base: nat, len: nat)
    requires 0 < len
    ensures Pow(base, len) == Pow(base, len - 1) * base
  {
  }

  lemma AtLeastOne(n: nat, d: nat)
    requires 0 < d <= n
    ensures 0 < n / d
  {
  }

  lemma NextPower(num: uint32, div: nat, base: nat)
    requires 0 < div && 2 <= base && num / div > base - 1
    ensures div < div * base <= num
  {
  }

  // ---- the decimal reader of printf

  predicate AllDigits(s: string) { forall i :: 0 <= i < |s| ==> '0' <= s[i] <= '9' }

  function Decimal(s: string): (v: nat)
    requires AllDigits(s)
  {
    if s == [] then 0 else 10 * Decimal(s[..|s| - 1]) + (s[|s| - 1] as int - '0' as int)
  }

  lemma {:induction false} NumeralDigits(n: nat, letter: char)
    requires letter in {'a', 'A'}
    ensures AllDigits(Numeral(n, 10, letter)) && Decimal(Numeral(n, 10, letter)) == n
    decreases n
  {
    if n >= 10 {
      NumeralDigits(n / 10, letter);
      var s := Numeral(n / 10, 10, letter);
      assert (s + [DigitChar(n % 10, letter)])[..|s|] == s;
    } else {
      assert Decimal([]) == 0;
    }
  }

  /** The inner loop counts with an unsigned char: it reaches the bound m only up to 255. */
  lemma CounterReachesIff(m: nat)
    ensures (exists k: nat :: Counter(k) >= m) <==> m <= 255
  {
    assert Counter(254) == 255;
    assert forall k: nat :: Counter(k) <= 255;
  }

  /** t = 1 incremented k times */
  function Counter(k: nat): byte { (1 + k) % 256 }

  /** Value of the first i characters, in the place they have in the whole. */
  function Placed(num: string, i: nat): nat
    requires i <= |num| && AllDigits(num)
  {
    Decimal(num[..i]) * Pow(10, |num| - i)
  }

  lemma PlacedStep(num: string, i: nat)
    requires i < |num| && AllDigits(num)
    ensures Placed(num, i + 1) == Placed(num, i) + (num[i] as int - '0' as int) * Pow(10, |num| - i - 1)
  {
    var p, v, d := Pow(10, |num| - i - 1), Decimal(num[..i]), num[i] as int - '0' as int;
    assert num[..i + 1][..i] == num[..i];
    assert Pow(10, |num| - i) == 10 * p;
    assert (10 * v + d) * p == v * (10 * p) + d * p;
  }

  lemma {:induction false} PlacedGrows(num: string, i: nat)
    requires i <= |num| && AllDigits(num)
    ensures Placed(num, i) <= Decimal(num)
    decreases |num| - i
  {
    if i < |num| {
      PlacedStep(num, i);
      PowPositive(10, |num| - i - 1);
      Scale(0, num[i] as int - '0' as int, Pow(10, |num| - i - 1));
      PlacedGrows(num, i + 1);
    } else {
      assert num[..i] == num;
    }
  }

  /** One digit times the power of ten of its place. */
  method PlaceDigit(digit: nat, zeros: nat) returns (v: nat)
    requires zeros < 255
    ensures v == digit * Pow(10, zeros)
  {
    v := digit;
    var t: byte := 1;
    while t < zeros + 1
      invariant 1 <= t <= zeros + 1 && v == digit * Pow(10, t - 1)
    {
      Regroup(digit, 10, Pow(10, t - 1), 0);
      assert digit * 10 * Pow(10, t - 1) == v * 10;
      v := v * 10;
      t := t + 1;
    }
  }

  /** parseInt reads every run of at most 255 digits whose value is an int. */
  method ParseInt(num: string) returns (n: nat)
    requires AllDigits(num) && |num| <= 255 && Decimal(num) <= INT_MAX
    ensures n == Decimal(num)
  {
    n := 0;
    var i := 0;
    assert Placed(num, 0) == 0;
    while i < |num|
      invariant i <= |num| && n == Placed(num, i) <= INT_MAX
    {
      var digit := PlaceDigit(num[i] as int - '0' as int, |num| - i - 1);
      PlacedStep(num, i);
      PlacedGrows(num, i + 1);
      n := n + digit;
      i := i + 1;
    }
    assert num[..i] == num;
  }

  /** parseInt gives back every int that %u prints. */
  lemma ParseReadsNumeral(n: nat)
    requires n <= INT_MAX
    ensures var s := Numeral(n, 10, 'a'); AllDigits(s) && |s| <= 255 && Decimal(s) == n
  {
    NumeralDigits(n, 'a');
    ShortNumeral(n, 10);
  }

  lemma {:induction false} ShortNumeral(n: nat, k: nat)
    requires 0 < k && n < Pow(10, k)
    ensures |Numeral(n, 10, 'a')| <= k
    decreases k
  {
    if n >= 10 {
      Split(n, 10);
      ShortNumeral(n / 10, k - 1);
    }
  }
}

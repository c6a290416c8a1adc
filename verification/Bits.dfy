/** Bitwise operations on machine words, defined by their binary digits. */
module Bits {
  import opened Page

  const FULL: uint32 := 0xFFFF_FFFF

  /** Digit b of w. */
  predicate Bit(w: nat, b: nat)
    decreases b
  {
    if b == 0 then w % 2 == 1 else Bit(w / 2, b - 1)
  }

  /** 1 << b */
  function Pow2(b: nat): nat {
    if b == 0 then 1 else 2 * Pow2(b - 1)
  }

  function And(a: nat, b: nat): nat {
    if a == 0 || b == 0 then 0 else (if a % 2 == 1 && b % 2 == 1 then 1 else 0) + 2 * And(a / 2, b / 2)
  }

  function Or(a: nat, b: nat): nat {
    if a == 0 && b == 0 then 0 else (if a % 2 == 1 || b % 2 == 1 then 1 else 0) + 2 * Or(a / 2, b / 2)
  }

  /** ~w */
  function Not(w: uint32): uint32 {
    FULL - w
  }

  lemma {:induction false} ZeroBit(b: nat)
    ensures !Bit(0, b)
  {
    if b > 0 { ZeroBit(b - 1); }
  }

  lemma {:induction false} Pow2Bit(b: nat, c: nat)
    ensures Bit(Pow2(b), c) <==> b == c
  {
    if c > 0 {
      if b == 0 { ZeroBit(c - 1); } else { Pow2Bit(b - 1, c - 1); }
    }
  }

  lemma {:induction false} AndBit(a: nat, b: nat, c: nat)
    ensures Bit(And(a, b), c) <==> Bit(a, c) && Bit(b, c)
    decreases c
  {
    if a == 0 || b == 0 {
      ZeroBit(c);
    } else if c > 0 {
      assert And(a, b) / 2 == And(a / 2, b / 2);
      AndBit(a / 2, b / 2, c - 1);
    }
  }

  lemma {:induction false} OrBit(a: nat, b: nat, c: nat)
    ensures Bit(Or(a, b), c) <==> Bit(a, c) || Bit(b, c)
    decreases c
  {
    if a == 0 && b == 0 {
      ZeroBit(c);
    } else if c > 0 {
      assert Or(a, b) / 2 == Or(a / 2, b / 2);
      OrBit(a / 2, b / 2, c - 1);
    }
  }

  lemma {:induction false} ComplementBit(w: nat, n: nat, c: nat)
    requires w < Pow2(n) && c < n
    ensures Bit(Pow2(n) - 1 - w, c) <==> !Bit(w, c)
    decreases n
  {
    var v := Pow2(n) - 1 - w;
    assert v / 2 == Pow2(n - 1) - 1 - w / 2;
    if c > 0 {
      ComplementBit(w / 2, n - 1, c - 1);
    }
  }

  lemma WordRange()
    ensures Pow2(32) == LIMIT
  {
    assert Pow2(8) == 256;
    assert Pow2(16) == 0x1_0000;
    assert Pow2(24) == 0x100_0000;
  }

  lemma NotBit(w: uint32, c: nat)
    requires c < 32
    ensures Bit(Not(w), c) <==> !Bit(w, c)
  {
    WordRange();
    ComplementBit(w, 32, c);
  }

  lemma {:induction false} OrRange(a: nat, b: nat, n: nat)
    requires a < Pow2(n) && b < Pow2(n)
    ensures Or(a, b) < Pow2(n)
    decreases n
  {
    if n > 0 { OrRange(a / 2, b / 2, n - 1); }
  }

  lemma {:induction false} AndRange(a: nat, b: nat)
    ensures And(a, b) <= a && And(a, b) <= b
  {
    if a != 0 && b != 0 { AndRange(a / 2, b / 2); }
  }

  lemma {:induction false} SameBits(a: nat, b: nat, n: nat)
    requires a < Pow2(n) && b < Pow2(n) && forall c :: 0 <= c < n ==> Bit(a, c) == Bit(b, c)
    ensures a == b
    decreases n
  {
    if n > 0 {
      assert Bit(a, 0) == Bit(b, 0);
      forall c | 0 <= c < n - 1
        ensures Bit(a / 2, c) == Bit(b / 2, c)
      {
        assert Bit(a, c + 1) == Bit(b, c + 1);
      }
      SameBits(a / 2, b / 2, n - 1);
    }
  }

  lemma FullBit(b: nat)
    requires b < 32
    ensures Bit(FULL, b)
  {
    ZeroBit(b);
    NotBit(0, b);
  }

  /** All 32 digits of w are 1. */
  ghost predicate AllSet(w: uint32) {
    forall b: nat :: b < 32 ==> Bit(w, b)
  }

  /** The word with all digits set is FULL. */
  lemma FullIff(w: uint32)
    ensures w == FULL <==> AllSet(w)
  {
    WordRange();
    forall b: nat | b < 32
      ensures Bit(FULL, b)
    {
      FullBit(b);
    }
    if AllSet(w) {
      SameBits(w, FULL, 32);
    }
  }

  /** Testing a word against a one-bit mask reads one digit. */
  lemma {:induction false} MaskTest(w: nat, b: nat)
    ensures And(w, Pow2(b)) != 0 <==> Bit(w, b)
    decreases b
  {
    if b == 0 {
      assert Pow2(0) / 2 == 0;
    } else if w == 0 {
      ZeroBit(b);
    } else {
      MaskTest(w / 2, b - 1);
    }
  }

  lemma {:induction false} Pow2Range(b: nat)
    requires b < 32
    ensures 1 <= Pow2(b) && 2 * Pow2(b) <= LIMIT
    decreases 32 - b
  {
    WordRange();
    if b < 31 { Pow2Range(b + 1); }
  }

  // ---- on 32-bit words

  function Or32(a: uint32, b: uint32): uint32 {
    WordRange();
    OrRange(a, b, 32);
    Or(a, b)
  }

  function And32(a: uint32, b: uint32): uint32 {
    AndRange(a, b);
    And(a, b)
  }

  function Mask(b: nat): uint32
    requires b < 32
  {
    Pow2Range(b);
    Pow2(b)
  }

  /** The digits lo..hi of w are 1 and no others. */
  ghost predicate HasBits(w: uint32, lo: nat, hi: nat) {
    forall c: nat :: c < 32 ==> (Bit(w, c) <==> lo <= c < hi)
  }

  lemma MaskHasBit(b: nat)
    requires b < 32
    ensures HasBits(Mask(b), b, b + 1)
  {
    forall c: nat | c < 32
      ensures Bit(Mask(b), c) <==> c == b
    {
      Pow2Bit(b, c);
    }
  }

  lemma ExtendBits(w: uint32, lo: nat, hi: nat)
    requires lo <= hi < 32 && HasBits(w, lo, hi)
    ensures HasBits(Or32(w, Mask(hi)), lo, hi + 1)
  {
    forall c: nat | c < 32
      ensures Bit(Or32(w, Mask(hi)), c) <==> lo <= c < hi + 1
    {
      OrBit(w, Mask(hi), c);
      Pow2Bit(hi, c);
    }
  }

  lemma NoBits(lo: nat)
    ensures HasBits(0, lo, lo)
  {
    forall c: nat | c < 32
      ensures !Bit(0, c)
    {
      ZeroBit(c);
    }
  }

  lemma FullStaysFull(u: uint32)
    ensures Or32(FULL, u) == FULL
  {
    forall c: nat | c < 32
      ensures Bit(Or32(FULL, u), c)
    {
      OrBit(FULL, u, c);
      FullBit(c);
    }
    FullIff(Or32(FULL, u));
  }

  /** Doubling the mask moves on to the next digit; some digit of a word that is not full is 0. */
  lemma NextMask(b: nat)
    requires b < 31
    ensures Mask(b + 1) == 2 * Mask(b)
  {
  }
}

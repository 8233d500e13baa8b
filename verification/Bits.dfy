/** Bit operations of unsigned integers, on numbers. */
module Bits {

  function And(a: nat, b: nat): (r: nat)
    ensures r <= a && r <= b
  {
    if a == 0 || b == 0 then 0
    else (if a % 2 == 1 && b % 2 == 1 then 1 else 0) + 2 * And(a / 2, b / 2)
  }

  function Or(a: nat, b: nat): nat
    decreases a + b
  {
    if a == 0 then b
    else if b == 0 then a
    else (if a % 2 == 1 || b % 2 == 1 then 1 else 0) + 2 * Or(a / 2, b / 2)
  }

  function Shl(a: nat, n: nat): nat {
    if n == 0 then a else 2 * Shl(a, n - 1)
  }

  function Shr(a: nat, n: nat): nat {
    if n == 0 then a else Shr(a / 2, n - 1)
  }

  /** `n` ones. */
  function Ones(n: nat): nat {
    if n == 0 then 0 else 2 * Ones(n - 1) + 1
  }

  lemma {:induction false} AndOnes(a: nat, n: nat)
    ensures And(a, Ones(n)) + Shl(Shr(a, n), n) == a
  {
    if n > 0 {
      AndOnes(a / 2, n - 1);
    }
  }

  lemma {:induction false} AndShl(a: nat, mask: nat, n: nat)
    ensures And(a, Shl(mask, n)) == Shl(And(Shr(a, n), mask), n)
  {
    if n > 0 {
      AndShl(a / 2, mask, n - 1);
    }
  }

  /** Filling the bits that a shift leaves empty is addition. */
  lemma {:induction false} OrShl(high: nat, low: nat, n: nat)
    requires low <= Ones(n)
    ensures Or(Shl(high, n), low) == Shl(high, n) + low
    decreases n
  {
    if n > 0 {
      OrShl(high, low / 2, n - 1);
    }
  }

  lemma {:induction false} ShrStep(a: nat, n: nat)
    requires n > 0
    ensures Shr(a, n) == Shr(a, n - 1) / 2
  {
    if n > 1 {
      ShrStep(a / 2, n - 1);
    }
  }

  /** The shifts of the UTF-8 decoder are multiplication and division. */
  lemma Shifts(a: nat)
    ensures Shr(a, 3) == a / 8 && Shr(a, 4) == a / 16 && Shr(a, 5) == a / 32 && Shr(a, 6) == a / 64
    ensures Shl(a, 3) == 8 * a && Shl(a, 4) == 16 * a && Shl(a, 5) == 32 * a && Shl(a, 6) == 64 * a
  {
    ShrStep(a, 1);
    ShrStep(a, 2);
    ShrStep(a, 3);
    ShrStep(a, 4);
    ShrStep(a, 5);
    ShrStep(a, 6);
    assert Shl(a, 1) == 2 * a;
    assert Shl(a, 2) == 4 * a;
    assert Shl(a, 3) == 8 * a;
    assert Shl(a, 4) == 16 * a;
    assert Shl(a, 5) == 32 * a;
  }

  lemma OnesAre()
    ensures Ones(2) == 0x03 && Ones(3) == 0x07 && Ones(4) == 0x0F && Ones(5) == 0x1F && Ones(6) == 0x3F
  {
  }

  lemma {:induction false} AllBits(a: nat, n: nat)
    requires a <= Ones(n)
    ensures And(a, Ones(n)) == a
  {
    if n > 0 {
      AllBits(a / 2, n - 1);
    }
  }

  /** The masks that keep the low bits of a number. */
  lemma LowMasks(c: nat)
    ensures And(c, 0x07) == c % 8 && And(c, 0x0F) == c % 16 && And(c, 0x1F) == c % 32 && And(c, 0x3F) == c % 64
  {
    OnesAre();
    Shifts(c);
    Shifts(c / 8);
    Shifts(c / 16);
    Shifts(c / 32);
    Shifts(c / 64);
    AndOnes(c, 3);
    AndOnes(c, 4);
    AndOnes(c, 5);
    AndOnes(c, 6);
  }

  lemma HighMask(c: nat, n: nat, m: nat)
    requires Shr(c, n) <= Ones(m)
    ensures And(c, Shl(Ones(m), n)) == Shl(Shr(c, n), n)
  {
    AndShl(c, Ones(m), n);
    AllBits(Shr(c, n), m);
  }

  /** The masks that keep the high bits of a byte. */
  lemma HighMasks(c: nat)
    requires c < 256
    ensures And(c, 0xF8) == c / 8 * 8 && And(c, 0xF0) == c / 16 * 16
    ensures And(c, 0xE0) == c / 32 * 32 && And(c, 0xC0) == c / 64 * 64
  {
    OnesAre();
    Shifts(c);
    HighMask(c, 3, 5);
    HighMask(c, 4, 4);
    HighMask(c, 5, 3);
    HighMask(c, 6, 2);
    Shifts(0x1F);
    Shifts(0x0F);
    Shifts(0x07);
    Shifts(0x03);
    Shifts(c / 8);
    Shifts(c / 16);
    Shifts(c / 32);
    Shifts(c / 64);
  }

  lemma SevenBits(a: nat)
    ensures Shr(a, 7) == a / 128 && Shl(a, 7) == 128 * a && Ones(1) == 1
  {
    Shifts(a);
    ShrStep(a, 7);
    assert Shl(a, 7) == 2 * Shl(a, 6);
  }

  /** The top bit of a byte. */
  lemma TopBit(c: nat)
    requires c < 256
    ensures And(c, 0x80) == c / 128 * 128
  {
    hide And, Shl, Shr, Ones;
    SevenBits(1);
    SevenBits(c);
    SevenBits(c / 128);
    HighMask(c, 7, 1);
  }
}

/** Arithmetic of polynomials over GF(2) modulo G = x^32 + 0x09823B6E.  A 32-bit word is read
    as a polynomial of degree below 32; its highest bit is the coefficient of x^31. */
module Polynomial {

  /** The word that generates the CRC table: the documented polynomial shifted left by one. */
  const GENERATOR: bv32 := 0x09823B6E

  predicate TopBit(c: bv32) {
    c & 0x8000_0000 != 0
  }

  /** Addition of polynomials. */
  function Plus(a: bv32, b: bv32): bv32 {
    a ^ b
  }

  /** What the coefficient of x^31 turns into when it becomes that of x^32. */
  function Carry(c: bv32): bv32 {
    if TopBit(c) then GENERATOR else 0
  }

  /** Multiplication by x modulo G. */
  function TimesX(c: bv32): bv32 {
    Plus(c << 1, Carry(c))
  }

  function TimesX8(c: bv32): bv32 {
    TimesX(TimesX(TimesX(TimesX(TimesX(TimesX(TimesX(TimesX(c))))))))
  }

  function TimesXPow(c: bv32, k: nat): bv32
    decreases k
  {
    if k == 0 then c else TimesXPow(TimesX(c), k - 1)
  }

  // Facts about single words; the named sums keep the bit-level reasoning local.

  lemma XorShift(a: bv32, b: bv32, p: bv32, q: bv32)
    requires p == a ^ b && q == (a << 1) ^ (b << 1)
    ensures p << 1 == q
  {
  }

  lemma PlusLaws(a: bv32, b: bv32)
    ensures Plus(a, b) == Plus(b, a) && Plus(Plus(a, b), b) == a
  {
  }

  lemma PlusZero(a: bv32)
    ensures Plus(a, 0) == a && Plus(0, a) == a && Plus(a, a) == 0
  {
  }

  lemma PlusIsZero(a: bv32, b: bv32)
    ensures Plus(a, b) == 0 <==> a == b
  {
    hide Plus;
    PlusLaws(a, b);
    PlusZero(b);
  }

  lemma PlusAssoc(a: bv32, b: bv32, c: bv32)
    ensures Plus(Plus(a, b), c) == Plus(a, Plus(b, c))
  {
  }

  lemma PlusSwap(a: bv32, b: bv32, c: bv32, d: bv32)
    ensures Plus(Plus(a, b), Plus(c, d)) == Plus(Plus(a, c), Plus(b, d))
  {
    hide Plus;
    PlusAssoc(a, b, Plus(c, d));
    PlusAssoc(b, c, d);
    PlusLaws(b, c);
    PlusAssoc(c, b, d);
    PlusAssoc(a, c, Plus(b, d));
  }

  lemma ShiftLinear(a: bv32, b: bv32)
    ensures Plus(a, b) << 1 == Plus(a << 1, b << 1)
  {
    XorShift(a, b, Plus(a, b), Plus(a << 1, b << 1));
  }

  lemma TopLinear(a: bv32, b: bv32)
    ensures TopBit(Plus(a, b)) <==> TopBit(a) != TopBit(b)
  {
  }

  lemma CarryLinear(a: bv32, b: bv32)
    ensures Carry(Plus(a, b)) == Plus(Carry(a), Carry(b))
  {
    hide TopBit, Plus;
    TopLinear(a, b);
    PlusZero(0);
    PlusZero(GENERATOR);
  }

  lemma TimesXLinear(a: bv32, b: bv32)
    ensures TimesX(Plus(a, b)) == Plus(TimesX(a), TimesX(b))
  {
    hide Plus, Carry;
    ShiftLinear(a, b);
    CarryLinear(a, b);
    PlusSwap(a << 1, Carry(a), b << 1, Carry(b));
  }

  lemma {:induction false} PowLinear(a: bv32, b: bv32, k: nat)
    ensures TimesXPow(Plus(a, b), k) == Plus(TimesXPow(a, k), TimesXPow(b, k))
    decreases k
  {
    hide TimesX, Plus;
    if k > 0 {
      TimesXLinear(a, b);
      PowLinear(TimesX(a), TimesX(b), k - 1);
    }
  }

  lemma {:induction false} PowSum(c: bv32, j: nat, k: nat)
    ensures TimesXPow(c, j + k) == TimesXPow(TimesXPow(c, j), k)
    decreases j
  {
    hide TimesX;
    if j > 0 {
      PowSum(TimesX(c), j - 1, k);
    }
  }

  lemma PowEight(c: bv32)
    ensures TimesX8(c) == TimesXPow(c, 8)
  {
  }

  lemma TimesX8Linear(a: bv32, b: bv32)
    ensures TimesX8(Plus(a, b)) == Plus(TimesX8(a), TimesX8(b))
  {
    hide TimesX8, TimesXPow, Plus;
    PowEight(a);
    PowEight(b);
    PowEight(Plus(a, b));
    PowLinear(a, b, 8);
  }

  /** Nothing leaves the top while the top byte is clear. */
  lemma TimesX8Shifts(a: bv32)
    requires a & 0xFF00_0000 == 0
    ensures TimesX8(a) == a << 8
  {
  }
}

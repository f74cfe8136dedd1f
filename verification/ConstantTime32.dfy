/** The same on words of 32 bits; bytes come out the same. */
module ConstantTime32 {
  import C = ConstantTime

  type Word = bv32

  function WordMask(b: bool): Word {
    if b then 0xffff_ffff else 0
  }

  function Msb(a: Word): Word {
    0 - (a >> 31)
  }

  function Lt(a: Word, b: Word): Word {
    Msb(a ^ ((a ^ b) | ((a - b) ^ a)))
  }

  function IsZero(a: Word): Word {
    Msb(!a & (a - 1))
  }

  function Eq(a: Word, b: Word): Word {
    IsZero(a ^ b)
  }

  function SelectWord(mask: Word, a: Word, b: Word): Word {
    (mask & a) | (!mask & b)
  }

  function Low8(a: Word): bv8 {
    (a & 0xff) as bv8
  }

  lemma MsbIsMask(a: Word)
    ensures Msb(a) == WordMask(a >= 0x8000_0000)
  {
  }

  lemma LtTopBit(a: Word, b: Word)
    ensures (a ^ ((a ^ b) | ((a - b) ^ a))) >= 0x8000_0000 <==> a < b
  {
  }

  lemma ZeroTopBit(a: Word)
    ensures (!a & (a - 1)) >= 0x8000_0000 <==> a == 0
  {
  }

  lemma XorIsZero(a: Word, b: Word)
    ensures a ^ b == 0 <==> a == b
  {
  }

  lemma MaskOfByte(b: bool)
    ensures Low8(WordMask(b)) == C.Mask(b) && Low8(!WordMask(b)) == C.Mask(!b) && !WordMask(b) == WordMask(!b)
  {
  }

  lemma LtIsMask(a: Word, b: Word)
    ensures Lt(a, b) == WordMask(a < b) && !Lt(a, b) == WordMask(a >= b)
    ensures Low8(Lt(a, b)) == C.Mask(a < b) && Low8(!Lt(a, b)) == C.Mask(a >= b)
  {
    hide Msb, WordMask, Low8;
    LtTopBit(a, b);
    MsbIsMask(a ^ ((a ^ b) | ((a - b) ^ a)));
    MaskOfByte(a < b);
  }

  /** An `int` is as wide as a word, so this is `constant_time_eq_int` too. */
  lemma EqIsMask(a: Word, b: Word)
    ensures IsZero(a) == WordMask(a == 0) && Eq(a, b) == WordMask(a == b)
    ensures Low8(IsZero(a)) == C.Mask(a == 0) && Low8(Eq(a, b)) == C.Mask(a == b)
  {
    hide Msb, Low8, WordMask;
    ZeroTopBit(a);
    ZeroTopBit(a ^ b);
    MsbIsMask(!a & (a - 1));
    MsbIsMask(!(a ^ b) & ((a ^ b) - 1));
    XorIsZero(a, b);
    MaskOfByte(a == 0);
    MaskOfByte(a == b);
  }

  lemma WidenInjective(a: bv8, b: bv8)
    ensures a as Word == b as Word <==> a == b
  {
  }

  lemma SameEquality(a: bv8, b: bv8)
    ensures Low8(Eq(a as Word, b as Word)) == C.Eq8(a, b) && Low8(IsZero(a as Word)) == C.IsZero8(a)
  {
    hide Eq, IsZero, Low8, C.Mask, C.Eq8, C.IsZero8;
    EqIsMask(a as Word, b as Word);
    WidenInjective(a, b);
    WidenInjective(a, 0);
    C.Eq8IsMask(a, b);
  }

  /** What the check of a premaster secret computes from bytes does not depend on the width
      of words. */
  lemma SameBytes(a: bv8, b: bv8, mask: bv8)
    ensures Low8(Eq(a as Word, b as Word)) == C.Eq8(a, b) && Low8(IsZero(a as Word)) == C.IsZero8(a)
    ensures Low8(SelectWord(mask as Word, a as Word, b as Word)) == C.Select8(mask, a, b)
  {
    hide Eq, IsZero, C.Eq8, C.IsZero8;
    SameEquality(a, b);
  }
}

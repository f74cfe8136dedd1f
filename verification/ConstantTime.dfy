/** The branch-free comparisons and selections, on words of 64 bits. */
module ConstantTime {
  type Word = bv64

  const ONES: Word := 0xffff_ffff_ffff_ffff

  /** All bits set, or none. */
  function Mask(b: bool): bv8 {
    if b then 0xff else 0
  }

  function WordMask(b: bool): Word {
    if b then ONES else 0
  }

  /** `constant_time_msb_w` */
  function Msb(a: Word): Word {
    0 - (a >> 63)
  }

  /** `constant_time_lt_w` */
  function Lt(a: Word, b: Word): Word {
    Msb(a ^ ((a ^ b) | ((a - b) ^ a)))
  }

  /** `constant_time_ge_w` */
  function Ge(a: Word, b: Word): Word {
    !Lt(a, b)
  }

  /** `constant_time_is_zero_w` */
  function IsZero(a: Word): Word {
    Msb(!a & (a - 1))
  }

  /** `constant_time_eq_w` */
  function Eq(a: Word, b: Word): Word {
    IsZero(a ^ b)
  }

  /** `constant_time_select_w` */
  function SelectWord(mask: Word, a: Word, b: Word): Word {
    (mask & a) | (!mask & b)
  }

  /** The conversion of a word to a byte. */
  function Low8(a: Word): bv8 {
    (a & 0xff) as bv8
  }

  function Widen(a: bv32): Word {
    a as Word
  }

  function Complement(a: bv32): bv32 {
    !a
  }

  function Not(x: Word): Word {
    !x
  }

  /** The conversion of an `int` to a word, which copies the sign. */
  function FromInt(a: bv32): Word {
    if a >= 0x8000_0000 then Not(Widen(Complement(a))) else Widen(a)
  }

  /** `constant_time_is_zero_8` on a byte */
  function IsZero8(a: bv8): bv8 {
    Low8(IsZero(a as Word))
  }

  /** `constant_time_eq_8` on bytes */
  function Eq8(a: bv8, b: bv8): bv8 {
    Low8(Eq(a as Word, b as Word))
  }

  /** `constant_time_select_8` */
  function Select8(mask: bv8, a: bv8, b: bv8): bv8 {
    Low8(SelectWord(mask as Word, a as Word, b as Word))
  }

  lemma MsbIsMask(a: Word)
    ensures Msb(a) == WordMask(a >= 0x8000_0000_0000_0000)
  {
  }

  lemma LtTopBit(a: Word, b: Word)
    ensures (a ^ ((a ^ b) | ((a - b) ^ a))) >= 0x8000_0000_0000_0000 <==> a < b
  {
  }

  lemma MaskOfByte(b: bool)
    ensures Low8(WordMask(b)) == Mask(b) && Low8(!WordMask(b)) == Mask(!b) && !WordMask(b) == WordMask(!b)
  {
  }

  /** `constant_time_lt_w`, `constant_time_ge_w` and their variants that give a byte. */
  lemma LtIsMask(a: Word, b: Word)
    ensures Lt(a, b) == WordMask(a < b) && Ge(a, b) == WordMask(a >= b)
    ensures Low8(Lt(a, b)) == Mask(a < b) && Low8(Ge(a, b)) == Mask(a >= b)
  {
    hide Msb, WordMask, Low8;
    LtTopBit(a, b);
    MsbIsMask(a ^ ((a ^ b) | ((a - b) ^ a)));
    MaskOfByte(a < b);
  }

  /** `constant_time_is_zero_w`, `constant_time_eq_w` and their variants that give a byte. */
  lemma EqIsMask(a: Word, b: Word)
    ensures IsZero(a) == WordMask(a == 0) && Eq(a, b) == WordMask(a == b)
    ensures Low8(IsZero(a)) == Mask(a == 0) && Low8(Eq(a, b)) == Mask(a == b)
  {
    hide Msb, Low8, WordMask;
    ZeroTopBit(a);
    ZeroTopBit(a ^ b);
    MsbIsMask(!a & (a - 1));
    MsbIsMask(!(a ^ b) & ((a ^ b) - 1));
    XorIsZero(a, b);
    MaskOfByte(a == 0);
    MaskOfByte(a == b);
  }

  /** `constant_time_eq_int` and `constant_time_eq_int_8` */
  lemma EqIntIsMask(a: bv32, b: bv32)
    ensures Eq(FromInt(a), FromInt(b)) == WordMask(a == b) && Low8(Eq(FromInt(a), FromInt(b))) == Mask(a == b)
  {
    hide Eq, Low8, WordMask, FromInt;
    EqIsMask(FromInt(a), FromInt(b));
    FromIntInjective(a, b);
  }

  lemma WidenExact(a: bv32, b: bv32)
    ensures (Widen(a) == Widen(b) <==> a == b) && Widen(a) <= 0xffff_ffff
  {
  }

  lemma NotExact(x: Word, y: Word)
    ensures (Not(x) == Not(y) <==> x == y) && (x <= 0xffff_ffff ==> Not(x) > 0xffff_ffff)
  {
  }

  lemma FromIntInjective(a: bv32, b: bv32)
    ensures FromInt(a) == FromInt(b) <==> a == b
  {
    hide Widen, Not, Complement;
    var a', b' := Complement(a), Complement(b);
    WidenExact(a, b);
    WidenExact(a', b');
    WidenExact(b, a);
    WidenExact(b', a');
    NotExact(Widen(a'), Widen(b'));
    NotExact(Widen(b'), Widen(a'));
    ComplementTwice(a);
    ComplementTwice(b);
  }

  lemma ComplementTwice(a: bv32)
    ensures Complement(Complement(a)) == a
  {
  }

  lemma ZeroTopBit(a: Word)
    ensures (!a & (a - 1)) >= 0x8000_0000_0000_0000 <==> a == 0
  {
  }

  lemma XorIsZero(a: Word, b: Word)
    ensures a ^ b == 0 <==> a == b
  {
  }

  lemma Eq8IsMask(a: bv8, b: bv8)
    ensures Eq8(a, b) == Mask(a == b) && IsZero8(a) == Mask(a == 0)
  {
    hide Eq, IsZero, Low8, Mask;
    EqIsMask(a as Word, b as Word);
    EqIsMask(a as Word, 0);
    WidenInjective(a, b);
    WidenInjective(a, 0);
  }

  lemma WidenInjective(a: bv8, b: bv8)
    ensures a as Word == b as Word <==> a == b
  {
  }

  lemma Select8Selects(b: bool, x: bv8, y: bv8)
    ensures Select8(Mask(b), x, y) == if b then x else y
  {
  }
}

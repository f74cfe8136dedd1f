/** One byte of the reassembly bitmask, bit by bit. */
module BitMask {
  /** `bit_range`: a byte with bits `start`, inclusive, to `end`, exclusive, set. */
  function BitRange(start: nat, end: nat): bv8
    requires start <= 8 && end <= 8
  {
    (!(((1 as bv32) << start) - 1) & (((1 as bv32) << end) - 1)) as bv8
  }

  predicate BitSet(b: bv8, k: nat)
    requires k < 8
  {
    (b >> k) & 1 == 1
  }

  lemma BitRangeExact(start: nat, end: nat)
    requires start <= 8 && end <= 8
    ensures forall k | 0 <= k < 8 :: BitSet(BitRange(start, end), k) <==> start <= k < end
  {
  }

  lemma OrExact(a: bv8, b: bv8)
    ensures forall k | 0 <= k < 8 :: BitSet(a | b, k) <==> BitSet(a, k) || BitSet(b, k)
  {
  }

  /** A byte is determined by its eight bits. */
  lemma SameBits(a: bv8, b: bv8)
    requires forall k | 0 <= k < 8 :: BitSet(a, k) <==> BitSet(b, k)
    ensures a == b
  {
    assert BitSet(a, 0) <==> BitSet(b, 0);
    assert BitSet(a, 1) <==> BitSet(b, 1);
    assert BitSet(a, 2) <==> BitSet(b, 2);
    assert BitSet(a, 3) <==> BitSet(b, 3);
    assert BitSet(a, 4) <==> BitSet(b, 4);
    assert BitSet(a, 5) <==> BitSet(b, 5);
    assert BitSet(a, 6) <==> BitSet(b, 6);
    assert BitSet(a, 7) <==> BitSet(b, 7);
  }
}

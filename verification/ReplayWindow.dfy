/** The sliding window that detects replayed records (section 4.1.2.6 of RFC 6347). */
module ReplayWindow {
  import opened Bytes

  const WINDOW_SIZE := 64
  const TWO_63 := 0x8000_0000_0000_0000

  /** `m & (1 << i)` is not zero. */
  predicate Bit(m: nat, i: nat)
  {
    if i == 0 then m % 2 == 1 else Bit(m / 2, i - 1)
  }

  /** `m | (1 << i)` */
  function SetBit(m: nat, i: nat): nat
  {
    if Bit(m, i) then m else m + Power2(i)
  }

  /** `m << 1` in sixty-four bits: the highest bit is lost. */
  function ShiftOne(m: nat): (r: nat)
    requires m < 2 * TWO_63
    ensures r < 2 * TWO_63
  {
    if m < TWO_63 then 2 * m else 2 * (m - TWO_63)
  }

  /** `m << s` in sixty-four bits. */
  function ShiftLeft(m: nat, s: nat): (r: nat)
    requires m < 2 * TWO_63
    ensures r < 2 * TWO_63
  {
    if s == 0 then m else ShiftOne(ShiftLeft(m, s - 1))
  }

  lemma {:induction false} DropHighBit(m: nat, n: nat, i: nat)
    requires i < n && m >= Power2(n)
    ensures Bit(m - Power2(n), i) == Bit(m, i)
  {
    assert Power2(n) == 2 * Power2(n - 1);
    if i > 0 {
      assert (m - Power2(n)) / 2 == m / 2 - Power2(n - 1);
      DropHighBit(m / 2, n - 1, i - 1);
    }
  }

  lemma {:induction false} SetBitExact(m: nat, s: nat, i: nat)
    ensures Bit(SetBit(m, s), i) <==> i == s || Bit(m, i)
  {
    if !Bit(m, s) {
      if s > 0 {
        assert Power2(s) == 2 * Power2(s - 1);
        assert (m + Power2(s)) / 2 == m / 2 + Power2(s - 1);
        if i > 0 {
          SetBitExact(m / 2, s - 1, i - 1);
        }
      } else if i > 0 {
        assert (m + 1) / 2 == m / 2;
      }
    }
  }

  lemma {:induction false} HighBit(m: nat, n: nat)
    requires m < Power2(n + 1) && !Bit(m, n)
    ensures m < Power2(n)
  {
    if n > 0 {
      HighBit(m / 2, n - 1);
    }
  }

  lemma {:induction false} SetBitFits(m: nat, n: nat, s: nat)
    requires m < Power2(n) && s < n
    ensures SetBit(m, s) < Power2(n)
  {
    if !Bit(m, s) {
      if s + 1 == n {
        HighBit(m, s);
      } else if s == 0 {
        assert m % 2 == 0;
        assert Power2(n) == 2 * Power2(n - 1);
      } else {
        SetBitFits(m / 2, n - 1, s - 1);
        assert m / 2 + Power2(s - 1) < Power2(n - 1);
      }
    }
  }

  lemma FourMore(n: nat)
    ensures Power2(n + 4) == 16 * Power2(n)
  {
    assert Power2(n + 2) == 2 * Power2(n + 1);
    assert Power2(n + 3) == 2 * Power2(n + 2);
    assert Power2(n + 4) == 2 * Power2(n + 3);
  }

  lemma Power64()
    ensures Power2(63) == TWO_63 && Power2(64) == 2 * TWO_63
  {
    FourMore(0);
    FourMore(4);
    FourMore(8);
    FourMore(12);
    FourMore(16);
    FourMore(20);
    FourMore(24);
    FourMore(28);
    FourMore(32);
    FourMore(36);
    FourMore(40);
    FourMore(44);
    FourMore(48);
    FourMore(52);
    FourMore(56);
    FourMore(60);
  }

  lemma ShiftOneExact(m: nat, i: nat)
    requires m < 2 * TWO_63 && i < WINDOW_SIZE
    ensures Bit(ShiftOne(m), i) <==> i > 0 && Bit(m, i - 1)
  {
    Power64();
    if i > 0 && m >= TWO_63 {
      DropHighBit(m, 63, i - 1);
    }
  }

  lemma {:induction false} ShiftLeftExact(m: nat, s: nat, i: nat)
    requires m < 2 * TWO_63 && i < WINDOW_SIZE
    ensures Bit(ShiftLeft(m, s), i) <==> i >= s && Bit(m, i - s)
  {
    if s > 0 {
      ShiftOneExact(ShiftLeft(m, s - 1), i);
      if i > 0 {
        ShiftLeftExact(m, s - 1, i - 1);
      }
    }
  }

  lemma {:induction false} ZeroHasNoBits(i: nat)
    ensures !Bit(0, i)
  {
    if i > 0 {
      ZeroHasNoBits(i - 1);
    }
  }

  /** DTLS1_BITMAP. `recorded` is every number recorded since it was zeroed. */
  class Bitmap {
    var mask: nat
    var maxSeqNum: nat
    ghost var recorded: set<nat>

    ghost predicate Valid()
      reads this
    {
      && mask < 2 * TWO_63
      && (forall s | s in recorded :: s <= maxSeqNum)
      && (forall i | 0 <= i < WINDOW_SIZE :: Bit(mask, i) <==> i <= maxSeqNum && maxSeqNum - i in recorded)
    }

    constructor ()
      ensures Valid() && recorded == {} && maxSeqNum == 0
    {
      mask, maxSeqNum := 0, 0;
      recorded := {};
      new;
      forall i: nat {
        ZeroHasNoBits(i);
      }
    }

    /** `dtls1_bitmap_should_discard`: exactly the numbers already recorded and those
        that have fallen out of the window. */
    method ShouldDiscard(seqNum: nat) returns (discard: bool)
      requires Valid()
      ensures discard <==> seqNum in recorded || seqNum + WINDOW_SIZE <= maxSeqNum
    {
      if seqNum > maxSeqNum {
        return false;
      }
      var idx := maxSeqNum - seqNum;
      discard := idx >= WINDOW_SIZE || Bit(mask, idx);
      assert idx < WINDOW_SIZE ==> maxSeqNum - idx == seqNum;
    }

    /** Slides the window forward to end at `seqNum`. */
    method Slide(seqNum: nat)
      requires Valid() && seqNum > maxSeqNum
      modifies this
      ensures Valid() && recorded == old(recorded) && maxSeqNum == seqNum
    {
      var shift := seqNum - maxSeqNum;
      var slid := if shift >= WINDOW_SIZE then 0 else ShiftLeft(mask, shift);
      forall i: nat | i < WINDOW_SIZE
        ensures Bit(slid, i) <==> i <= seqNum && seqNum - i in recorded
      {
        ZeroHasNoBits(i);
        ShiftLeftExact(mask, shift, i);
        assert i >= shift ==> maxSeqNum - (i - shift) == seqNum - i;
      }
      mask, maxSeqNum := slid, seqNum;
    }

    /** `dtls1_bitmap_record` */
    method Record(seqNum: nat)
      requires Valid()
      modifies this
      ensures Valid() && recorded == old(recorded) + {seqNum}
      ensures maxSeqNum == if seqNum > old(maxSeqNum) then seqNum else old(maxSeqNum)
    {
      if seqNum > maxSeqNum {
        Slide(seqNum);
      }
      var idx := maxSeqNum - seqNum;
      ghost var before := recorded;
      recorded := recorded + {seqNum};
      if idx < WINDOW_SIZE {
        var marked := SetBit(mask, idx);
        forall i: nat | i < WINDOW_SIZE
          ensures Bit(marked, i) <==> i <= maxSeqNum && maxSeqNum - i in recorded
        {
          SetBitExact(mask, idx, i);
          assert i <= maxSeqNum ==> (maxSeqNum - i == seqNum <==> i == idx);
        }
        Power64();
        SetBitFits(mask, 64, idx);
        mask := marked;
      }
    }

    /** The zeroing in `dtls1_set_read_state`. */
    method Clear()
      modifies this
      ensures Valid() && recorded == {} && maxSeqNum == 0
    {
      mask, maxSeqNum := 0, 0;
      recorded := {};
      forall i: nat {
        ZeroHasNoBits(i);
      }
    }
  }
}

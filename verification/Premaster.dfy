/** The choice between the decrypted and a random premaster secret without a branch. */
module Premaster {
  import opened Bytes
  import opened ConstantTime

  const MASTER_KEY_LENGTH := 48
  const MIN_PADDING := 11

  lemma MasksConjoin(a: bool, b: bool)
    ensures Mask(a) & Mask(b) == Mask(a && b) && Mask(a) & !Mask(b) == Mask(a && !b)
  {
  }

  /** The block has the form the branch-free code looks for. */
  ghost predicate WellPadded(d: seq<bv8>, version: (bv8, bv8))
    requires |d| >= MIN_PADDING + MASTER_KEY_LENGTH
  {
    var p := |d| - MASTER_KEY_LENGTH;
    && d[0] == 0 && d[1] == 2 && (forall i | 2 <= i < p - 1 :: d[i] != 0) && d[p - 1] == 0
    && d[p] == version.0 && d[p + 1] == version.1
  }

  /** The check of the padding and of the version. */
  method CheckBlock(d: seq<bv8>, version: (bv8, bv8)) returns (good: bv8)
    requires |d| >= MIN_PADDING + MASTER_KEY_LENGTH
    ensures good == Mask(WellPadded(d, version))
  {
    hide Mask, Eq8, IsZero8;
    var paddingLen := |d| - MASTER_KEY_LENGTH;
    Eq8IsMask(d[0], 0);
    Eq8IsMask(d[1], 2);
    MasksConjoin(d[0] == 0, d[1] == 2);
    good := Eq8(d[0], 0) & Eq8(d[1], 2);
    good := CheckNonzero(d, 2, paddingLen - 1, good, d[0] == 0 && d[1] == 2);
    Eq8IsMask(d[paddingLen - 1], 0);
    Eq8IsMask(d[paddingLen], version.0);
    Eq8IsMask(d[paddingLen + 1], version.1);
    ghost var so := d[0] == 0 && d[1] == 2 && forall i | 2 <= i < paddingLen - 1 :: d[i] != 0;
    good := AndMask(good, IsZero8(d[paddingLen - 1]), so, d[paddingLen - 1] == 0);
    so := so && d[paddingLen - 1] == 0;
    good := AndMask(good, Eq8(d[paddingLen], version.0), so, d[paddingLen] == version.0);
    so := so && d[paddingLen] == version.0;
    good := AndMask(good, Eq8(d[paddingLen + 1], version.1), so, d[paddingLen + 1] == version.1);
  }

  method AndMask(good: bv8, m: bv8, ghost so: bool, ghost t: bool) returns (r: bv8)
    requires good == Mask(so) && m == Mask(t)
    ensures r == Mask(so && t)
  {
    hide Mask;
    MasksConjoin(so, t);
    r := good & m;
  }

  method CheckNonzero(d: seq<bv8>, from: nat, to: nat, good: bv8, ghost so: bool) returns (r: bv8)
    requires from <= to <= |d| && good == Mask(so)
    ensures r == Mask(so && forall k | from <= k < to :: d[k] != 0)
  {
    hide Mask, IsZero8;
    r := good;
    ghost var b := so;
    var i := from;
    while i < to
      invariant from <= i <= to
      invariant b == (so && forall k | from <= k < i :: d[k] != 0)
      invariant r == Mask(b)
    {
      Eq8IsMask(d[i], 0);
      MasksConjoin(b, d[i] == 0);
      r := r & !IsZero8(d[i]);
      b := b && d[i] != 0;
      i := i + 1;
    }
  }

  /** The end of the RSA branch of `ssl3_get_client_key_exchange`: `d` is the block that
      RSA decryption without padding gave, and `premaster` has been filled at random. */
  method SelectPremaster(d: seq<bv8>, rsaSize: nat, version: (bv8, bv8), premaster: array<bv8>) returns (ok: bool)
    requires premaster.Length == MASTER_KEY_LENGTH
    modifies premaster
    ensures ok <==> |d| == rsaSize && |d| >= MIN_PADDING + MASTER_KEY_LENGTH
    ensures ok ==> premaster[..] == if WellPadded(d, version) then d[|d| - MASTER_KEY_LENGTH..] else old(premaster[..])
    ensures !ok ==> premaster[..] == old(premaster[..])
  {
    if |d| != rsaSize {
      return false;
    }
    if |d| < MIN_PADDING + MASTER_KEY_LENGTH {
      return false;
    }
    var paddingLen := |d| - MASTER_KEY_LENGTH;
    var good := CheckBlock(d, version);
    hide Mask, Select8, WellPadded;
    ghost var so := WellPadded(d, version);
    var i := 0;
    while i < MASTER_KEY_LENGTH
      invariant 0 <= i <= MASTER_KEY_LENGTH
      invariant forall k | 0 <= k < i :: premaster[k] == if so then d[paddingLen + k] else old(premaster[k])
      invariant forall k | i <= k < MASTER_KEY_LENGTH :: premaster[k] == old(premaster[k])
    {
      Select8Selects(so, d[paddingLen + i], premaster[i]);
      premaster[i] := Select8(good, d[paddingLen + i], premaster[i]);
      i := i + 1;
    }
    return true;
  }

  /** The position of the first zero from `i` on, the length of the block if there is none. */
  function FirstZero(d: seq<bv8>, i: nat): (z: nat)
    requires i <= |d|
    ensures i <= z <= |d| && (forall k | i <= k < z :: d[k] != 0) && (z < |d| ==> d[z] == 0)
    decreases |d| - i
  {
    if i == |d| || d[i] == 0 then i else FirstZero(d, i + 1)
  }

  /** The message in a block of section 7.2.2 of RFC 3447: 0, 2, at least eight bytes other
      than zero, zero, the message. */
  function Message(d: seq<bv8>): Option<seq<bv8>> {
    if |d| < MIN_PADDING || d[0] != 0 || d[1] != 2 then None
    else
      var z := FirstZero(d, 2);
      if z < |d| && z >= 10 then Some(d[z + 1..]) else None
  }

  /** Section 7.4.7.1 of RFC 5246: the block is used if it holds a message of 48 bytes that
      begins with the version the client offered. */
  lemma WellPaddedIsPkcs1(d: seq<bv8>, version: (bv8, bv8))
    requires |d| >= MIN_PADDING + MASTER_KEY_LENGTH
    ensures WellPadded(d, version) <==>
      Message(d).Some? && |Message(d).value| == MASTER_KEY_LENGTH && Message(d).value[..2] == [version.0, version.1]
    ensures WellPadded(d, version) ==> Message(d) == Some(d[|d| - MASTER_KEY_LENGTH..])
  {
    var p := |d| - MASTER_KEY_LENGTH;
    if d[0] == 0 && d[1] == 2 {
      var z := FirstZero(d, 2);
      if z == p - 1 {
        var m := d[z + 1..];
        assert m[..2] == [version.0, version.1] <==> m[0] == version.0 && m[1] == version.1;
      } else if z < p - 1 {
        assert d[z] == 0;
      }
    }
  }
}

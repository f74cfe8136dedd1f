/** Bytes, big-endian integers and the concatenation of byte strings. */
module Bytes {
  type byte = x: int | 0 <= x < 256

  datatype Option<+T> = None | Some(value: T)

  function Join16(hi: byte, lo: byte): (n: nat)
    ensures n < 0x1_0000
  {
    hi as int * 256 + lo as int
  }

  function Join24(hi: byte, mid: byte, lo: byte): (n: nat)
    ensures n < 0x100_0000
  {
    hi as int * 65536 + mid as int * 256 + lo as int
  }

  /** The concatenation of a list of byte strings, in order. */
  function Concat(parts: seq<seq<byte>>): (s: seq<byte>)
  {
    if parts == [] then [] else Concat(parts[..|parts| - 1]) + parts[|parts| - 1]
  }

  lemma {:induction false} ConcatAppend(a: seq<seq<byte>>, b: seq<seq<byte>>)
    ensures Concat(a + b) == Concat(a) + Concat(b)
  {
    if b == [] {
      assert a + b == a;
    } else {
      var n := |b| - 1;
      assert (a + b)[..|a + b| - 1] == a + b[..n];
      ConcatAppend(a, b[..n]);
    }
  }

  /** 2 to the power n. */
  function Power2(n: nat): (p: nat)
    ensures p > 0
  {
    if n == 0 then 1 else 2 * Power2(n - 1)
  }

  /** 256 to the power k: how many numbers k bytes can hold. */
  function Capacity(k: nat): (c: nat)
    ensures c > 0
  {
    if k == 0 then 1 else 256 * Capacity(k - 1)
  }

  lemma Capacities()
    ensures Capacity(2) == 0x1_0000 && Capacity(6) == 0x1_0000_0000_0000
    ensures Capacity(8) == 0x1_0000_0000_0000_0000
  {
    assert Capacity(4) == 256 * Capacity(3);
    assert Capacity(6) == 256 * Capacity(5);
    assert Capacity(8) == 256 * Capacity(7);
  }

  /** A big-endian number of k bytes. */
  function ToBe(n: nat, k: nat): (s: seq<byte>)
    requires n < Capacity(k)
    ensures |s| == k
  {
    if k == 0 then [] else ToBe(n / 256, k - 1) + [n % 256]
  }

  function FromBe(s: seq<byte>): (n: nat)
    ensures n < Capacity(|s|)
  {
    if s == [] then 0 else 256 * FromBe(s[..|s| - 1]) + s[|s| - 1] as int
  }

  lemma {:induction false} FromToBe(n: nat, k: nat)
    requires n < Capacity(k)
    ensures FromBe(ToBe(n, k)) == n
  {
    if k > 0 {
      FromToBe(n / 256, k - 1);
      assert ToBe(n, k)[..k - 1] == ToBe(n / 256, k - 1);
    }
  }

  lemma {:induction false} ToFromBe(s: seq<byte>)
    ensures ToBe(FromBe(s), |s|) == s
  {
    if s != [] {
      ToFromBe(s[..|s| - 1]);
      assert s == s[..|s| - 1] + [s[|s| - 1]];
    }
  }

  /** n times 256 to the power k. */
  function Scale(n: nat, k: nat): (r: nat)
  {
    if k == 0 then n else 256 * Scale(n, k - 1)
  }

  /** Two big-endian numbers side by side. */
  lemma {:induction false} ToBeJoin(hi: nat, h: nat, lo: nat, k: nat)
    requires hi < Capacity(h) && lo < Capacity(k)
    ensures Scale(hi, k) + lo < Capacity(h + k)
    ensures ToBe(Scale(hi, k) + lo, h + k) == ToBe(hi, h) + ToBe(lo, k)
  {
    if k > 0 {
      ToBeJoin(hi, h, lo / 256, k - 1);
      var c := Scale(hi, k - 1);
      assert (256 * c + lo) / 256 == c + lo / 256 && (256 * c + lo) % 256 == lo % 256;
    }
  }

  function Fill(b: byte, k: nat): (s: seq<byte>)
    ensures |s| == k
  {
    seq(k, _ => b)
  }

  /** Adding one turns a run of 255s into zeros and carries into the byte before it. */
  lemma {:induction false} Carry(prefix: seq<byte>, v: byte, k: nat)
    requires v < 255
    ensures FromBe(prefix + [v] + Fill(255, k)) + 1 == FromBe(prefix + [v + 1] + Fill(0, k))
  {
    if k == 0 {
      assert (prefix + [v] + Fill(255, 0))[..|prefix|] == prefix;
      assert (prefix + [v + 1] + Fill(0, 0))[..|prefix|] == prefix;
    } else {
      Carry(prefix, v, k - 1);
      assert (prefix + [v] + Fill(255, k))[..|prefix| + k] == prefix + [v] + Fill(255, k - 1);
      assert (prefix + [v + 1] + Fill(0, k))[..|prefix| + k] == prefix + [v + 1] + Fill(0, k - 1);
    }
  }

  /** Adding one to the largest number of k bytes wraps to zero. */
  lemma {:induction false} WrapAround(k: nat)
    ensures FromBe(Fill(255, k)) + 1 == Capacity(k) && FromBe(Fill(0, k)) == 0
  {
    if k > 0 {
      assert Fill(255, k)[..k - 1] == Fill(255, k - 1) && Fill(0, k)[..k - 1] == Fill(0, k - 1);
      WrapAround(k - 1);
    }
  }
}

/** Each value has one encoding only: whatever is read is what would have been written. */
module DerCanonical {
  import opened Bytes
  import opened Der

  lemma {:induction false} DigitsOf(s: seq<byte>)
    requires s != [] && (|s| == 1 || s[0] > 0)
    ensures Digits(FromBe(s)) == s
  {
    var init, last := s[..|s| - 1], s[|s| - 1] as nat;
    assert FromBe(s) == 256 * FromBe(init) + last;
    if |s| == 1 {
      assert init == [] && FromBe(init) == 0;
      assert Digits(last) == [last];
      assert s == [s[0]];
    } else {
      Positive(init);
      DigitsOf(init);
      assert FromBe(s) / 256 == FromBe(init) && FromBe(s) % 256 == last;
      assert s == init + [s[|s| - 1]];
    }
  }

  lemma {:induction false} Positive(s: seq<byte>)
    requires s != [] && s[0] > 0
    ensures FromBe(s) > 0
  {
    if |s| > 1 {
      Positive(s[..|s| - 1]);
    } else {
      assert s[..0] == [];
    }
  }

  /** An integer is read from its one minimal encoding and from nothing else. */
  lemma UintCanonical(body: seq<byte>, n: nat)
    ensures UintOf(body) == Some(n) <==> n < Capacity(8) && body == UintBody(n)
  {
    hide Capacity, FromBe, Digits;
    if n < Capacity(8) && body == UintBody(n) {
      UintRead(n);
    }
    if UintOf(body) == Some(n) {
      if body[0] == 0 && |body| > 1 {
        var rest := body[1..];
        assert body == [0] + rest;
        LeadingZero(rest);
        DigitsOf(rest);
      } else {
        DigitsOf(body);
      }
    }
  }

  lemma ShortElement(s: seq<byte>)
    requires AnyElement(s).Some? && s[1] < 128
    ensures var r := AnyElement(s).value; r.whole == Element(r.tag, r.body) && s == r.whole + r.rest
  {
    hide FromBe, ToBe, Capacity;
    var r := AnyElement(s).value;
    assert s[..2] == [s[0], s[1]] && r.whole == s[..2] + r.body;
  }

  /** The length octets that are read are those that are written. */
  lemma LongLengthBytes(s: seq<byte>, k: nat)
    requires |s| == k && 1 <= k <= 4 && FromBe(s) >= 128 && FromBe(s) >= Capacity(k - 1) && FromBe(s) <= MAX_LENGTH
    ensures LengthBytes(FromBe(s)) == [(128 + k) as byte] + s
  {
    hide FromBe, ToBe, Capacity;
    Capacities4();
    ToFromBe(s);
    LengthFits(s);
  }

  lemma LongElement(s: seq<byte>)
    requires AnyElement(s).Some? && s[1] >= 128 && |AnyElement(s).value.body| <= MAX_LENGTH
    ensures var r := AnyElement(s).value; r.whole == Element(r.tag, r.body) && s == r.whole + r.rest
  {
    hide FromBe, Capacity, LengthBytes;
    var r, k := AnyElement(s).value, s[1] - 128;
    LongLengthBytes(s[2..2 + k], k);
    assert s[..2 + k] == [s[0]] + ([s[1]] + s[2..2 + k]);
    assert r.whole == s[..2 + k] + r.body;
  }

  /** The octets of an element that is read are those that are written for its tag and
      contents. */
  lemma ElementCanonical(s: seq<byte>)
    ensures var r := AnyElement(s);
            r.Some? && |r.value.body| <= MAX_LENGTH ==>
              && r.value.whole == Element(r.value.tag, r.value.body) && s == r.value.whole + r.value.rest
              && r.value.tag % 32 != 31
  {
    hide Element, FromBe, Capacity;
    var r := AnyElement(s);
    if r.Some? && |r.value.body| <= MAX_LENGTH {
      if s[1] >= 128 {
        LongElement(s);
      } else {
        ShortElement(s);
      }
    }
  }

  lemma LengthFits(s: seq<byte>)
    ensures FromBe(s) < Capacity(|s|)
  {
  }
}

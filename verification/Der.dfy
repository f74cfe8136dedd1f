/** DER elements as CBB writes them and CBS reads them (sections 8.1 and 10.1 of X.690). */
module Der {
  import opened Bytes

  const MAX_LENGTH := 0xffff_fffe
  const INTEGER: byte := 0x02
  const OCTET_STRING: byte := 0x04
  const BOOLEAN: byte := 0x01
  const SEQUENCE: byte := 0x30

  /** The length octets. A length that CBB refuses is given octets no reader accepts. */
  function LengthBytes(n: nat): (s: seq<byte>)
  {
    Capacities4();
    if n <= 0x7f then [n]
    else if n <= 0xff then [0x81] + ToBe(n, 1)
    else if n <= 0xffff then [0x82] + ToBe(n, 2)
    else if n <= 0xff_ffff then [0x83] + ToBe(n, 3)
    else if n <= MAX_LENGTH then [0x84] + ToBe(n, 4)
    else [0xff]
  }

  lemma Capacities4()
    ensures Capacity(0) == 1 && Capacity(1) == 0x100 && Capacity(2) == 0x1_0000
    ensures Capacity(3) == 0x100_0000 && Capacity(4) == 0x1_0000_0000
  {
  }

  /** An element with a tag of one octet. */
  function Element(tag: byte, body: seq<byte>): (s: seq<byte>)
    ensures |s| >= |body| + 2 && s[0] == tag
  {
    [tag] + LengthBytes(|body|) + body
  }

  /** An element that has been read: its tag and contents, all its octets, and what follows. */
  datatype Read = Read(tag: byte, body: seq<byte>, whole: seq<byte>, rest: seq<byte>)

  /** `CBS_get_any_asn1_element` */
  function AnyElement(s: seq<byte>): (r: Option<Read>)
    ensures r.Some? ==> |r.value.rest| < |s| && r.value.whole != []
  {
    if |s| < 2 || s[0] % 32 == 31 then None
    else if s[1] < 128 then Cut(s, 2, s[1])
    else
      var k := s[1] - 128;
      if k == 0 || k > 4 || |s| < 2 + k then None
      else
        var len := FromBe(s[2..2 + k]);
        if len < 128 || len < Capacity(k - 1) then None else Cut(s, 2 + k, len)
  }

  /** The element with a header and contents of these lengths, if it is all there. */
  function Cut(s: seq<byte>, header: nat, len: nat): (r: Option<Read>)
    requires s != []
    ensures r.Some? && header > 0 ==> |r.value.rest| < |s| && r.value.whole != []
  {
    if |s| < header + len then None
    else Some(Read(s[0], s[header..header + len], s[..header + len], s[header + len..]))
  }

  /** `CBS_get_asn1` */
  function GetElement(s: seq<byte>, tag: byte): (r: Option<Read>)
    ensures r.Some? ==> |r.value.rest| < |s|
  {
    var r := AnyElement(s);
    if r.Some? && r.value.tag == tag then r else None
  }

  lemma CutRead(header: seq<byte>, body: seq<byte>, rest: seq<byte>)
    requires header != []
    ensures Cut(header + body + rest, |header|, |body|) == Some(Read(header[0], body, header + body, rest))
  {
    var s := header + body + rest;
    assert s[|header|..|header| + |body|] == body && s[..|header| + |body|] == header + body
        && s[|header| + |body|..] == rest;
  }

  lemma LongLength(n: nat, k: nat)
    requires 1 <= k <= 4 && Capacity(k - 1) <= n < Capacity(k) && n >= 128
    ensures FromBe(ToBe(n, k)) == n
  {
    FromToBe(n, k);
  }

  /** Reading an element that was written, whatever follows it. */
  lemma ElementRead(tag: byte, body: seq<byte>, rest: seq<byte>)
    requires tag % 32 != 31 && |body| <= MAX_LENGTH
    ensures AnyElement(Element(tag, body) + rest) == Some(Read(tag, body, Element(tag, body), rest))
  {
    hide ToBe, FromBe, Capacity;
    Capacities4();
    var n := |body|;
    var header := [tag] + LengthBytes(n);
    var s := header + body + rest;
    assert Element(tag, body) + rest == s;
    CutRead(header, body, rest);
    if n > 0x7f {
      var k := if n <= 0xff then 1 else if n <= 0xffff then 2 else if n <= 0xff_ffff then 3 else 4;
      LongLength(n, k);
      assert LengthBytes(n) == [(128 + k) as byte] + ToBe(n, k);
      assert s[1] == 128 + k && s[2..2 + k] == ToBe(n, k);
    }
  }

  /** The minimal big-endian octets. */
  function Digits(n: nat): (s: seq<byte>)
    ensures s != []
  {
    if n < 256 then [n] else Digits(n / 256) + [n % 256]
  }

  /** The contents of an INTEGER as `CBB_add_asn1_uint64` writes it: minimal, and never
      negative. */
  function UintBody(n: nat): (s: seq<byte>)
    ensures s != []
  {
    var d := Digits(n);
    if d[0] >= 128 then [0] + d else d
  }

  /** The contents of an INTEGER as `CBS_get_asn1_uint64` reads them. */
  function UintOf(body: seq<byte>): Option<nat> {
    if body == [] || body[0] >= 128 || (body[0] == 0 && |body| > 1 && body[1] < 128)
      || FromBe(body) >= Capacity(8) then None
    else Some(FromBe(body))
  }

  lemma {:induction false} DigitsValue(n: nat)
    ensures FromBe(Digits(n)) == n && (n > 0 ==> Digits(n)[0] > 0)
  {
    if n >= 256 {
      DigitsValue(n / 256);
      var d := Digits(n / 256);
      assert (d + [n % 256])[..|d|] == d;
    } else {
      assert [n][..0] == [];
    }
  }

  lemma {:induction false} LeadingZero(s: seq<byte>)
    ensures FromBe([0] + s) == FromBe(s)
  {
    if s != [] {
      assert ([0] + s)[..|s|] == [0] + s[..|s| - 1];
      LeadingZero(s[..|s| - 1]);
    }
  }

  lemma UintRead(n: nat)
    requires n < Capacity(8)
    ensures UintOf(UintBody(n)) == Some(n)
  {
    hide Capacity;
    DigitsValue(n);
    LeadingZero(Digits(n));
    if n == 0 {
      assert Digits(n) == [0];
    }
  }

  /** A whole element stays one when something follows it. */
  lemma ElementExtends(s: seq<byte>, rest: seq<byte>)
    requires AnyElement(s).Some? && AnyElement(s).value.whole == s
    ensures AnyElement(s + rest).Some? && AnyElement(s + rest).value.whole == s
        && AnyElement(s + rest).value.rest == rest
  {
    hide FromBe, Capacity;
    var t := s + rest;
    if s[1] >= 128 {
      var k := s[1] - 128;
      assert t[2..2 + k] == s[2..2 + k];
    }
    assert t[..|s|] == s && t[|s|..] == rest;
  }

  lemma {:induction false} AtLeastShifted(s: seq<byte>, i: nat)
    requires i < |s|
    ensures FromBe(s) >= 256 * FromBe(s[..i])
    decreases |s|
  {
    var init := s[..|s| - 1];
    if i < |s| - 1 {
      assert init[..i] == s[..i];
      AtLeastShifted(init, i);
    }
  }

  /** The loop of `CBS_get_asn1_uint64` over the contents: a byte must not push another one
      out of the 64 bits. */
  method ReadUint(body: seq<byte>) returns (ok: bool, out: nat)
    ensures (if ok then Some(out) else None) == UintOf(body)
  {
    hide Capacity;
    out := 0;
    Capacities();
    if |body| == 0 || body[0] >= 128 {
      return false, 0;
    }
    if body[0] == 0 && |body| > 1 && body[1] < 128 {
      return false, 0;
    }
    var i := 0;
    while i < |body|
      invariant 0 <= i <= |body| && out == FromBe(body[..i]) && out < 0x1_0000_0000_0000_0000
    {
      if out >= 0x100_0000_0000_0000 {
        AtLeastShifted(body, i);
        return false, 0;
      }
      assert body[..i + 1][..i] == body[..i];
      out := out * 256 + body[i] as int;
      i := i + 1;
    }
    assert body[..i] == body;
    return true, out;
  }
}

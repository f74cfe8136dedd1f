/** The bytes of one session in which every field is present, written out: they fix the tags
    and the contents of the elements. */
module SessionSample {
  import opened Bytes
  import opened Der
  import opened SessionDer

  const SAMPLE := Session(
    0x0303, 0xc02f, [0x01], [0x02], 5, 7, [[0x30, 0x00], [0x30, 0x01, 0x55]], [0x09], 18, Some([0x61]),
    Some([0x62]), 11, Some([0x63]), None, [0x64], [0x65], [0x66], true, 23, Some(0x01020304), false, 0x0401, 14, 300,
    Some([0x67]), false)

  /** The elements in their order. The hash of the peer's certificate is only kept instead of
      its certificates. */
  const ELEMENTS: seq<seq<byte>> := [
    [0x02, 0x01, 0x01],
    [0x02, 0x02, 0x03, 0x03],
    [0x04, 0x02, 0xc0, 0x2f],
    [0x04, 0x01, 0x01],
    [0x04, 0x01, 0x02],
    [0xa1, 0x03, 0x02, 0x01, 0x05],
    [0xa2, 0x03, 0x02, 0x01, 0x07],
    [0xa3, 0x02, 0x30, 0x00],
    [0xa4, 0x03, 0x04, 0x01, 0x09],
    [0xa5, 0x03, 0x02, 0x01, 0x12],
    [0xa6, 0x03, 0x04, 0x01, 0x61],
    [0xa8, 0x03, 0x04, 0x01, 0x62],
    [0xa9, 0x03, 0x02, 0x01, 0x0b],
    [0xaa, 0x03, 0x04, 0x01, 0x63],
    [],
    [0xae, 0x03, 0x04, 0x01, 0x64],
    [0xaf, 0x03, 0x04, 0x01, 0x65],
    [0xb0, 0x03, 0x04, 0x01, 0x66],
    [0xb1, 0x03, 0x01, 0x01, 0xff],
    [0xb2, 0x03, 0x02, 0x01, 0x17],
    [0xb3, 0x03, 0x30, 0x01, 0x55],
    [0xb5, 0x06, 0x04, 0x04, 0x01, 0x02, 0x03, 0x04],
    [0xb6, 0x03, 0x01, 0x01, 0x00],
    [0xb7, 0x04, 0x02, 0x02, 0x04, 0x01],
    [0xb8, 0x03, 0x02, 0x01, 0x0e],
    [0xb9, 0x04, 0x02, 0x02, 0x01, 0x2c],
    [0xba, 0x03, 0x04, 0x01, 0x67]]

  function Join(parts: seq<seq<byte>>): (s: seq<byte>) {
    if parts == [] then [] else parts[0] + Join(parts[1..])
  }

  lemma Short(tag: byte, body: seq<byte>)
    requires |body| <= 0x7f
    ensures Element(tag, body) == [tag, |body|] + body
  {
  }

  lemma SmallUint(n: nat)
    requires n < 0x80
    ensures UintBody(n) == [n] && Uint(n) == [0x02, 0x01, n]
  {
    Short(INTEGER, [n]);
  }

  lemma TwoByteUint(n: nat)
    requires 0x100 <= n < 0x8000
    ensures UintBody(n) == [n / 256, n % 256] && Uint(n) == [0x02, 0x02, n / 256, n % 256]
  {
    assert Digits(n / 256) == [n / 256];
    assert Digits(n) == [n / 256, n % 256];
    Short(INTEGER, [n / 256, n % 256]);
  }

  lemma SmallOctets(b: byte)
    ensures Octets([b]) == [0x04, 0x01, b]
  {
    Short(OCTET_STRING, [b]);
  }

  lemma FirstElements(i: nat)
    requires i < 9
    ensures FieldBytes(SAMPLE, false, FIELDS[i]) == ELEMENTS[i]
  {
    hide Element, UintBody, Octets, Uint;
    SmallUint(1);
    SmallUint(5);
    SmallUint(7);
    TwoByteUint(0x0303);
    SmallOctets(0x09);
    var c := ContentOf(SAMPLE, false, FIELDS[i]);
    assert c.Some?;
    Short(TagOf(FIELDS[i]), c.value);
  }

  lemma VerifyElements(i: nat)
    requires 9 <= i < 13
    ensures FieldBytes(SAMPLE, false, FIELDS[i]) == ELEMENTS[i]
  {
    hide Element, UintBody, Octets, Uint, ToBe, Capacity;
    SmallUint(18);
    SmallUint(11);
    SmallOctets(0x61);
    SmallOctets(0x62);
    var c := ContentOf(SAMPLE, false, FIELDS[i]);
    if c.Some? {
      Short(TagOf(FIELDS[i]), c.value);
    }
  }

  lemma TicketedElements(i: nat)
    requires 13 <= i < 18
    ensures FieldBytes(SAMPLE, false, FIELDS[i]) == ELEMENTS[i]
  {
    hide Element, UintBody, Octets, Uint, ToBe, Capacity;
    SmallOctets(0x63);
    SmallOctets(0x64);
    SmallOctets(0x65);
    SmallOctets(0x66);
    var c := ContentOf(SAMPLE, false, FIELDS[i]);
    if c.Some? {
      Short(TagOf(FIELDS[i]), c.value);
    }
  }

  lemma AgeAddOctets()
    ensures Octets(ToBe(0x01020304 % Capacity(4), 4)) == [0x04, 0x04, 0x01, 0x02, 0x03, 0x04]
  {
    Capacities4();
    assert ToBe(0x01, 1) == [0x01];
    assert ToBe(0x0102, 2) == [0x01, 0x02];
    assert ToBe(0x010203, 3) == [0x01, 0x02, 0x03];
    assert ToBe(0x01020304, 4) == [0x01, 0x02, 0x03, 0x04];
    Short(OCTET_STRING, [0x01, 0x02, 0x03, 0x04]);
  }

  lemma GroupElements(i: nat)
    requires 18 <= i < 22
    ensures FieldBytes(SAMPLE, false, FIELDS[i]) == ELEMENTS[i]
  {
    hide Element, UintBody, Octets, Uint, ToBe, Capacity;
    SmallUint(23);
    AgeAddOctets();
    Booleans();
    ChainIs();
    var c := ContentOf(SAMPLE, false, FIELDS[i]);
    if c.Some? {
      Short(TagOf(FIELDS[i]), c.value);
    }
  }

  lemma LastElements(i: nat)
    requires 22 <= i < 27
    ensures FieldBytes(SAMPLE, false, FIELDS[i]) == ELEMENTS[i]
  {
    hide Element, UintBody, Octets, Uint, ToBe, Capacity;
    SmallUint(14);
    TwoByteUint(0x0401);
    TwoByteUint(300);
    SmallOctets(0x67);
    Booleans();
    var c := ContentOf(SAMPLE, false, FIELDS[i]);
    if c.Some? {
      Short(TagOf(FIELDS[i]), c.value);
    }
  }

  lemma Booleans()
    ensures Boolean(true) == [0x01, 0x01, 0xff] && Boolean(false) == [0x01, 0x01, 0x00]
  {
    Short(BOOLEAN, [0xff]);
    Short(BOOLEAN, [0x00]);
  }

  lemma ChainIs()
    ensures Concat(SAMPLE.certs[1..]) == [0x30, 0x01, 0x55]
  {
    assert SAMPLE.certs[1..] == [[0x30, 0x01, 0x55]];
    assert [[0x30, 0x01, 0x55]][1..] == [];
  }

  lemma {:induction false} WriteJoins(n: nat)
    requires n <= |FIELDS|
    ensures Write(SAMPLE, false, FIELDS[n..]) == Join(ELEMENTS[n..])
    decreases |FIELDS| - n
  {
    hide FieldBytes;
    if n < |FIELDS| {
      if n < 9 {
        FirstElements(n);
      } else if n < 13 {
        VerifyElements(n);
      } else if n < 18 {
        TicketedElements(n);
      } else if n < 22 {
        GroupElements(n);
      } else {
        LastElements(n);
      }
      WriteJoins(n + 1);
      assert FIELDS[n..][0] == FIELDS[n] && FIELDS[n..][1..] == FIELDS[n + 1..];
      assert ELEMENTS[n..][0] == ELEMENTS[n] && ELEMENTS[n..][1..] == ELEMENTS[n + 1..];
    }
  }

  /** The lengths of what is left from each element on. */
  const REST: seq<nat> := [126, 123, 119, 115, 112, 109, 104, 99, 95, 90, 85, 80, 75, 70, 65, 65, 60, 55, 50, 45,
    40, 35, 27, 22, 16, 11, 5, 0]

  lemma RestNext(n: nat)
    requires n < |ELEMENTS|
    ensures REST[n] == |ELEMENTS[n]| + REST[n + 1]
  {
  }

  lemma {:induction false} JoinLength(n: nat)
    requires n <= |ELEMENTS|
    ensures |Join(ELEMENTS[n..])| == REST[n]
    decreases |ELEMENTS| - n
  {
    if n < |ELEMENTS| {
      RestNext(n);
      JoinLength(n + 1);
      assert ELEMENTS[n..][0] == ELEMENTS[n] && ELEMENTS[n..][1..] == ELEMENTS[n + 1..];
    }
  }

  /** `SSL_SESSION_to_bytes` of this session, and so of every session with these fields. */
  lemma SampleBytes()
    ensures ToBytes(SAMPLE) == Some([0x30, 0x7e] + Join(ELEMENTS))
  {
    hide Write, Join;
    WriteJoins(0);
    JoinLength(0);
    assert FIELDS[0..] == FIELDS && ELEMENTS[0..] == ELEMENTS;
    Short(SEQUENCE, Join(ELEMENTS));
  }

  /** With the hash of the peer's certificate kept, the hash stands for the certificates. */
  lemma HashElement(hash: seq<byte>)
    requires |hash| == 32
    ensures var s := SAMPLE.(peerSha256 := Some(hash));
            && FieldBytes(s, false, FPeerSha256) == [0xad, 0x22, 0x04, 0x20] + hash
            && FieldBytes(s, false, FPeer) == [] && FieldBytes(s, false, FCertChain) == []
  {
    Short(OCTET_STRING, hash);
    Short(0xad, Octets(hash));
  }

  /** For a ticket the session id is left empty, and the ticket itself out. */
  lemma TicketElements()
    ensures FieldBytes(SAMPLE, true, FSessionId) == [0x04, 0x00] && FieldBytes(SAMPLE, true, FTicket) == []
    ensures forall f: Field | f != FSessionId && f != FTicket ::
      FieldBytes(SAMPLE, true, f) == FieldBytes(SAMPLE, false, f)
  {
    Short(OCTET_STRING, []);
  }
}

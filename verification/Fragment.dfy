/** Handshake fragments on the wire: the twelve-byte header of section 4.2.2 of
    RFC 6347 followed by part of the message body. */
module Fragment {
  import opened Bytes

  const HEADER_LENGTH := 12

  datatype Fragment = Fragment(typ: byte, msgLen: nat, seqNum: nat, fragOff: nat, body: seq<byte>)
  {
    ghost predicate Encodable() {
      msgLen < 0x100_0000 && seqNum < 0x1_0000 && fragOff < 0x100_0000 && |body| < 0x100_0000
    }
  }

  datatype ParseResult = Malformed | Parsed(fragment: Fragment, rest: seq<byte>)

  function Header(typ: byte, msgLen: nat, seqNum: nat, fragOff: nat, fragLen: nat): (h: seq<byte>)
    requires msgLen < 0x100_0000 && seqNum < 0x1_0000 && fragOff < 0x100_0000 && fragLen < 0x100_0000
  {
    [typ,
     msgLen / 65536, msgLen / 256 % 256, msgLen % 256,
     seqNum / 256, seqNum % 256,
     fragOff / 65536, fragOff / 256 % 256, fragOff % 256,
     fragLen / 65536, fragLen / 256 % 256, fragLen % 256]
  }

  function Encode(f: Fragment): (s: seq<byte>)
    requires f.Encodable()
  {
    Header(f.typ, f.msgLen, f.seqNum, f.fragOff, |f.body|) + f.body
  }

  /** `dtls1_parse_fragment`: the header fields, then exactly frag_len bytes. */
  function Parse(s: seq<byte>): (r: ParseResult)
  {
    if |s| < HEADER_LENGTH then Malformed
    else
      var fragLen := Join24(s[9], s[10], s[11]);
      if |s| - HEADER_LENGTH < fragLen then Malformed
      else
        Parsed(Fragment(s[0], Join24(s[1], s[2], s[3]), Join16(s[4], s[5]), Join24(s[6], s[7], s[8]),
                        s[HEADER_LENGTH..HEADER_LENGTH + fragLen]),
               s[HEADER_LENGTH + fragLen..])
  }

  lemma Split24(hi: byte, mid: byte, lo: byte)
    ensures var n := Join24(hi, mid, lo); n / 65536 == hi && n / 256 % 256 == mid && n % 256 == lo
  {
    var n, high := Join24(hi, mid, lo), 256 * (hi as int) + mid as int;
    assert n == 65536 * (hi as int) + (256 * (mid as int) + lo as int);
    assert n == 256 * high + lo as int;
    assert n / 256 == high && high % 256 == mid;
  }

  lemma Split16(hi: byte, lo: byte)
    ensures var n := Join16(hi, lo); n / 256 == hi && n % 256 == lo
  {
  }

  lemma Rejoin24(n: nat)
    requires n < 0x100_0000
    ensures Join24(n / 65536, n / 256 % 256, n % 256) == n
  {
  }

  lemma Rejoin16(n: nat)
    requires n < 0x1_0000
    ensures Join16(n / 256, n % 256) == n
  {
  }

  /** Whatever is parsed is what was consumed: encoding it again gives the same bytes. */
  lemma EncodeParse(s: seq<byte>)
    requires Parse(s).Parsed?
    ensures Parse(s).fragment.Encodable()
    ensures Encode(Parse(s).fragment) + Parse(s).rest == s
  {
    Split24(s[1], s[2], s[3]);
    Split16(s[4], s[5]);
    Split24(s[6], s[7], s[8]);
    Split24(s[9], s[10], s[11]);
    var f := Parse(s).fragment;
    assert Header(f.typ, f.msgLen, f.seqNum, f.fragOff, |f.body|) == s[..HEADER_LENGTH];
    assert s == s[..HEADER_LENGTH] + f.body + Parse(s).rest;
  }

  /** Parsing undoes encoding and consumes nothing else. */
  lemma ParseEncode(f: Fragment, rest: seq<byte>)
    requires f.Encodable()
    ensures Parse(Encode(f) + rest) == Parsed(f, rest)
  {
    var h := Header(f.typ, f.msgLen, f.seqNum, f.fragOff, |f.body|);
    var s := Encode(f) + rest;
    assert s == h + (f.body + rest);
    assert forall i | 0 <= i < HEADER_LENGTH :: s[i] == h[i];
    Rejoin24(f.msgLen);
    Rejoin16(f.seqNum);
    Rejoin24(f.fragOff);
    Rejoin24(|f.body|);
    assert s[HEADER_LENGTH..HEADER_LENGTH + |f.body|] == f.body;
    assert s[HEADER_LENGTH + |f.body|..] == rest;
  }
}

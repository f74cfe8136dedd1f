/** What record protection is for: a record cannot be passed off as another one. */
module RecordBinding {
  import opened Bytes
  import opened Aead
  import opened ReplayWindow
  import opened DtlsRecord
  import opened RecordRuns

  /** What was sealed opens under no other nonce and no other additional data. */
  ghost predicate Binding(p: Primitive) {
    forall nonce: seq<byte>, ad: seq<byte>, pt: seq<byte>, nonce': seq<byte>, ad': seq<byte>
      {:trigger p.open(nonce', ad', p.seal(nonce, ad, pt))} ::
      p.open(nonce', ad', p.seal(nonce, ad, pt)).Some? ==> nonce' == nonce && ad' == ad
  }

  // ------------------------------------------------------------ layouts, byte by byte

  /** Section 6.2.3.3 of RFC 5246: the record number, the type, the version, and the length of
      the plaintext unless it is left out. */
  lemma AdditionalDataLayout(x: Context, typ: byte, version: nat, seqNum: seq<byte>, plaintextLen: nat)
    requires version < 0x1_0000 && |seqNum| == 8
    ensures var ad := AdditionalData(x, typ, version, seqNum, plaintextLen);
            && |ad| == (if x.omitLengthInAd then 11 else 13)
            && ad[..8] == seqNum && ad[8] == typ && 256 * ad[9] as nat + ad[10] as nat == version
            && (!x.omitLengthInAd && plaintextLen < 0x1_0000 ==> 256 * ad[11] as nat + ad[12] as nat == plaintextLen)
  {
  }

  /** Equal additional data are those of one record. */
  lemma AdditionalDataBinds(x: Context, typ: byte, version: nat, seqNum: seq<byte>, len: nat,
        typ': byte, version': nat, seqNum': seq<byte>, len': nat)
    requires version < 0x1_0000 && version' < 0x1_0000 && |seqNum| == |seqNum'| == 8
    requires AdditionalData(x, typ, version, seqNum, len) == AdditionalData(x, typ', version', seqNum', len')
    ensures typ == typ' && version == version' && seqNum == seqNum'
    ensures !x.omitLengthInAd && len < 0x1_0000 && len' < 0x1_0000 ==> len == len'
  {
    hide AdditionalData;
    AdditionalDataLayout(x, typ, version, seqNum, len);
    AdditionalDataLayout(x, typ', version', seqNum', len');
  }

  /** Exclusive or, bit by bit. */
  lemma {:induction false} XorBitsExact(a: nat, b: nat, width: nat, i: nat)
    requires i < width
    ensures Bit(XorBits(a, b, width), i) <==> (Bit(a, i) != Bit(b, i))
  {
    var c := XorBits(a / 2, b / 2, width - 1);
    assert XorBits(a, b, width) % 2 == (a + b) % 2 && XorBits(a, b, width) / 2 == c;
    if i > 0 {
      XorBitsExact(a / 2, b / 2, width - 1, i - 1);
    } else {
      SumParity(a, b);
    }
  }

  lemma SumParity(a: nat, b: nat)
    ensures (a + b) % 2 == 1 <==> (a % 2 == 1) != (b % 2 == 1)
  {
  }

  lemma XorByteExact(a: byte, b: byte, i: nat)
    requires i < 8
    ensures Bit(XorByte(a, b), i) <==> (Bit(a, i) != Bit(b, i))
  {
    XorBitsExact(a, b, 8, i);
  }

  /** Section 3 of RFC 5288 and section 2 of RFC 7905: the variable part stands behind the
      fixed part, or is padded on the left with zeros to its length and masked with it. */
  lemma NonceLayout(x: Context, variable: seq<byte>)
    requires x.Valid() && |variable| == x.variableNonceLen
    ensures var n, pad := Nonce(x, variable), |x.fixedNonce| - |variable|;
            && |n| == x.prim.nonceLen
            && (!x.xorFixedNonce ==> n[..|x.fixedNonce|] == x.fixedNonce && n[|x.fixedNonce|..] == variable)
            && (x.xorFixedNonce ==>
                  && |n| == |x.fixedNonce| && pad >= 0
                  && (forall i | 0 <= i < pad :: n[i] == XorByte(0, x.fixedNonce[i]))
                  && (forall i | 0 <= i < |variable| :: n[pad + i] == XorByte(variable[i], x.fixedNonce[pad + i])))
  {
  }

  lemma {:induction false} XorBitsZero(a: nat, width: nat)
    requires a < Power2(width)
    ensures XorBits(0, a, width) == a
  {
    if width > 0 {
      XorBitsZero(a / 2, width - 1);
    }
  }

  /** Masking with zero changes nothing, so the first bytes of the nonce are the fixed ones. */
  lemma XorZero(a: byte)
    ensures XorByte(0, a) == a
  {
    assert Power2(8) == 256;
    XorBitsZero(a, 8);
  }

  /** What a record of each kind of suite has: an explicit part of the nonce in front, or not;
      taken from the record number, or random; thirteen bytes of additional data, or eleven. */
  lemma SuiteShapes(bulk: Bulk, prim: Primitive, fixedIv: seq<byte>)
    requires prim.nonceLen == match bulk { case CbcHmac(ivLen) => ivLen case _ => 12 }
    requires prim.Correct() && (!bulk.CbcHmac? ==> prim.FixedOverhead())
    ensures var c := New(bulk, prim, fixedIv);
            c.Some? ==>
              && c.value.fixedNonce == fixedIv
              && ExplicitNonceLen(c) == (match bulk case Gcm => 8 case ChaCha20Poly1305 => 0 case CbcHmac(ivLen) => ivLen)
              && MaxOverhead(c) == prim.maxOverhead + ExplicitNonceLen(c)
              && c.value.randomVariableNonce == bulk.CbcHmac? && c.value.omitLengthInAd == bulk.CbcHmac?
              && c.value.xorFixedNonce == bulk.ChaCha20Poly1305?
  {
  }

  // ------------------------------------------------------------ altered records

  /** A sealed body opens under the type, version and number it was sealed with, and under
      no others. */
  lemma OpensAsItself(x: Context, maxOut: nat, typ: byte, version: nat, seqNum: seq<byte>, pt: seq<byte>,
        random: seq<byte>, typ': byte, version': nat, seqNum': seq<byte>)
    requires x.Valid() && Binding(x.prim) && |random| == x.variableNonceLen
    requires version < 0x1_0000 && version' < 0x1_0000 && |seqNum| == |seqNum'| == 8
    requires Seal(Some(x), maxOut, typ, version, seqNum, pt, random).Some?
    ensures var body := Seal(Some(x), maxOut, typ, version, seqNum, pt, random).value;
            Open(Some(x), typ', version', seqNum', body).Some? <==>
              typ' == typ && version' == version && seqNum' == seqNum
  {
    hide AdditionalData, Nonce;
    OpenSealed(Some(x), maxOut, typ, version, seqNum, pt, random);
    var body := Seal(Some(x), maxOut, typ, version, seqNum, pt, random).value;
    var variable := if x.randomVariableNonce then random else seqNum;
    var ad := AdditionalData(x, typ, version, seqNum, |pt|);
    var sealed := x.prim.seal(Nonce(x, variable), ad, pt);
    var len := if x.omitLengthInAd then 0 else |body| - MaxOverhead(Some(x));
    if Open(Some(x), typ', version', seqNum', body).Some? {
      if x.variableNonceIncluded {
        assert body[..x.variableNonceLen] == variable && body[x.variableNonceLen..] == sealed;
      } else {
        assert body == sealed;
      }
      assert ad == AdditionalData(x, typ', version', seqNum', len);
      AdditionalDataBinds(x, typ, version, seqNum, |pt|, typ', version', seqNum', len);
    }
  }

  /** A record whose type, version or number has been changed on the way is discarded, and the
      reader stays as it was: no record can be replayed under another number. */
  lemma AlteredRecordDiscarded(r: ReadState, s: Sealed, typ: byte, version: nat, number: nat, rest: seq<byte>)
    requires r.Valid() && s.Valid() && s.cipher == r.cipher && r.cipher.Some? && Binding(r.cipher.value.prim)
    requires version < 0x1_0000 && number < 0x1_0000 * TWO_48
    requires typ != s.typ || version != s.version || number != s.number
    ensures var input := Head(typ, version, number, |s.Body()|) + s.Body() + rest;
            var o := OpenRecord(r, input);
            && o.state == r && o.result == Discard && o.received.None?
            && (o.consumed == |input| || o.consumed == RT_HEADER_LENGTH + |s.Body()|)
  {
    var head := Head(typ, version, number, |s.Body()|);
    var input := head + s.Body() + rest;
    AlteredDecoded(typ, version, number, s.Body(), rest, r.haveVersion, r.version);
    NumberRoundTrip(number);
    NumberRoundTrip(s.number);
    hide Decode, Open, Seal, Head, NumberBytes, ToNumber;
    OpensAsItself(r.cipher.value, |s.pt| + MaxOverhead(s.cipher), s.typ, s.version, NumberBytes(s.number), s.pt,
      s.random,
                  typ, version, NumberBytes(number));
  }

  lemma AlteredDecoded(typ: byte, version: nat, number: nat, body: seq<byte>, rest: seq<byte>, haveVersion: bool,
        expected: nat)
    requires version < 0x1_0000 && number < 0x1_0000 * TWO_48 && |body| < 0x1_0000
    ensures var d := Decode(haveVersion, expected, Head(typ, version, number, |body|) + body + rest);
            d.Some? ==> d.value == RawRecord(typ, version, number, body)
  {
    var head := Head(typ, version, number, |body|);
    var input := head + body + rest;
    assert input[3..11] == NumberBytes(number);
    NumberRoundTrip(number);
    assert input[RT_HEADER_LENGTH..RT_HEADER_LENGTH + |body|] == body;
  }
}

/** Record protection: how a nonce and the additional data are put together around an
    AEAD, for the cipher suites DTLS can negotiate. The AEAD itself is a parameter. */
module Aead {
  import opened Bytes

  /** An AEAD under one key. */
  datatype Primitive = Primitive(
    nonceLen: nat,
    maxOverhead: nat,
    seal: (seq<byte>, seq<byte>, seq<byte>) -> seq<byte>,  // nonce, additional data, plaintext
    open: (seq<byte>, seq<byte>, seq<byte>) -> Option<seq<byte>>)
  {
    /** Opening what was sealed gives the plaintext back, within the stated overhead. */
    ghost predicate Correct() {
      forall nonce: seq<byte>, ad: seq<byte>, pt: seq<byte> {:trigger seal(nonce, ad, pt)} ::
        open(nonce, ad, seal(nonce, ad, pt)) == Some(pt) && |seal(nonce, ad, pt)| <= |pt| + maxOverhead
    }

    /** AEADs proper add the same number of bytes to every plaintext. */
    ghost predicate FixedOverhead() {
      forall nonce: seq<byte>, ad: seq<byte>, pt: seq<byte> {:trigger seal(nonce, ad, pt)} ::
        |seal(nonce, ad, pt)| == |pt| + maxOverhead
    }
  }

  /** The bulk ciphers of the suites usable in DTLS; a block cipher is paired with an
      HMAC and takes an explicit initialisation vector of one block. */
  datatype Bulk = Gcm | ChaCha20Poly1305 | CbcHmac(ivLen: nat)

  datatype Context = Context(
    prim: Primitive,
    fixedNonce: seq<byte>,
    variableNonceLen: nat,
    variableNonceIncluded: bool,
    randomVariableNonce: bool,
    omitLengthInAd: bool,
    xorFixedNonce: bool)
  {
    /** What `SSL_AEAD_CTX_new` establishes; the lengths are those asserted when a
        record is sealed or opened. */
    ghost predicate Valid() {
      && prim.Correct()
      && (!omitLengthInAd ==> prim.FixedOverhead())
      && (xorFixedNonce ==> !variableNonceIncluded && variableNonceLen <= |fixedNonce| == prim.nonceLen)
      && (!xorFixedNonce ==> |fixedNonce| + variableNonceLen == prim.nonceLen)
      && (randomVariableNonce ==> variableNonceIncluded)
      && (!randomVariableNonce ==> variableNonceLen == 8)
    }
  }

  /** An absent context is the NULL cipher of the first epoch. */
  type Cipher = Option<Context>

  /** `SSL_AEAD_CTX_new` at the versions DTLS runs at (those of TLS 1.1 and 1.2). */
  function New(bulk: Bulk, prim: Primitive, fixedIv: seq<byte>): (c: Cipher)
    requires prim.nonceLen == match bulk { case CbcHmac(ivLen) => ivLen case _ => 12 }
    requires prim.Correct() && (!bulk.CbcHmac? ==> prim.FixedOverhead())
    ensures c.Some? ==> c.value.Valid() && c.value.prim == prim
    ensures c.Some? <==> |fixedIv| == match bulk { case Gcm => 4 case ChaCha20Poly1305 => 12 case CbcHmac(_) => 0 }
  {
    match bulk
    case Gcm =>
      if |fixedIv| != 4 then None
      else Some(Context(prim, fixedIv, prim.nonceLen - |fixedIv|, true, false, false, false))
    case ChaCha20Poly1305 =>
      if |fixedIv| != 12 then None
      else Some(Context(prim, fixedIv, 8, false, false, false, true))
    case CbcHmac(_) =>
      if |fixedIv| != 0 then None
      else Some(Context(prim, [], prim.nonceLen, true, true, true, false))
  }

  /** `SSL_AEAD_CTX_explicit_nonce_len` */
  function ExplicitNonceLen(c: Cipher): (n: nat)
  {
    if c.Some? && c.value.variableNonceIncluded then c.value.variableNonceLen else 0
  }

  /** `SSL_AEAD_CTX_max_overhead` */
  function MaxOverhead(c: Cipher): (n: nat)
  {
    if c.None? then 0 else c.value.prim.maxOverhead + ExplicitNonceLen(c)
  }

  /** `ssl_aead_ctx_get_ad` */
  function AdditionalData(x: Context, typ: byte, version: nat, seqNum: seq<byte>, plaintextLen: nat): (ad: seq<byte>)
    requires version < 0x1_0000
  {
    seqNum + [typ, version / 256, version % 256]
    + if x.omitLengthInAd then [] else [plaintextLen / 256 % 256, plaintextLen % 256]
  }

  /** Exclusive or of the lowest `width` bits. */
  function XorBits(a: nat, b: nat, width: nat): (c: nat)
    ensures c < Power2(width)
  {
    if width == 0 then 0 else (a + b) % 2 + 2 * XorBits(a / 2, b / 2, width - 1)
  }

  function XorByte(a: byte, b: byte): (c: byte)
  {
    assert Power2(8) == 256;
    XorBits(a, b, 8)
  }

  function Xor(a: seq<byte>, b: seq<byte>): (c: seq<byte>)
    requires |a| == |b|
    ensures |c| == |a|
  {
    seq(|a|, i requires 0 <= i < |a| => XorByte(a[i], b[i]))
  }

  /** The nonce of a record, given its variable part. */
  function Nonce(x: Context, variable: seq<byte>): (nonce: seq<byte>)
    requires x.xorFixedNonce ==> |variable| <= |x.fixedNonce|
  {
    if x.xorFixedNonce then Xor(Fill(0, |x.fixedNonce| - |variable|) + variable, x.fixedNonce)
    else x.fixedNonce + variable
  }

  /** `SSL_AEAD_CTX_seal`: None is a refusal for want of room. `random` is what the
      random number generator returns. */
  function Seal(c: Cipher, maxOut: nat, typ: byte, version: nat, seqNum: seq<byte>, pt: seq<byte>, random: seq<byte>)
    : (out: Option<seq<byte>>)
    requires version < 0x1_0000 && |seqNum| == 8
    requires c.Some? ==> c.value.Valid() && |random| == c.value.variableNonceLen
    ensures out.Some? <==> |pt| + MaxOverhead(c) <= maxOut
    ensures out.Some? ==> |out.value| <= |pt| + MaxOverhead(c)
  {
    if c.None? then
      if |pt| > maxOut then None else Some(pt)
    else
      var x := c.value;
      var variable := if x.randomVariableNonce then random else seqNum;
      var explicit := if x.variableNonceIncluded then variable else [];
      if maxOut < |pt| + MaxOverhead(c) then None
      else Some(explicit + x.prim.seal(Nonce(x, variable), AdditionalData(x, typ, version, seqNum, |pt|), pt))
  }

  /** `SSL_AEAD_CTX_open` */
  function Open(c: Cipher, typ: byte, version: nat, seqNum: seq<byte>, body: seq<byte>): (out: Option<seq<byte>>)
    requires version < 0x1_0000 && |seqNum| == 8
    requires c.Some? ==> c.value.Valid()
  {
    if c.None? then Some(body)
    else
      var x := c.value;
      if !x.omitLengthInAd && |body| < MaxOverhead(c) then None
      else
        var plaintextLen := if x.omitLengthInAd then 0 else |body| - MaxOverhead(c);
        var ad := AdditionalData(x, typ, version, seqNum, plaintextLen);
        if x.variableNonceIncluded then
          if |body| < x.variableNonceLen then None
          else x.prim.open(Nonce(x, body[..x.variableNonceLen]), ad, body[x.variableNonceLen..])
        else x.prim.open(Nonce(x, seqNum), ad, body)
  }

  /** In every mode, opening rebuilds the nonce and the additional data that sealing used. */
  lemma OpenSealed(c: Cipher, maxOut: nat, typ: byte, version: nat, seqNum: seq<byte>, pt: seq<byte>, random: seq<byte>)
    requires version < 0x1_0000 && |seqNum| == 8
    requires c.Some? ==> c.value.Valid() && |random| == c.value.variableNonceLen
    requires Seal(c, maxOut, typ, version, seqNum, pt, random).Some?
    ensures Open(c, typ, version, seqNum, Seal(c, maxOut, typ, version, seqNum, pt, random).value) == Some(pt)
  {
    if c.Some? {
      var x := c.value;
      var body := Seal(c, maxOut, typ, version, seqNum, pt, random).value;
      var variable := if x.randomVariableNonce then random else seqNum;
      var ad := AdditionalData(x, typ, version, seqNum, |pt|);
      var sealed := x.prim.seal(Nonce(x, variable), ad, pt);
      assert x.omitLengthInAd ==> ad == AdditionalData(x, typ, version, seqNum, 0);
      if x.variableNonceIncluded {
        assert body[..x.variableNonceLen] == variable && body[x.variableNonceLen..] == sealed;
      } else {
        assert body == sealed;
      }
    }
  }

  lemma {:induction false} XorBitsInjective(a: nat, b: nat, k: nat, width: nat)
    requires a < Power2(width) && b < Power2(width)
    requires XorBits(a, k, width) == XorBits(b, k, width)
    ensures a == b
  {
    if width > 0 {
      var x, y := XorBits(a / 2, k / 2, width - 1), XorBits(b / 2, k / 2, width - 1);
      assert (a + k) % 2 + 2 * x == (b + k) % 2 + 2 * y;
      XorBitsInjective(a / 2, b / 2, k / 2, width - 1);
      SameParity(a, b, k);
    }
  }

  lemma SameParity(a: nat, b: nat, k: nat)
    requires (a + k) % 2 == (b + k) % 2
    ensures a % 2 == b % 2
  {
  }

  lemma XorByteInjective(a: byte, b: byte, k: byte)
    requires XorByte(a, k) == XorByte(b, k)
    ensures a == b
  {
    assert Power2(8) == 256;
    XorBitsInjective(a, b, k, 8);
  }

  /** Under one key and fixed part, different variable parts give different nonces. */
  lemma NonceInjective(x: Context, s: seq<byte>, t: seq<byte>)
    requires |s| == |t| && (x.xorFixedNonce ==> |s| <= |x.fixedNonce|)
    requires Nonce(x, s) == Nonce(x, t)
    ensures s == t
  {
    if x.xorFixedNonce {
      var pad := |x.fixedNonce| - |s|;
      forall i | 0 <= i < |s|
        ensures s[i] == t[i]
      {
        assert Nonce(x, s)[pad + i] == XorByte(s[i], x.fixedNonce[pad + i]);
        assert Nonce(x, t)[pad + i] == XorByte(t[i], x.fixedNonce[pad + i]);
        XorByteInjective(s[i], t[i], x.fixedNonce[pad + i]);
      }
    } else {
      assert s == Nonce(x, s)[|x.fixedNonce|..];
      assert t == Nonce(x, t)[|x.fixedNonce|..];
    }
  }

  /** The nonce as both sealing and opening assemble it, in a fixed buffer. */
  method AssembleNonce(x: Context, variable: seq<byte>) returns (nonce: array<byte>)
    requires x.Valid() && |variable| == x.variableNonceLen
    ensures fresh(nonce) && nonce.Length == x.prim.nonceLen
    ensures nonce[..] == Nonce(x, variable)
  {
    nonce := new byte[x.prim.nonceLen](_ => 0);
    var prefix := if x.xorFixedNonce then |x.fixedNonce| - x.variableNonceLen else |x.fixedNonce|;
    if !x.xorFixedNonce {
      forall i | 0 <= i < prefix {
        nonce[i] := x.fixedNonce[i];
      }
    }
    forall i | 0 <= i < |variable| {
      nonce[prefix + i] := variable[i];
    }
    if x.xorFixedNonce {
      ghost var plain := nonce[..];
      assert plain == Fill(0, prefix) + variable;
      for i := 0 to |x.fixedNonce|
        invariant forall j | 0 <= j < nonce.Length ::
            nonce[j] == if j < i then XorByte(plain[j], x.fixedNonce[j]) else plain[j]
      {
        nonce[i] := XorByte(nonce[i], x.fixedNonce[i]);
      }
    }
  }
}

/** What a session is known to be once it has been parsed, whatever the bytes were. */
module SessionLimits {
  import opened Bytes
  import opened Der
  import opened DerCanonical
  import opened SessionDer

  /** Contents with exactly one element are those that are written for it. */
  lemma InnerExactly(content: seq<byte>, tag: byte, body: seq<byte>)
    requires tag % 32 != 31 && |body| <= MAX_LENGTH
    ensures Inner(content, tag) == Some(body) <==> content == Element(tag, body)
  {
    hide AnyElement, Element;
    ElementRead(tag, body, []);
    ElementCanonical(content);
    assert Element(tag, body) + [] == Element(tag, body);
    if Inner(content, tag) == Some(body) {
      var r := AnyElement(content).value;
      assert content == r.whole + [] == r.whole;
    }
  }

  /** A truth value is read from the one octet 00 or ff in its element, and from nothing else. */
  lemma BooleanExactly(content: seq<byte>, default: bool, b: bool)
    ensures OptionalBool(Some(content), default) == Some(b) <==> content == [0x01, 0x01, if b then 0xff else 0x00]
    ensures OptionalBool(None, default) == Some(default)
  {
    hide AnyElement;
    InnerExactly(content, BOOLEAN, [0x00]);
    InnerExactly(content, BOOLEAN, [0xff]);
  }

  lemma {:induction false} DigitsAreFew(n: nat, k: nat)
    requires k > 0 && n < Capacity(k)
    ensures |Digits(n)| <= k
    decreases k
  {
    if n >= 256 {
      DigitsAreFew(n / 256, k - 1);
    }
  }

  lemma UintIsShort(n: nat)
    requires n < Capacity(8)
    ensures |UintBody(n)| <= 9
  {
    DigitsAreFew(n, 8);
  }

  /** An integer from its one encoding. */
  lemma UintExactly(content: seq<byte>, bound: nat, default: nat, n: nat)
    requires n < Capacity(8)
    ensures OptionalUint(Some(content), bound, default) == Some(n) <==> n < bound && content == Uint(n)
  {
    hide GetElement, UintOf, UintBody, Element, Capacity;
    UintIsShort(n);
    InnerExactly(content, INTEGER, UintBody(n));
    UintCanonical(UintBody(n), n);
    var b := Inner(content, INTEGER);
    if b.Some? {
      UintCanonical(b.value, n);
    }
  }

  lemma UintIsBounded(content: Option<seq<byte>>, bound: nat, default: nat)
    ensures var n := OptionalUint(content, bound, default); n.Some? ==> n.value < bound
  {
    hide UintOf, GetElement;
  }

  lemma StartLimits(rd: Reader, m: Found)
    ensures var a := ReadStart(rd, m);
            a.Some? ==>
              && FVersion in m && UintOf(m[FVersion]) == Some(1)
              && rd.knowsCipher(a.value.cipher) && a.value.cipher < 0x1_0000
              && |a.value.sessionId| <= 32 && |a.value.masterKey| <= 48 && a.value.timeout < 0x1_0000_0000
  {
    hide UintOf, GetElement;
  }

  lemma MiddleLimits(m: Found)
    ensures var b := ReadMiddle(m);
            b.Some? ==>
              && |b.value.sidCtx| <= 32 && b.value.verifyResult < 0x8000_0000_0000_0000
              && b.value.ticketLifetimeHint < 0x1_0000_0000 && b.value.ticket != Some([])
              && (b.value.peerSha256.Some? ==> |b.value.peerSha256.value| == 32)
              && (b.value.hostname.Some? ==> 0 !in b.value.hostname.value)
              && (b.value.pskIdentity.Some? ==> 0 !in b.value.pskIdentity.value)
  {
    hide OptionalUint, OptionalOctets;
    UintIsBounded(Lookup(m, FVerifyResult), LONG_MAX + 1, 0);
    UintIsBounded(Lookup(m, FTicketLifetimeHint), TWO_32, 0);
  }

  lemma TailLimits(rd: Reader, m: Found)
    ensures var c := ReadTail(rd, m);
            c.Some? ==>
              && |c.value.originalHandshakeHash| <= 64 && c.value.groupId < 0x1_0000
              && rd.acceptsCerts(c.value.certs) && [] !in c.value.certs
              && (FPeer in m <==> |c.value.certs| >= 1) && (FCertChain in m <==> |c.value.certs| >= 2)
  {
    hide OptionalUint, OptionalOctets, SplitChain;
    UintIsBounded(Lookup(m, FGroupId), TWO_16, 0);
    var peer, chain := Lookup(m, FPeer), Lookup(m, FCertChain);
    ChainParts(if chain.None? then [] else chain.value);
  }

  lemma {:induction false} ChainParts(s: seq<byte>)
    ensures SplitChain(s).Some? ==> [] !in SplitChain(s).value && (s != [] <==> SplitChain(s).value != [])
    decreases |s|
  {
    hide AnyElement;
    if s != [] && AnyElement(s).Some? {
      ChainParts(AnyElement(s).value.rest);
    }
  }

  lemma EndLimits(m: Found, timeout: nat)
    ensures var d := ReadEnd(m, timeout);
            d.Some? ==>
              && (d.value.ticketAgeAdd.Some? ==> d.value.ticketAgeAdd.value < 0x1_0000_0000)
              && d.value.peerSignatureAlgorithm < 0x1_0000 && d.value.ticketMaxEarlyData < 0x1_0000_0000
              && d.value.authTimeout < 0x1_0000_0000 && d.value.earlyAlpn != Some([])
  {
    hide OptionalUint, OptionalOctets, OptionalBool;
    Capacities4();
    UintIsBounded(Lookup(m, FPeerSignatureAlgorithm), TWO_16, 0);
    UintIsBounded(Lookup(m, FTicketMaxEarlyData), TWO_32, 0);
    UintIsBounded(Lookup(m, FAuthTimeout), TWO_32, timeout);
  }

  /** Nothing that is too long or too large for its field, of an unknown cipher, with a zero
      byte in a name or with an empty certificate is ever accepted. */
  lemma ParsedIsInRange(rd: Reader, input: seq<byte>)
    ensures var r := FromBytes(rd, input);
            r.Some? ==>
              var s := r.value;
              && rd.knowsCipher(s.cipher) && s.cipher < 0x1_0000
              && |s.sessionId| <= 32 && |s.masterKey| <= 48 && s.timeout < 0x1_0000_0000
              && |s.sidCtx| <= 32 && 0 <= s.verifyResult < 0x8000_0000_0000_0000
              && (s.hostname.Some? ==> 0 !in s.hostname.value) && (s.pskIdentity.Some? ==> 0 !in s.pskIdentity.value)
              && s.ticketLifetimeHint < 0x1_0000_0000 && s.ticket != Some([])
              && (s.peerSha256.Some? ==> |s.peerSha256.value| == 32)
              && |s.originalHandshakeHash| <= 64 && s.groupId < 0x1_0000
              && rd.acceptsCerts(s.certs) && [] !in s.certs
              && (s.ticketAgeAdd.Some? ==> s.ticketAgeAdd.value < 0x1_0000_0000)
              && s.peerSignatureAlgorithm < 0x1_0000 && s.ticketMaxEarlyData < 0x1_0000_0000
              && s.authTimeout < 0x1_0000_0000 && s.earlyAlpn != Some([]) && !s.notResumable
  {
    hide GetElement, ReadFields, ReadStart, ReadMiddle, ReadTail, ReadEnd;
    var r := GetElement(input, SEQUENCE);
    if r.Some? {
      var m := ReadFields(r.value.body, FIELDS);
      if m.Some? {
        StartLimits(rd, m.value);
        MiddleLimits(m.value);
        TailLimits(rd, m.value);
        if ReadStart(rd, m.value).Some? {
          EndLimits(m.value, ReadStart(rd, m.value).value.timeout);
        }
      }
    }
  }
}

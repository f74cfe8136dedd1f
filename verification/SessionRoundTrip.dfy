/** Parsing undoes printing. */
module SessionRoundTrip {
  import opened Bytes
  import opened Der
  import opened SessionDer

  predicate Required(f: Field) {
    f in {FVersion, FSslVersion, FCipher, FSessionId, FMasterKey, FTime, FTimeout}
  }

  function RankOf(f: Field): nat {
    match f
    case FVersion => 0
    case FSslVersion => 1
    case FCipher => 2
    case FSessionId => 3
    case FMasterKey => 4
    case FTime => 5
    case FTimeout => 6
    case FPeer => 7
    case FSidCtx => 8
    case FVerifyResult => 9
    case FHostName => 10
    case FPskIdentity => 11
    case FTicketLifetimeHint => 12
    case FTicket => 13
    case FPeerSha256 => 14
    case FOriginalHash => 15
    case FSctList => 16
    case FOcspResponse => 17
    case FExtendedMasterSecret => 18
    case FGroupId => 19
    case FCertChain => 20
    case FTicketAgeAdd => 21
    case FIsServer => 22
    case FPeerSignatureAlgorithm => 23
    case FTicketMaxEarlyData => 24
    case FAuthTimeout => 25
    case FEarlyAlpn => 26
  }

  /** No field twice, and no optional field shares its tag with a later one. */
  ghost predicate Separable(fields: seq<Field>) {
    forall i, j | 0 <= i < j < |fields| :: RankOf(fields[i]) < RankOf(fields[j])
  }

  lemma RanksOfFields(i: nat)
    requires i < |FIELDS|
    ensures RankOf(FIELDS[i]) == i
  {
  }

  lemma FieldsSeparable()
    ensures Separable(FIELDS)
  {
    hide RankOf;
    forall i, j | 0 <= i < j < |FIELDS|
      ensures RankOf(FIELDS[i]) < RankOf(FIELDS[j])
    {
      RanksOfFields(i);
      RanksOfFields(j);
    }
  }

  lemma LaterTag(f: Field, g: Field)
    requires RankOf(f) < RankOf(g) && !Required(f)
    ensures TagOf(f) != TagOf(g)
  {
  }

  lemma RequiredPresent(s: Session, forTicket: bool, f: Field)
    requires Required(f)
    ensures ContentOf(s, forTicket, f).Some?
  {
  }

  /** The first octet of what is left is the tag of a field that is there. */
  lemma {:induction false} FirstTag(s: Session, forTicket: bool, fields: seq<Field>)
    requires Write(s, forTicket, fields) != []
    ensures exists k | 0 <= k < |fields| :: Write(s, forTicket, fields)[0] == TagOf(fields[k])
    decreases |fields|
  {
    hide ContentOf, TagOf;
    if ContentOf(s, forTicket, fields[0]).Some? {
      assert Write(s, forTicket, fields)[0] == TagOf(fields[0]);
    } else {
      assert Write(s, forTicket, fields) == Write(s, forTicket, fields[1..]);
      FirstTag(s, forTicket, fields[1..]);
      var k :| 0 <= k < |fields[1..]| && Write(s, forTicket, fields[1..])[0] == TagOf(fields[1..][k]);
      assert fields[1..][k] == fields[k + 1];
    }
  }

  /** The contents found are those of the fields. */
  ghost predicate Finds(m: Found, s: Session, forTicket: bool, fields: seq<Field>) {
    forall f :: Lookup(m, f) == if f in fields then ContentOf(s, forTicket, f) else None
  }

  lemma FindsOneMore(m: Found, s: Session, forTicket: bool, fields: seq<Field>)
    requires fields != [] && fields[0] !in fields[1..] && Finds(m, s, forTicket, fields[1..])
    ensures var c := ContentOf(s, forTicket, fields[0]);
            Finds(if c.Some? then m[fields[0] := c.value] else m, s, forTicket, fields)
  {
    hide ContentOf;
    var c := ContentOf(s, forTicket, fields[0]);
    var n := if c.Some? then m[fields[0] := c.value] else m;
    forall f
      ensures Lookup(n, f) == if f in fields then ContentOf(s, forTicket, f) else None
    {
      assert Lookup(m, f) == if f in fields[1..] then ContentOf(s, forTicket, f) else None;
      assert f in fields <==> f == fields[0] || f in fields[1..];
    }
  }

  lemma PresentRead(c: seq<byte>, rest: seq<byte>, fields: seq<Field>)
    requires fields != [] && |c| <= MAX_LENGTH
    ensures ReadFields(Element(TagOf(fields[0]), c) + rest, fields) ==
      match ReadFields(rest, fields[1..])
      case None => None
      case Some(m) => Some(m[fields[0] := c])
  {
    hide TagOf, Element;
    ElementRead(TagOf(fields[0]), c, rest);
  }

  /** Reading the fields finds the contents that were written, and nothing else. */
  lemma {:induction false} FieldsRead(s: Session, forTicket: bool, fields: seq<Field>)
    requires Separable(fields) && |Write(s, forTicket, fields)| <= MAX_LENGTH
    ensures var r := ReadFields(Write(s, forTicket, fields), fields);
            r.Some? && Finds(r.value, s, forTicket, fields)
    decreases |fields|
  {
    hide ContentOf, TagOf, RankOf, Element, Finds;
    if fields == [] {
      NothingFound(s, forTicket);
    } else {
      var f, rest := fields[0], Write(s, forTicket, fields[1..]);
      TailSeparable(fields);
      FieldsRead(s, forTicket, fields[1..]);
      FindsOneMore(ReadFields(rest, fields[1..]).value, s, forTicket, fields);
      match ContentOf(s, forTicket, f)
      case Some(c) => PresentRead(c, rest, fields);
      case None =>
        assert Write(s, forTicket, fields) == rest;
        if rest != [] {
          FirstTag(s, forTicket, fields[1..]);
          var k :| 0 <= k < |fields[1..]| && rest[0] == TagOf(fields[1..][k]);
          assert fields[1..][k] == fields[k + 1];
          if Required(f) {
            RequiredPresent(s, forTicket, f);
          }
          LaterTag(f, fields[k + 1]);
        }
    }
  }

  lemma NothingFound(s: Session, forTicket: bool)
    ensures Finds(map[], s, forTicket, [])
  {
  }

  lemma TailSeparable(fields: seq<Field>)
    requires fields != [] && Separable(fields)
    ensures Separable(fields[1..]) && fields[0] !in fields[1..]
  {
    hide RankOf;
    var t := fields[1..];
    forall i, j | 0 <= i < j < |t|
      ensures RankOf(t[i]) < RankOf(t[j])
    {
      assert t[i] == fields[i + 1] && t[j] == fields[j + 1];
    }
    forall i | 0 <= i < |t|
      ensures t[i] != fields[0]
    {
      assert t[i] == fields[i + 1] && RankOf(fields[0]) < RankOf(fields[i + 1]);
    }
  }

  // ---------------------------------------------------------------- the fields one by one

  /** A certificate of a chain is one element. */
  predicate IsElement(c: seq<byte>) {
    AnyElement(c).Some? && AnyElement(c).value.whole == c
  }

  predicate NoZeros(o: Option<seq<byte>>) {
    o.Some? ==> !HasZero(o.value)
  }

  /** A session whose fields are in the ranges of their C types, with certificates that can
      be told apart unless only the hash of the first is kept. */
  predicate Valid(rd: Reader, s: Session) {
    && s.sslVersion < 0x8000_0000 && s.cipher < TWO_16 && rd.knowsCipher(s.cipher)
    && |s.sessionId| <= MAX_SESSION_ID && |s.masterKey| <= MAX_MASTER_KEY
    && s.time < Capacity(8) && s.timeout < TWO_32
    && |s.sidCtx| <= MAX_SID_CTX && -LONG_MAX - 1 <= s.verifyResult <= LONG_MAX
    && NoZeros(s.hostname) && NoZeros(s.pskIdentity) && s.ticketLifetimeHint < TWO_32
    && (s.peerSha256.Some? ==> |s.peerSha256.value| == SHA256_LENGTH)
    && |s.originalHandshakeHash| <= MAX_MD_SIZE && s.groupId < TWO_16
    && (s.ticketAgeAdd.Some? ==> s.ticketAgeAdd.value < TWO_32)
    && s.peerSignatureAlgorithm < TWO_16 && s.ticketMaxEarlyData < TWO_32 && s.authTimeout < TWO_32
    && (s.peerSha256.None? && s.certs != [] ==>
        s.certs[0] != [] && forall i | 1 <= i < |s.certs| :: IsElement(s.certs[i]))
    && rd.acceptsCerts(Kept(s))
  }

  /** The certificates that are serialized. */
  function Kept(s: Session): seq<seq<byte>> {
    if s.peerSha256.Some? then [] else s.certs
  }

  function NonEmpty(o: Option<seq<byte>>): Option<seq<byte>> {
    if o == Some([]) then None else o
  }

  /** What is left of a session: certificates are dropped if the hash of the first is kept,
      an empty buffer becomes a null pointer, and a ticket holds neither session ID nor ticket. */
  function Normal(s: Session, forTicket: bool): Session {
    s.(certs := Kept(s), sessionId := if forTicket then [] else s.sessionId,
       ticket := if forTicket then None else NonEmpty(s.ticket), earlyAlpn := NonEmpty(s.earlyAlpn),
       notResumable := false)
  }

  lemma InnerRead(tag: byte, body: seq<byte>)
    requires tag % 32 != 31 && |body| <= MAX_LENGTH
    ensures Inner(Element(tag, body), tag) == Some(body) && GetElement(Element(tag, body), tag).Some?
    ensures GetElement(Element(tag, body), tag).value.body == body
  {
    ElementRead(tag, body, []);
    assert Element(tag, body) + [] == Element(tag, body);
  }

  lemma {:induction false} DigitsLength(n: nat, k: nat)
    requires k > 0 && n < Capacity(k)
    ensures |Digits(n)| <= k
  {
    if n >= 256 {
      if k == 1 {
        Capacities4();
      }
      DigitsLength(n / 256, k - 1);
    }
  }

  lemma UintField(n: nat, bound: nat, default: nat)
    requires n < Capacity(8)
    ensures OptionalUint(Some(Uint(n)), bound, default) == if n < bound then Some(n) else None
    ensures FirstInteger(Uint(n)) == Some(n) && UintOf(UintBody(n)) == Some(n)
  {
    hide Capacity, Inner, Element;
    DigitsLength(n, 8);
    UintRead(n);
    InnerRead(INTEGER, UintBody(n));
  }

  lemma OctetsField(b: seq<byte>)
    requires |b| <= MAX_LENGTH
    ensures OptionalOctets(Some(Octets(b))) == Some(Some(b))
  {
    InnerRead(OCTET_STRING, b);
  }

  lemma BooleanField(b: bool, default: bool)
    ensures OptionalBool(Some(Boolean(b)), default) == Some(b)
  {
    InnerRead(BOOLEAN, [if b then 0xff else 0x00]);
  }

  lemma OneConcat(c: seq<byte>)
    ensures Concat([c]) == c
  {
    var none: seq<seq<byte>> := [c][..0];
    assert none == [] && Concat(none) == [];
  }

  lemma {:induction false} SplitConcat(certs: seq<seq<byte>>)
    requires forall i | 0 <= i < |certs| :: IsElement(certs[i])
    ensures SplitChain(Concat(certs)) == Some(certs)
    decreases |certs|
  {
    hide AnyElement;
    if certs != [] {
      var c, rest := certs[0], certs[1..];
      assert [c] + rest == certs;
      OneConcat(c);
      ConcatAppend([c], rest);
      forall i | 0 <= i < |rest|
        ensures IsElement(rest[i])
      {
        assert rest[i] == certs[i + 1];
      }
      SplitConcat(rest);
      ElementExtends(c, Concat(rest));
    }
  }

  /** The contents of all fields. */
  ghost predicate FindsAll(m: Found, s: Session, forTicket: bool) {
    forall f :: Lookup(m, f) == ContentOf(s, forTicket, f)
  }

  lemma EveryField(f: Field)
    ensures f in FIELDS
  {
    assert FIELDS[RankOf(f)] == f;
  }

  lemma FindsEveryField(m: Found, s: Session, forTicket: bool)
    requires Finds(m, s, forTicket, FIELDS)
    ensures FindsAll(m, s, forTicket)
  {
    hide ContentOf;
    forall f
      ensures Lookup(m, f) == ContentOf(s, forTicket, f)
    {
      EveryField(f);
    }
  }

  lemma {:induction false} ContentFits(s: Session, forTicket: bool, fields: seq<Field>, f: Field)
    requires f in fields && ContentOf(s, forTicket, f).Some?
    ensures |ContentOf(s, forTicket, f).value| <= |Write(s, forTicket, fields)|
    decreases |fields|
  {
    hide ContentOf, TagOf;
    if f != fields[0] {
      ContentFits(s, forTicket, fields[1..], f);
    }
  }

  /** Byte strings that are written are short enough to be read. */
  ghost predicate Fits(s: Session, forTicket: bool) {
    forall f | ContentOf(s, forTicket, f).Some? :: |ContentOf(s, forTicket, f).value| <= MAX_LENGTH
  }

  lemma AllFits(s: Session, forTicket: bool)
    requires |Write(s, forTicket, FIELDS)| <= MAX_LENGTH
    ensures Fits(s, forTicket)
  {
    hide ContentOf;
    forall f | ContentOf(s, forTicket, f).Some?
      ensures |ContentOf(s, forTicket, f).value| <= MAX_LENGTH
    {
      EveryField(f);
      ContentFits(s, forTicket, FIELDS, f);
    }
  }

  lemma CipherBytes(c: nat)
    requires c < TWO_16
    ensures Join16(c / 256 % 256, c % 256) == c
  {
    assert c / 256 < 256;
  }

  lemma StartRead(rd: Reader, m: Found, s: Session, forTicket: bool)
    requires Valid(rd, s) && FindsAll(m, s, forTicket)
    ensures ReadStart(rd, m) ==
      Some(Start(s.sslVersion, s.cipher, if forTicket then [] else s.sessionId, s.masterKey, s.time, s.timeout))
  {
    hide UintBody, UintOf, Uint, FirstInteger, Capacity, Join16, HasZero, IsElement, AnyElement, Kept;
    Capacities();
    CipherBytes(s.cipher);
    UintField(VERSION, 2, 0);
    UintField(s.sslVersion, 0, 0);
    UintField(s.time, 0, 0);
    UintField(s.timeout, 0, 0);
    Present(m, s, forTicket, FVersion);
    Present(m, s, forTicket, FSslVersion);
    Present(m, s, forTicket, FCipher);
    Present(m, s, forTicket, FSessionId);
    Present(m, s, forTicket, FMasterKey);
    Present(m, s, forTicket, FTime);
    Present(m, s, forTicket, FTimeout);
  }

  lemma Present(m: Found, s: Session, forTicket: bool, f: Field)
    requires FindsAll(m, s, forTicket) && Required(f)
    ensures f in m && ContentOf(s, forTicket, f) == Some(m[f])
  {
    hide ContentOf;
    assert Lookup(m, f) == ContentOf(s, forTicket, f);
    RequiredPresent(s, forTicket, f);
  }

  /** An integer field that is left out when it has its default. */
  lemma UintOrDefault(n: nat, default: nat, bound: nat)
    requires n < bound && default < bound <= Capacity(8)
    ensures OptionalUint(If(n != default, Uint(n)), bound, default) == Some(n)
  {
    hide Capacity, Uint, Inner;
    UintField(n, bound, default);
  }

  /** A byte string that may be absent. */
  lemma OctetsOrAbsent(o: Option<seq<byte>>)
    requires o.Some? ==> |o.value| <= MAX_LENGTH
    ensures OptionalOctets(Map(o)) == Some(o)
  {
    hide Octets, Inner;
    if o.Some? {
      OctetsField(o.value);
    }
  }

  /** A byte string that is left out when it is empty. */
  lemma OctetsOrEmpty(b: seq<byte>)
    requires |b| <= MAX_LENGTH
    ensures OptionalOctets(If(b != [], Octets(b))) == Some(NonEmpty(Some(b)))
  {
    hide Octets, Inner;
    OctetsField(b);
  }

  // What is found for a field of each kind.

  lemma OctetsFound(m: Found, s: Session, forTicket: bool, f: Field, o: Option<seq<byte>>)
    requires FindsAll(m, s, forTicket) && Fits(s, forTicket) && ContentOf(s, forTicket, f) == Map(o)
    ensures OptionalOctets(Lookup(m, f)) == Some(o)
  {
    hide ContentOf, OptionalOctets, Map;
    FitsInside(s, forTicket, f, o);
    OctetsOrAbsent(o);
    assert Lookup(m, f) == ContentOf(s, forTicket, f);
  }

  lemma BufferFound(m: Found, s: Session, forTicket: bool, f: Field, b: seq<byte>)
    requires FindsAll(m, s, forTicket) && Fits(s, forTicket) && ContentOf(s, forTicket, f) == If(b != [], Octets(b))
    ensures OptionalOctets(Lookup(m, f)) == Some(NonEmpty(Some(b)))
  {
    hide ContentOf, OptionalOctets, If;
    FitsBuffer(s, forTicket, f, b);
    OctetsOrEmpty(b);
    assert Lookup(m, f) == ContentOf(s, forTicket, f);
  }

  lemma UintFound(m: Found, s: Session, forTicket: bool, f: Field, n: nat, default: nat, bound: nat)
    requires FindsAll(m, s, forTicket) && ContentOf(s, forTicket, f) == If(n != default, Uint(n))
    requires n < bound && default < bound <= Capacity(8)
    ensures OptionalUint(Lookup(m, f), bound, default) == Some(n)
  {
    hide ContentOf, OptionalUint, If, Capacity;
    UintOrDefault(n, default, bound);
    assert Lookup(m, f) == ContentOf(s, forTicket, f);
  }

  lemma NegativeFound(m: Found, s: Session, forTicket: bool)
    requires FindsAll(m, s, forTicket) && -LONG_MAX - 1 <= s.verifyResult < 0
    ensures OptionalUint(Lookup(m, FVerifyResult), LONG_MAX + 1, 0) == None
  {
    hide OptionalUint, Uint, Capacity;
    Capacities();
    UintField(Unsigned(s.verifyResult), LONG_MAX + 1, 0);
    assert Lookup(m, FVerifyResult) == ContentOf(s, forTicket, FVerifyResult);
  }

  lemma FlagFound(m: Found, s: Session, forTicket: bool, f: Field, b: bool, default: bool)
    requires FindsAll(m, s, forTicket) && ContentOf(s, forTicket, f) == If(b != default, Boolean(b))
    ensures OptionalBool(Lookup(m, f), default) == Some(b)
  {
    hide ContentOf, OptionalBool;
    BooleanField(b, default);
    BooleanAbsent(default);
    assert Lookup(m, f) == ContentOf(s, forTicket, f);
  }

  lemma MiddleRead(m: Found, rd: Reader, s: Session, forTicket: bool)
    requires Valid(rd, s) && FindsAll(m, s, forTicket) && Fits(s, forTicket)
    ensures ReadMiddle(m) ==
      if s.verifyResult < 0 then None
      else
        Some(Middle(s.sidCtx, s.verifyResult, s.hostname, s.pskIdentity, s.ticketLifetimeHint,
                    if forTicket then None else NonEmpty(s.ticket), s.peerSha256))
  {
    hide FindsAll, Fits, Lookup, OptionalOctets, OptionalUint, Capacity, Uint, Octets, HasZero, IsElement, Kept;
    Capacities();
    OctetsFound(m, s, forTicket, FSidCtx, Some(s.sidCtx));
    if s.verifyResult < 0 {
      NegativeFound(m, s, forTicket);
    } else {
      UintFound(m, s, forTicket, FVerifyResult, s.verifyResult, 0, LONG_MAX + 1);
    }
    OctetsFound(m, s, forTicket, FHostName, s.hostname);
    OctetsFound(m, s, forTicket, FPskIdentity, s.pskIdentity);
    UintFound(m, s, forTicket, FTicketLifetimeHint, s.ticketLifetimeHint, 0, TWO_32);
    OctetsFound(m, s, forTicket, FTicket, if forTicket then None else s.ticket);
    OctetsFound(m, s, forTicket, FPeerSha256, s.peerSha256);
  }

  lemma FitsInside(s: Session, forTicket: bool, f: Field, o: Option<seq<byte>>)
    requires Fits(s, forTicket) && ContentOf(s, forTicket, f) == Map(o)
    ensures o.Some? ==> |o.value| <= MAX_LENGTH
  {
    hide ContentOf;
    if o.Some? {
      assert |ContentOf(s, forTicket, f).value| <= MAX_LENGTH;
    }
  }

  lemma FitsBuffer(s: Session, forTicket: bool, f: Field, b: seq<byte>)
    requires Fits(s, forTicket) && ContentOf(s, forTicket, f) == If(b != [], Octets(b))
    ensures |b| <= MAX_LENGTH
  {
    hide ContentOf;
    if b != [] {
      assert |ContentOf(s, forTicket, f).value| <= MAX_LENGTH;
    }
  }

  lemma CertsRead(rd: Reader, s: Session, forTicket: bool)
    requires Valid(rd, s)
    ensures Certificates(ContentOf(s, forTicket, FPeer), ContentOf(s, forTicket, FCertChain)) == Some(Kept(s))
  {
    hide AnyElement, Capacity;
    if s.peerSha256.None? && |s.certs| >= 2 {
      var chain := s.certs[1..];
      forall i | 0 <= i < |chain|
        ensures IsElement(chain[i])
      {
        assert chain[i] == s.certs[i + 1];
      }
      SplitConcat(chain);
      ConcatNotEmpty(chain);
      assert [s.certs[0]] + chain == s.certs;
    } else if s.peerSha256.None? && |s.certs| == 1 {
      assert [s.certs[0]] + [] == s.certs;
    }
  }

  lemma ConcatNotEmpty(certs: seq<seq<byte>>)
    requires certs != [] && IsElement(certs[|certs| - 1])
    ensures Concat(certs) != []
  {
    assert certs[|certs| - 1] != [];
  }

  lemma TailRead(rd: Reader, m: Found, s: Session, forTicket: bool)
    requires Valid(rd, s) && FindsAll(m, s, forTicket) && Fits(s, forTicket)
    ensures ReadTail(rd, m) ==
      Some(Tail(s.originalHandshakeHash, s.sctList, s.ocspResponse, s.extendedMasterSecret, s.groupId, Kept(s)))
  {
    hide FindsAll, Fits, Lookup, OptionalOctets, OptionalUint, OptionalBool, Certificates, Capacity, Uint, Octets,
      Boolean, Kept, IsElement, HasZero;
    Capacities();
    BufferFound(m, s, forTicket, FOriginalHash, s.originalHandshakeHash);
    BufferFound(m, s, forTicket, FSctList, s.sctList);
    BufferFound(m, s, forTicket, FOcspResponse, s.ocspResponse);
    FlagFound(m, s, forTicket, FExtendedMasterSecret, s.extendedMasterSecret, false);
    UintFound(m, s, forTicket, FGroupId, s.groupId, 0, TWO_16);
    CertsFound(rd, m, s, forTicket);
  }

  lemma CertsFound(rd: Reader, m: Found, s: Session, forTicket: bool)
    requires Valid(rd, s) && FindsAll(m, s, forTicket)
    ensures Certificates(Lookup(m, FPeer), Lookup(m, FCertChain)) == Some(Kept(s))
  {
    hide Valid, ContentOf, Certificates, Kept;
    CertsRead(rd, s, forTicket);
    assert Lookup(m, FPeer) == ContentOf(s, forTicket, FPeer)
        && Lookup(m, FCertChain) == ContentOf(s, forTicket, FCertChain);
  }

  lemma BooleanAbsent(default: bool)
    ensures OptionalBool(None, default) == Some(default)
  {
  }

  lemma AgeAddRead(o: Option<nat>)
    requires o.Some? ==> o.value < TWO_32
    ensures var content := match o case None => None case Some(n) => Some(Octets(ToBe(n % Capacity(4), 4)));
            AgeAdd(OptionalOctets(content)) == Some(o)
  {
    hide ToBe, FromBe, Octets, Inner;
    Capacities4();
    if o.Some? {
      FromToBe(o.value, 4);
      OctetsField(ToBe(o.value, 4));
    }
  }

  lemma AgeAddFound(m: Found, s: Session, forTicket: bool)
    requires FindsAll(m, s, forTicket) && (s.ticketAgeAdd.Some? ==> s.ticketAgeAdd.value < TWO_32)
    ensures AgeAdd(OptionalOctets(Lookup(m, FTicketAgeAdd))) == Some(s.ticketAgeAdd)
  {
    hide AgeAdd, OptionalOctets, Octets, ToBe, Capacity;
    AgeAddRead(s.ticketAgeAdd);
    assert Lookup(m, FTicketAgeAdd) == ContentOf(s, forTicket, FTicketAgeAdd);
  }

  lemma EndRead(rd: Reader, m: Found, s: Session, forTicket: bool)
    requires Valid(rd, s) && FindsAll(m, s, forTicket) && Fits(s, forTicket)
    ensures ReadEnd(m, s.timeout) ==
      Some(End(s.ticketAgeAdd, s.isServer, s.peerSignatureAlgorithm, s.ticketMaxEarlyData, s.authTimeout,
        NonEmpty(s.earlyAlpn)))
  {
    hide FindsAll, Fits, Lookup, OptionalOctets, OptionalUint, OptionalBool, AgeAdd, Capacity, Uint, Octets, Boolean,
      IsElement, ToBe, HasZero, Kept;
    Capacities();
    AgeAddFound(m, s, forTicket);
    FlagFound(m, s, forTicket, FIsServer, s.isServer, true);
    UintFound(m, s, forTicket, FPeerSignatureAlgorithm, s.peerSignatureAlgorithm, 0, TWO_16);
    UintFound(m, s, forTicket, FTicketMaxEarlyData, s.ticketMaxEarlyData, 0, TWO_32);
    UintFound(m, s, forTicket, FAuthTimeout, s.authTimeout, s.timeout, TWO_32);
    OctetsFound(m, s, forTicket, FEarlyAlpn, s.earlyAlpn);
  }

  /** Parsing a printed session gives the session back, up to what is not kept; but if the
      verification result is negative, printing makes it a number that parsing refuses. */
  lemma RoundTrip(rd: Reader, s: Session, forTicket: bool)
    requires Valid(rd, s) && ToBytesFull(s, forTicket).Some?
    ensures FromBytes(rd, ToBytesFull(s, forTicket).value) ==
      if s.verifyResult >= 0 then Some(Normal(s, forTicket)) else None
  {
    hide Write, ReadFields, Valid, ContentOf, ReadStart, ReadMiddle, ReadTail, ReadEnd, Finds, FindsAll, Fits, Kept;
    var body := Write(s, forTicket, FIELDS);
    InnerRead(SEQUENCE, body);
    FieldsSeparable();
    FieldsRead(s, forTicket, FIELDS);
    var m := ReadFields(body, FIELDS).value;
    FindsEveryField(m, s, forTicket);
    AllFits(s, forTicket);
    StartRead(rd, m, s, forTicket);
    MiddleRead(m, rd, s, forTicket);
    TailRead(rd, m, s, forTicket);
    EndRead(rd, m, s, forTicket);
  }

  /** What stands for a session that must not be resumed is never accepted. */
  lemma NotResumableIsRejected(rd: Reader, s: Session)
    requires s.notResumable
    ensures ToBytes(s).Some? && FromBytes(rd, ToBytes(s).value).None?
  {
    assert NOT_RESUMABLE[0] == 0x4e;
  }
}

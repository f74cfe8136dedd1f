/** The serialization of sessions. */
module SessionDer {
  import opened Bytes
  import opened Der

  const VERSION := 1
  const MAX_SESSION_ID := 32
  const MAX_MASTER_KEY := 48
  const MAX_SID_CTX := 32
  const MAX_MD_SIZE := 64
  const SHA256_LENGTH := 32
  const LONG_MAX := 0x7fff_ffff_ffff_ffff
  const TWO_16 := 0x1_0000
  const TWO_32 := 0x1_0000_0000
  const NOT_RESUMABLE: seq<byte> := [0x4e, 0x4f, 0x54, 0x20, 0x52, 0x45, 0x53, 0x55, 0x4d, 0x41, 0x42, 0x4c, 0x45]

  /** SSL_SESSION. A pointer that may be null is an option; a value with a validity bit too. */
  datatype Session = Session(
    sslVersion: nat, cipher: nat, sessionId: seq<byte>, masterKey: seq<byte>, time: nat, timeout: nat,
    certs: seq<seq<byte>>, sidCtx: seq<byte>, verifyResult: int, hostname: Option<seq<byte>>,
    pskIdentity: Option<seq<byte>>, ticketLifetimeHint: nat, ticket: Option<seq<byte>>, peerSha256: Option<seq<byte>>,
    originalHandshakeHash: seq<byte>, sctList: seq<byte>, ocspResponse: seq<byte>, extendedMasterSecret: bool,
    groupId: nat, ticketAgeAdd: Option<nat>, isServer: bool, peerSignatureAlgorithm: nat, ticketMaxEarlyData: nat,
    authTimeout: nat, earlyAlpn: Option<seq<byte>>, notResumable: bool)

  /** The elements of the sequence in their order. */
  datatype Field =
    | FVersion | FSslVersion | FCipher | FSessionId | FMasterKey | FTime | FTimeout | FPeer | FSidCtx | FVerifyResult
    | FHostName | FPskIdentity | FTicketLifetimeHint | FTicket | FPeerSha256 | FOriginalHash | FSctList | FOcspResponse
    | FExtendedMasterSecret | FGroupId | FCertChain | FTicketAgeAdd | FIsServer | FPeerSignatureAlgorithm
    | FTicketMaxEarlyData | FAuthTimeout | FEarlyAlpn

  const FIELDS: seq<Field> :=
    [FVersion, FSslVersion, FCipher, FSessionId, FMasterKey, FTime, FTimeout, FPeer, FSidCtx, FVerifyResult,
     FHostName, FPskIdentity, FTicketLifetimeHint, FTicket, FPeerSha256, FOriginalHash, FSctList, FOcspResponse,
     FExtendedMasterSecret, FGroupId, FCertChain, FTicketAgeAdd, FIsServer, FPeerSignatureAlgorithm,
     FTicketMaxEarlyData, FAuthTimeout, FEarlyAlpn]

  /** Constructed, context specific. */
  function Context(n: nat): (t: byte)
    requires n < 31
  {
    0xa0 + n
  }

  function TagOf(f: Field): (t: byte)
    ensures t % 32 != 31
  {
    match f
    case FVersion => INTEGER
    case FSslVersion => INTEGER
    case FCipher => OCTET_STRING
    case FSessionId => OCTET_STRING
    case FMasterKey => OCTET_STRING
    case FTime => Context(1)
    case FTimeout => Context(2)
    case FPeer => Context(3)
    case FSidCtx => Context(4)
    case FVerifyResult => Context(5)
    case FHostName => Context(6)
    case FPskIdentity => Context(8)
    case FTicketLifetimeHint => Context(9)
    case FTicket => Context(10)
    case FPeerSha256 => Context(13)
    case FOriginalHash => Context(14)
    case FSctList => Context(15)
    case FOcspResponse => Context(16)
    case FExtendedMasterSecret => Context(17)
    case FGroupId => Context(18)
    case FCertChain => Context(19)
    case FTicketAgeAdd => Context(21)
    case FIsServer => Context(22)
    case FPeerSignatureAlgorithm => Context(23)
    case FTicketMaxEarlyData => Context(24)
    case FAuthTimeout => Context(25)
    case FEarlyAlpn => Context(26)
  }

  // ---------------------------------------------------------------- printing

  function Uint(n: nat): seq<byte> {
    Element(INTEGER, UintBody(n))
  }

  /** A `long` converted to 64 bits without a sign. */
  function Unsigned(n: int): nat {
    if n >= 0 then n else (n + 2 * (LONG_MAX + 1)) % (2 * (LONG_MAX + 1))
  }

  function Octets(b: seq<byte>): seq<byte> {
    Element(OCTET_STRING, b)
  }

  function Boolean(b: bool): seq<byte> {
    Element(BOOLEAN, [if b then 0xff else 0x00])
  }

  function If(present: bool, content: seq<byte>): Option<seq<byte>> {
    if present then Some(content) else None
  }

  function Map(o: Option<seq<byte>>): Option<seq<byte>> {
    match o
    case None => None
    case Some(b) => Some(Octets(b))
  }

  /** The contents of a field, or that it is left out (`SSL_SESSION_to_bytes_full`). */
  function ContentOf(s: Session, forTicket: bool, f: Field): Option<seq<byte>> {
    match f
    case FVersion => Some(UintBody(VERSION))
    case FSslVersion => Some(UintBody(s.sslVersion))
    case FCipher => Some([s.cipher / 256 % 256, s.cipher % 256])
    case FSessionId => Some(if forTicket then [] else s.sessionId)
    case FMasterKey => Some(s.masterKey)
    case FTime => Some(Uint(s.time))
    case FTimeout => Some(Uint(s.timeout))
    case FPeer => If(s.certs != [] && s.peerSha256.None?, if s.certs == [] then [] else s.certs[0])
    case FSidCtx => Some(Octets(s.sidCtx))
    case FVerifyResult => If(s.verifyResult != 0, Uint(Unsigned(s.verifyResult)))
    case FHostName => Map(s.hostname)
    case FPskIdentity => Map(s.pskIdentity)
    case FTicketLifetimeHint => If(s.ticketLifetimeHint > 0, Uint(s.ticketLifetimeHint))
    case FTicket => if forTicket then None else Map(s.ticket)
    case FPeerSha256 => Map(s.peerSha256)
    case FOriginalHash => If(s.originalHandshakeHash != [], Octets(s.originalHandshakeHash))
    case FSctList => If(s.sctList != [], Octets(s.sctList))
    case FOcspResponse => If(s.ocspResponse != [], Octets(s.ocspResponse))
    case FExtendedMasterSecret => If(s.extendedMasterSecret, Boolean(true))
    case FGroupId => If(s.groupId > 0, Uint(s.groupId))
    case FCertChain => If(|s.certs| >= 2 && s.peerSha256.None?, if s.certs == [] then [] else Concat(s.certs[1..]))
    case FTicketAgeAdd =>
      (match s.ticketAgeAdd
       case None => None
       case Some(n) => Some(Octets(ToBe(n % Capacity(4), 4))))
    case FIsServer => If(!s.isServer, Boolean(false))
    case FPeerSignatureAlgorithm => If(s.peerSignatureAlgorithm != 0, Uint(s.peerSignatureAlgorithm))
    case FTicketMaxEarlyData => If(s.ticketMaxEarlyData != 0, Uint(s.ticketMaxEarlyData))
    case FAuthTimeout => If(s.timeout != s.authTimeout, Uint(s.authTimeout))
    case FEarlyAlpn => Map(s.earlyAlpn)
  }

  function FieldBytes(s: Session, forTicket: bool, f: Field): seq<byte> {
    match ContentOf(s, forTicket, f)
    case None => []
    case Some(c) => Element(TagOf(f), c)
  }

  function Write(s: Session, forTicket: bool, fields: seq<Field>): seq<byte> {
    if fields == [] then [] else FieldBytes(s, forTicket, fields[0]) + Write(s, forTicket, fields[1..])
  }

  /** `SSL_SESSION_to_bytes_full`; CBB refuses elements that are too long. */
  function ToBytesFull(s: Session, forTicket: bool): Option<seq<byte>> {
    var body := Write(s, forTicket, FIELDS);
    if |body| > MAX_LENGTH then None else Some(Element(SEQUENCE, body))
  }

  /** `SSL_SESSION_to_bytes` */
  function ToBytes(s: Session): Option<seq<byte>> {
    if s.notResumable then Some(NOT_RESUMABLE) else ToBytesFull(s, false)
  }

  // ---------------------------------------------------------------- parsing

  /** The contents of the fields found. */
  type Found = map<Field, seq<byte>>

  /** `CBS_get_optional_asn1` for each field in turn; a field that must be there is missed
      when its contents are wanted. The rest must be empty. */
  function ReadFields(input: seq<byte>, fields: seq<Field>): Option<Found>
    decreases |fields|
  {
    if fields == [] then if input == [] then Some(map[]) else None
    else if input != [] && input[0] == TagOf(fields[0]) then
      match GetElement(input, TagOf(fields[0]))
      case None => None
      case Some(r) =>
        (match ReadFields(r.rest, fields[1..])
         case None => None
         case Some(m) => Some(m[fields[0] := r.body]))
    else ReadFields(input, fields[1..])
  }

  function Lookup(m: Found, f: Field): Option<seq<byte>> {
    if f in m then Some(m[f]) else None
  }

  /** The contents of the only element, of this tag. */
  function Inner(content: seq<byte>, tag: byte): Option<seq<byte>> {
    match GetElement(content, tag)
    case None => None
    case Some(r) => if r.rest == [] then Some(r.body) else None
  }

  /** An integer below a bound in an element of its own, or the default. */
  function OptionalUint(content: Option<seq<byte>>, bound: nat, default: nat): Option<nat> {
    match content
    case None => if default < bound then Some(default) else None
    case Some(c) =>
      match Inner(c, INTEGER)
      case None => None
      case Some(b) =>
        var n := UintOf(b);
        if n.Some? && n.value < bound then n else None
  }

  /** A byte string; absent and present are told apart. */
  function OptionalOctets(content: Option<seq<byte>>): Option<Option<seq<byte>>> {
    match content
    case None => Some(None)
    case Some(c) =>
      match Inner(c, OCTET_STRING)
      case None => None
      case Some(b) => Some(Some(b))
  }

  function OptionalBool(content: Option<seq<byte>>, default: bool): Option<bool> {
    match content
    case None => Some(default)
    case Some(c) =>
      match Inner(c, BOOLEAN)
      case None => None
      case Some(b) => if b == [0] then Some(false) else if b == [0xff] then Some(true) else None
  }

  function Bounded(o: Option<Option<seq<byte>>>, max: nat): Option<seq<byte>> {
    match o
    case None => None
    case Some(None) => Some([])
    case Some(Some(b)) => if |b| <= max then Some(b) else None
  }

  /** A buffer that has been stowed: an empty one is a null pointer. */
  function Stowed(o: Option<Option<seq<byte>>>): Option<Option<seq<byte>>> {
    match o
    case None => None
    case Some(b) => Some(if b == Some([]) then None else b)
  }

  predicate HasZero(b: seq<byte>) {
    0 in b
  }

  /** A string: no zero bytes. */
  function Text(o: Option<Option<seq<byte>>>): Option<Option<seq<byte>>> {
    match o
    case None => None
    case Some(b) => if b.Some? && HasZero(b.value) then None else Some(b)
  }

  /** The elements of a certificate chain. */
  function SplitChain(s: seq<byte>): Option<seq<seq<byte>>>
    decreases |s|
  {
    if s == [] then Some([])
    else
      match AnyElement(s)
      case None => None
      case Some(r) =>
        match SplitChain(r.rest)
        case None => None
        case Some(certs) => Some([r.whole] + certs)
  }

  /** The loop of `SSL_SESSION_parse` over a certificate chain. */
  method ReadChain(chain: seq<byte>) returns (certs: Option<seq<seq<byte>>>)
    ensures certs == SplitChain(chain)
  {
    var rest := chain;
    var done: seq<seq<byte>> := [];
    assert forall more: seq<seq<byte>> :: [] + more == more;
    while rest != []
      invariant match SplitChain(rest)
                case None => SplitChain(chain) == None
                case Some(more) => SplitChain(chain) == Some(done + more)
      decreases |rest|
    {
      var r := AnyElement(rest);
      if r.None? {
        return None;
      }
      ghost var more := SplitChain(r.value.rest);
      assert more.Some? ==> done + ([r.value.whole] + more.value) == (done + [r.value.whole]) + more.value;
      done := done + [r.value.whole];
      rest := r.value.rest;
    }
    assert done + [] == done;
    return Some(done);
  }

  /** The certificates: the peer's own, which must not be empty, and then its chain, which
      must not be empty if it is there and needs the peer's own. */
  function Certificates(peer: Option<seq<byte>>, chain: Option<seq<byte>>): Option<seq<seq<byte>>> {
    if peer == Some([]) || chain == Some([]) || (chain.Some? && peer.None?) then None
    else if peer.None? then Some([])
    else
      match SplitChain(if chain.None? then [] else chain.value)
      case None => None
      case Some(certs) => Some([peer.value] + certs)
  }

  /** What a reader of sessions depends on: which cipher values it knows, and whether the
      X.509 method accepts the certificates. */
  datatype Reader = Reader(knowsCipher: nat -> bool, acceptsCerts: seq<seq<byte>> -> bool)

  datatype Start = Start(
    sslVersion: nat, cipher: nat, sessionId: seq<byte>, masterKey: seq<byte>, time: nat, timeout: nat)

  /** The fields that must be there. */
  function ReadStart(rd: Reader, m: Found): Option<Start> {
    if !(m.Keys >= {FVersion, FSslVersion, FCipher, FSessionId, FMasterKey, FTime, FTimeout}) then None
    else
      var version, sslVersion, cipher := UintOf(m[FVersion]), UintOf(m[FSslVersion]), m[FCipher];
      var time, timeout := FirstInteger(m[FTime]), FirstInteger(m[FTimeout]);
      if version != Some(VERSION) || sslVersion.None? || |cipher| != 2 then None
      else if !rd.knowsCipher(Join16(cipher[0], cipher[1])) then None
      else if |m[FSessionId]| > MAX_SESSION_ID || |m[FMasterKey]| > MAX_MASTER_KEY then None
      else if time.None? || timeout.None? || timeout.value >= TWO_32 then None
      else
        Some(Start(sslVersion.value, Join16(cipher[0], cipher[1]), m[FSessionId], m[FMasterKey],
                   time.value, timeout.value))
  }

  /** The first element of the contents must be an integer; what follows it is not looked at. */
  function FirstInteger(content: seq<byte>): Option<nat> {
    match GetElement(content, INTEGER)
    case None => None
    case Some(r) => UintOf(r.body)
  }

  datatype Middle = Middle(
    sidCtx: seq<byte>, verifyResult: nat, hostname: Option<seq<byte>>, pskIdentity: Option<seq<byte>>,
    ticketLifetimeHint: nat, ticket: Option<seq<byte>>, peerSha256: Option<seq<byte>>)

  function ReadMiddle(m: Found): Option<Middle> {
    var sidCtx := Bounded(OptionalOctets(Lookup(m, FSidCtx)), MAX_SID_CTX);
    var verifyResult := OptionalUint(Lookup(m, FVerifyResult), LONG_MAX + 1, 0);
    var hostname := Text(OptionalOctets(Lookup(m, FHostName)));
    var psk := Text(OptionalOctets(Lookup(m, FPskIdentity)));
    var hint := OptionalUint(Lookup(m, FTicketLifetimeHint), TWO_32, 0);
    var ticket := Stowed(OptionalOctets(Lookup(m, FTicket)));
    var sha256 := OptionalOctets(Lookup(m, FPeerSha256));
    if sidCtx.None? || verifyResult.None? || hostname.None? || psk.None? || hint.None? || ticket.None?
      || sha256.None? then None
    else if sha256.value.Some? && |sha256.value.value| != SHA256_LENGTH then None
    else
      Some(Middle(sidCtx.value, verifyResult.value, hostname.value, psk.value, hint.value, ticket.value, sha256.value))
  }

  datatype Tail = Tail(
    originalHandshakeHash: seq<byte>, sctList: seq<byte>, ocspResponse: seq<byte>, extendedMasterSecret: bool,
    groupId: nat, certs: seq<seq<byte>>)

  function ReadTail(rd: Reader, m: Found): Option<Tail> {
    var hash := Bounded(OptionalOctets(Lookup(m, FOriginalHash)), MAX_MD_SIZE);
    var scts := OptionalOctets(Lookup(m, FSctList));
    var ocsp := OptionalOctets(Lookup(m, FOcspResponse));
    var ems := OptionalBool(Lookup(m, FExtendedMasterSecret), false);
    var groupId := OptionalUint(Lookup(m, FGroupId), TWO_16, 0);
    var certs := Certificates(Lookup(m, FPeer), Lookup(m, FCertChain));
    if hash.None? || scts.None? || ocsp.None? || ems.None? || groupId.None? || certs.None? then None
    else if !rd.acceptsCerts(certs.value) then None
    else Some(Tail(hash.value, OrEmpty(scts.value), OrEmpty(ocsp.value), ems.value, groupId.value, certs.value))
  }

  function OrEmpty(o: Option<seq<byte>>): seq<byte> {
    if o.None? then [] else o.value
  }

  datatype End = End(
    ticketAgeAdd: Option<nat>, isServer: bool, peerSignatureAlgorithm: nat, ticketMaxEarlyData: nat, authTimeout: nat,
    earlyAlpn: Option<seq<byte>>)

  /** Four octets as a number, and nothing else. */
  function AgeAdd(o: Option<Option<seq<byte>>>): Option<Option<nat>> {
    match o
    case None => None
    case Some(None) => Some(None)
    case Some(Some(b)) => if |b| == 4 then Some(Some(FromBe(b))) else None
  }

  function ReadEnd(m: Found, timeout: nat): Option<End> {
    var ageAdd := AgeAdd(OptionalOctets(Lookup(m, FTicketAgeAdd)));
    var isServer := OptionalBool(Lookup(m, FIsServer), true);
    var sigAlg := OptionalUint(Lookup(m, FPeerSignatureAlgorithm), TWO_16, 0);
    var early := OptionalUint(Lookup(m, FTicketMaxEarlyData), TWO_32, 0);
    var auth := OptionalUint(Lookup(m, FAuthTimeout), TWO_32, timeout);
    var alpn := Stowed(OptionalOctets(Lookup(m, FEarlyAlpn)));
    if ageAdd.None? || isServer.None? || sigAlg.None? || early.None? || auth.None? || alpn.None? then None
    else Some(End(ageAdd.value, isServer.value, sigAlg.value, early.value, auth.value, alpn.value))
  }

  function Assemble(a: Start, b: Middle, c: Tail, d: End): Session {
    Session(
      a.sslVersion, a.cipher, a.sessionId, a.masterKey, a.time, a.timeout,
      c.certs, b.sidCtx, b.verifyResult, b.hostname, b.pskIdentity, b.ticketLifetimeHint, b.ticket, b.peerSha256,
      c.originalHandshakeHash, c.sctList, c.ocspResponse, c.extendedMasterSecret, c.groupId,
      d.ticketAgeAdd, d.isServer, d.peerSignatureAlgorithm, d.ticketMaxEarlyData, d.authTimeout, d.earlyAlpn, false)
  }

  function Decode(rd: Reader, m: Found): Option<Session> {
    match ReadStart(rd, m)
    case None => None
    case Some(a) =>
      var b, c, d := ReadMiddle(m), ReadTail(rd, m), ReadEnd(m, a.timeout);
      if b.None? || c.None? || d.None? then None else Some(Assemble(a, b.value, c.value, d.value))
  }

  /** `SSL_SESSION_from_bytes` */
  function FromBytes(rd: Reader, input: seq<byte>): Option<Session> {
    match GetElement(input, SEQUENCE)
    case None => None
    case Some(r) =>
      if r.rest != [] then None
      else
        match ReadFields(r.body, FIELDS)
        case None => None
        case Some(m) => Decode(rd, m)
  }
}

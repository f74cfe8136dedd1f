/** The order of the messages of a handshake (section 7.3 of RFC 5246 with the extensions of
    RFC 5077, Next Protocol Negotiation and Channel ID): what both sides must agree on. */
module HandshakeScript {
  import opened Bytes

  datatype Side = ClientSide | ServerSide

  /** A message as the state machines tell messages apart. ChangeCipherSpec is a record. */
  datatype Message =
    | ClientHello | ServerHello | Certificate(empty: bool) | CertificateStatus
    | ServerKeyExchange | CertificateRequest | ServerHelloDone | ClientKeyExchange
    | CertificateVerify | ChangeCipherSpec | NextProtocol | ChannelId
    | Finished(verifyData: nat) | NewSessionTicket

  /** What the client knows after the ServerHello. */
  datatype ClientConfig = ClientConfig(
    resumed: bool, certAuth: bool, statusExpected: bool, keyExchangeRequired: bool, hasCertificate: bool,
    npn: bool, channelId: bool, ticket: bool)

  /** What the server has decided when it sends its ServerHello. */
  datatype ServerConfig = ServerConfig(
    resumed: bool, certAuth: bool, sendsStatus: bool, keyExchangeRequired: bool, pskHint: bool,
    certRequest: bool, certRequired: bool, npn: bool, channelId: bool, ticket: bool)

  datatype Stage =
    | Hello | HelloAnswer | ServerCert | Status | KeyExchange | CertRequest | HelloDone
    | ClientCert | ClientKey | Verify | ClientCcs | NextProto | ChanId | ClientFin
    | Ticket | ServerCcs | ServerFin | Done

  const FULL: seq<Stage> :=
    [Hello, HelloAnswer, ServerCert, Status, KeyExchange, CertRequest, HelloDone,
     ClientCert, ClientKey, Verify, ClientCcs, NextProto, ChanId, ClientFin, Ticket, ServerCcs, ServerFin, Done]

  const ABBREVIATED: seq<Stage> :=
    [Hello, HelloAnswer, Ticket, ServerCcs, ServerFin, ClientCcs, NextProto, ChanId, ClientFin, Done]

  /** Where a stage comes in a full or an abbreviated handshake. */
  function PositionOf(resumed: bool, stage: Stage): (n: nat)
    ensures n < |StagesOf(resumed)|
  {
    if resumed then
      match stage
      case Hello => 0
      case HelloAnswer => 1
      case Ticket => 2
      case ServerCcs => 3
      case ServerFin => 4
      case ClientCcs => 5
      case NextProto => 6
      case ChanId => 7
      case ClientFin => 8
      case _ => 9
    else
      match stage
      case Hello => 0
      case HelloAnswer => 1
      case ServerCert => 2
      case Status => 3
      case KeyExchange => 4
      case CertRequest => 5
      case HelloDone => 6
      case ClientCert => 7
      case ClientKey => 8
      case Verify => 9
      case ClientCcs => 10
      case NextProto => 11
      case ChanId => 12
      case ClientFin => 13
      case Ticket => 14
      case ServerCcs => 15
      case ServerFin => 16
      case Done => 17
  }

  function StagesOf(resumed: bool): seq<Stage> {
    if resumed then ABBREVIATED else FULL
  }

  /** The keyed hash of the Finished messages: both sides have the same master secret. */
  type Mac = (Side, seq<Message>) -> nat

  /** The messages that enter the transcript: all but the records that are no messages. */
  function Hashed(items: seq<(Side, Message)>): (s: seq<Message>) {
    if items == [] then []
    else
      var last := items[|items| - 1].1;
      Hashed(items[..|items| - 1]) + if last == ChangeCipherSpec then [] else [last]
  }

  /** The messages of one side. */
  function OfSide(items: seq<(Side, Message)>, side: Side): (s: seq<Message>) {
    if items == [] then []
    else
      var last := items[|items| - 1];
      OfSide(items[..|items| - 1], side) + if last.0 == side then [last.1] else []
  }

  function Messages(items: seq<(Side, Message)>): (s: seq<Message>)
    ensures |s| == |items|
  {
    seq(|items|, i requires 0 <= i < |items| => items[i].1)
  }

  function AsSeq<T>(o: Option<T>): (s: seq<T>) {
    if o.None? then [] else [o.value]
  }

  /** The message, if it is one of that side. */
  function ItemOn(item: Option<(Side, Message)>, side: Side): seq<Message> {
    if item.Some? && item.value.0 == side then [item.value.1] else []
  }

  datatype Script = Script(c: ClientConfig, s: ServerConfig, mac: Mac) {
    /** The two sides have agreed; only the client's certificate is the client's choice. */
    predicate Agreed() {
      && c.resumed == s.resumed && c.certAuth == s.certAuth && c.keyExchangeRequired == s.keyExchangeRequired
      && c.npn == s.npn && c.channelId == s.channelId && c.ticket == s.ticket
      && (s.sendsStatus ==> c.statusExpected)
      && (s.certRequest ==> s.certAuth)
      && (s.certRequest && s.certRequired ==> c.hasCertificate)
    }

    function Stages(): seq<Stage> {
      StagesOf(c.resumed)
    }

    function Position(stage: Stage): (n: nat)
      ensures n < |Stages()|
    {
      PositionOf(c.resumed, stage)
    }

    /** The message of a stage, if it has one; `done` are the messages hashed before it. */
    function ItemOf(stage: Stage, done: seq<Message>): Option<(Side, Message)> {
      match stage
      case Hello => Some((ClientSide, ClientHello))
      case HelloAnswer => Some((ServerSide, ServerHello))
      case ServerCert => if s.certAuth then Some((ServerSide, Certificate(false))) else None
      case Status => if s.sendsStatus then Some((ServerSide, CertificateStatus)) else None
      case KeyExchange => if s.keyExchangeRequired || s.pskHint then Some((ServerSide, ServerKeyExchange)) else None
      case CertRequest => if s.certRequest then Some((ServerSide, CertificateRequest)) else None
      case HelloDone => Some((ServerSide, ServerHelloDone))
      case ClientCert => if s.certRequest then Some((ClientSide, Certificate(!c.hasCertificate))) else None
      case ClientKey => Some((ClientSide, ClientKeyExchange))
      case Verify => if s.certRequest && c.hasCertificate then Some((ClientSide, CertificateVerify)) else None
      case ClientCcs => Some((ClientSide, ChangeCipherSpec))
      case NextProto => if c.npn then Some((ClientSide, NextProtocol)) else None
      case ChanId => if c.channelId then Some((ClientSide, ChannelId)) else None
      case ClientFin => Some((ClientSide, Finished(mac(ClientSide, done))))
      case Ticket => if c.ticket then Some((ServerSide, NewSessionTicket)) else None
      case ServerCcs => Some((ServerSide, ChangeCipherSpec))
      case ServerFin => Some((ServerSide, Finished(mac(ServerSide, done))))
      case Done => None
    }

    /** All messages of the stages before position `n`, in order. */
    function Prefix(n: nat): (p: seq<(Side, Message)>)
      requires n <= |Stages()|
      decreases n, 0
    {
      if n == 0 then [] else Prefix(n - 1) + AsSeq(ItemAt(n - 1))
    }

    function ItemAt(n: nat): Option<(Side, Message)>
      requires n < |Stages()|
      decreases n, 1
    {
      ItemOf(Stages()[n], Hashed(Prefix(n)))
    }

    lemma PositionInverse(stage: Stage)
      requires Position(stage) < |Stages()| - 1
      ensures Stages()[Position(stage)] == stage
    {
    }

    /** The messages from one position to a later one. */
    function Between(m: nat, n: nat): (b: seq<(Side, Message)>)
      requires m <= n <= |Stages()|
      decreases n
    {
      if m == n then [] else Between(m, n - 1) + AsSeq(ItemAt(n - 1))
    }

    lemma {:induction false} BetweenFirst(m: nat, n: nat)
      requires m < n <= |Stages()|
      ensures Between(m, n) == AsSeq(ItemAt(m)) + Between(m + 1, n)
      decreases n
    {
      hide ItemAt;
      if m + 1 < n {
        BetweenFirst(m, n - 1);
      } else {
        assert Between(m, n - 1) == [] && Between(m + 1, n) == [];
      }
    }

    lemma HashedNext(n: nat)
      requires n < |Stages()|
      ensures Hashed(Prefix(n + 1)) == Hashed(Prefix(n)) +
        if ItemAt(n).Some? && ItemAt(n).value.1 != ChangeCipherSpec then [ItemAt(n).value.1] else []
      ensures forall side: Side :: OfSide(Prefix(n + 1), side) == OfSide(Prefix(n), side) + ItemOn(ItemAt(n), side)
    {
      hide ItemAt;
      var p, o := Prefix(n), ItemAt(n);
      if o.Some? {
        assert (p + [o.value])[..|p|] == p;
      } else {
        assert p + [] == p;
      }
    }
  }
}

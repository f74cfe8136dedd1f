/** What one turn of a machine comes to: the next state, and the message it adds or expects. */
module HandshakeMoves {
  import opened Bytes
  import opened HandshakeScript
  import opened HandshakeMachines

  /** The state a turn that moves leads to, and the state behind the next flush. */
  function ClientGoes(resumed: bool, c: Client): (r: (ClientState, ClientState)) {
    match c.state
    case CwClientHello => (CwFlush, CrServerHello)
    case CrServerHello => (if resumed then CrSessionTicket else CrCert, c.next)
    case CrCert => (CrCertStatus, c.next)
    case CrCertStatus => (VerifyServerCert, c.next)
    case VerifyServerCert => (CrKeyExch, c.next)
    case CrKeyExch => (CrCertReq, c.next)
    case CrCertReq => (CrServerDone, c.next)
    case CrServerDone => (CwCert, c.next)
    case CwCert => (CwKeyExch, c.next)
    case CwKeyExch => (CwCertVrfy, c.next)
    case CwCertVrfy => (CwChange, c.next)
    case CwChange => (CwNextProto, c.next)
    case CwNextProto => (CwChannelId, c.next)
    case CwChannelId => (CwFinished, c.next)
    case CwFinished => (CwFlush, if resumed then FinishClientHandshake else CrSessionTicket)
    case CrSessionTicket => (CrChange, c.next)
    case CrChange => (CrFinished, c.next)
    case CrFinished => (if resumed then CwChange else FinishClientHandshake, c.next)
    case CwFlush => (c.next, c.next)
    case FinishClientHandshake => (ClientOk, c.next)
    case ClientOk => (ClientOk, c.next)
  }

  function ServerGoes(resumed: bool, v: Server): (r: (ServerState, ServerState)) {
    match v.state
    case SrHelloA => (SrHelloB, v.next)
    case SrHelloB => (SrHelloC, v.next)
    case SrHelloC => (SrHelloD, v.next)
    case SrHelloD => (SwServerHello, v.next)
    case SwServerHello => (if resumed then SwSessionTicket else SwCert, v.next)
    case SwCert => (SwCertStatus, v.next)
    case SwCertStatus => (SwKeyExch, v.next)
    case SwKeyExch => (SwCertReq, v.next)
    case SwCertReq => (SwServerDone, v.next)
    case SwServerDone => (SwFlush, SrCert)
    case SrCert => (SrKeyExch, v.next)
    case SrKeyExch => (SrCertVrfy, v.next)
    case SrCertVrfy => (SrChange, v.next)
    case SrChange => (SrNextProto, v.next)
    case SrNextProto => (SrChannelId, v.next)
    case SrChannelId => (SrFinished, v.next)
    case SrFinished => (if resumed then ServerOk else SwSessionTicket, v.next)
    case SwSessionTicket => (SwChange, v.next)
    case SwChange => (SwFinished, v.next)
    case SwFinished => (SwFlush, if resumed then SrChange else ServerOk)
    case SwFlush => (v.next, v.next)
    case ServerOk => (ServerOk, v.next)
  }

  /** The message the client adds to its flight in a state, if any. */
  function ClientSays(k: ClientConfig, mac: Mac, c: Client): Option<Message> {
    match c.state
    case CwClientHello => Some(ClientHello)
    case CwCert => if c.certRequest then Some(Certificate(!k.hasCertificate)) else None
    case CwKeyExch => Some(ClientKeyExchange)
    case CwCertVrfy => if c.certRequest && k.hasCertificate then Some(CertificateVerify) else None
    case CwChange => Some(ChangeCipherSpec)
    case CwNextProto => if k.npn then Some(NextProtocol) else None
    case CwChannelId => if k.channelId then Some(ChannelId) else None
    case CwFinished => Some(Finished(mac(ClientSide, c.ch.transcript)))
    case _ => None
  }

  /** The message the client must read in a state, if any. */
  function ClientWants(k: ClientConfig, mac: Mac, c: Client): Option<Message> {
    match c.state
    case CrServerHello => Some(ServerHello)
    case CrCert => if k.certAuth then Some(Certificate(false)) else None
    case CrServerDone => Some(ServerHelloDone)
    case CrSessionTicket => if k.ticket then Some(NewSessionTicket) else None
    case CrChange => Some(ChangeCipherSpec)
    case CrFinished => Some(Finished(mac(ServerSide, c.ch.transcript)))
    case _ => None
  }

  /** The states that add a message or none, and go on. */
  predicate ClientSpeaksIn(state: ClientState) {
    match state
    case CwClientHello | CwCert | CwKeyExch | CwCertVrfy | CwChange | CwNextProto | CwChannelId | CwFinished => true
    case _ => false
  }

  /** The states that expect one certain message, or none. */
  predicate ClientExpectsIn(state: ClientState) {
    match state
    case CrServerHello | CrCert | CrServerDone | CrSessionTicket | CrChange | CrFinished => true
    case _ => false
  }

  function Added(ch: Channel, o: Option<Message>): Channel {
    if o.Some? then ch.Send(o.value) else ch
  }

  /** The client at its next state. */
  function ClientMoved(k: ClientConfig, c: Client, ch: Channel): Client {
    c.(state := ClientGoes(k.resumed, c).0, next := ClientGoes(k.resumed, c).1, ch := ch)
  }

  lemma ClientSpeaks(k: ClientConfig, mac: Mac, c: Client, inbox: seq<Message>)
    requires ClientSpeaksIn(c.state)
    ensures ClientTurn(k, mac, c, inbox, false) ==
      Moved(ClientMoved(k, c, Added(c.ch, ClientSays(k, mac, c))), inbox, [])
  {
    hide Channel.Send;
  }

  function Rest(ch: Channel, inbox: seq<Message>): seq<Message>
    requires AsSeq(ch.held) + inbox != []
  {
    if ch.held.Some? then inbox else inbox[1..]
  }

  /** What reading one certain message does to a channel, if it does not go wrong. */
  datatype Taken = Nothing | Wrong | Right(ch: Channel, inbox: seq<Message>)

  function Take(ch: Channel, inbox: seq<Message>, m: Message): Taken {
    var unread := AsSeq(ch.held) + inbox;
    if unread == [] then Nothing else if unread[0] != m then Wrong else Right(ch.Accept(m), Rest(ch, inbox))
  }

  lemma TakeMessage(ch: Channel, inbox: seq<Message>, m: Message)
    requires m != ChangeCipherSpec && ch.held != Some(ChangeCipherSpec)
    ensures match GetMessage(ch, inbox)
            case NoMessage => Take(ch, inbox, m) == Nothing
            case NotAMessage => Take(ch, inbox, m) == Wrong
            case Got(got, rest) => Take(ch, inbox, m) == if got == m then Right(ch.Accept(m), rest) else Wrong
  {
  }

  lemma TakeChange(ch: Channel, inbox: seq<Message>)
    requires ch.held.None?
    ensures match ReadCcs(inbox)
            case NoMessage => Take(ch, inbox, ChangeCipherSpec) == Nothing
            case NotAMessage => Take(ch, inbox, ChangeCipherSpec) == Wrong
            case Got(m, rest) =>
              Take(ch, inbox, ChangeCipherSpec) == Right(ch.(received := ch.received + [m]), rest)
                && m == ChangeCipherSpec
  {
    assert AsSeq(ch.held) + inbox == inbox;
  }

  lemma ClientExpects(k: ClientConfig, mac: Mac, c: Client, inbox: seq<Message>)
    requires ClientExpectsIn(c.state) && c.ch.held != Some(ChangeCipherSpec)
        && (c.state == CrChange ==> c.ch.held.None?)
    ensures ClientTurn(k, mac, c, inbox, false) ==
      match ClientWants(k, mac, c)
      case None => Moved(ClientMoved(k, c, c.ch), inbox, [])
      case Some(m) =>
        match Take(c.ch, inbox, m)
        case Nothing => Blocked
        case Wrong => Failed
        case Right(ch, rest) => Moved(ClientMoved(k, c, ch), rest, [])
  {
    hide GetMessage, ReadCcs, Channel.Accept, Take;
    if c.state == CrChange {
      TakeChange(c.ch, inbox);
    } else if ClientWants(k, mac, c).Some? {
      TakeMessage(c.ch, inbox, ClientWants(k, mac, c).value);
    }
  }

  /** The message the server adds to its flight in a state, if any. */
  function ServerSays(k: ServerConfig, mac: Mac, v: Server): Option<Message> {
    match v.state
    case SwServerHello => Some(ServerHello)
    case SwCert => if k.certAuth then Some(Certificate(false)) else None
    case SwCertStatus => if k.sendsStatus then Some(CertificateStatus) else None
    case SwKeyExch => if k.keyExchangeRequired || k.pskHint then Some(ServerKeyExchange) else None
    case SwCertReq => if k.certRequest then Some(CertificateRequest) else None
    case SwServerDone => Some(ServerHelloDone)
    case SwSessionTicket => if k.ticket then Some(NewSessionTicket) else None
    case SwChange => Some(ChangeCipherSpec)
    case SwFinished => Some(Finished(mac(ServerSide, v.ch.transcript)))
    case _ => None
  }

  /** The message the server must read in a state, if any. */
  function ServerWants(k: ServerConfig, mac: Mac, v: Server): Option<Message> {
    match v.state
    case SrKeyExch => Some(ClientKeyExchange)
    case SrCertVrfy => if v.peerHasKey then Some(CertificateVerify) else None
    case SrChange => Some(ChangeCipherSpec)
    case SrNextProto => if k.npn then Some(NextProtocol) else None
    case SrChannelId => if k.channelId then Some(ChannelId) else None
    case SrFinished => Some(Finished(mac(ClientSide, v.ch.transcript)))
    case _ => None
  }

  predicate ServerSpeaksIn(state: ServerState) {
    match state
    case SwServerHello | SwCert | SwCertStatus | SwKeyExch | SwCertReq | SwServerDone => true
    case SwSessionTicket | SwChange | SwFinished => true
    case _ => false
  }

  predicate ServerExpectsIn(state: ServerState) {
    match state
    case SrKeyExch | SrCertVrfy | SrChange | SrNextProto | SrChannelId | SrFinished => true
    case _ => false
  }

  /** The server at its next state. */
  function ServerMoved(k: ServerConfig, v: Server, ch: Channel): Server {
    v.(state := ServerGoes(k.resumed, v).0, next := ServerGoes(k.resumed, v).1, ch := ch)
  }

  lemma ServerSpeaks(k: ServerConfig, mac: Mac, v: Server, inbox: seq<Message>)
    requires ServerSpeaksIn(v.state)
    ensures ServerTurn(k, mac, v, inbox, false) ==
      Moved(ServerMoved(k, v, Added(v.ch, ServerSays(k, mac, v))), inbox, [])
  {
    hide Channel.Send;
  }

  lemma ServerExpects(k: ServerConfig, mac: Mac, v: Server, inbox: seq<Message>)
    requires ServerExpectsIn(v.state) && v.ch.held != Some(ChangeCipherSpec)
        && (v.state == SrChange ==> v.ch.held.None?)
    ensures ServerTurn(k, mac, v, inbox, false) ==
      match ServerWants(k, mac, v)
      case None => Moved(ServerMoved(k, v, v.ch), inbox, [])
      case Some(m) =>
        match Take(v.ch, inbox, m)
        case Nothing => Blocked
        case Wrong => Failed
        case Right(ch, rest) => Moved(ServerMoved(k, v, ch), rest, [])
  {
    hide GetMessage, ReadCcs, Channel.Accept, Take;
    if v.state == SrChange {
      TakeChange(v.ch, inbox);
    } else if ServerWants(k, mac, v).Some? {
      TakeMessage(v.ch, inbox, ServerWants(k, mac, v).value);
    }
  }

  // Where a turn that moves goes to.

  lemma ClientWentQuietly(k: ClientConfig, mac: Mac, c: Client, inbox: seq<Message>)
    requires !ClientSpeaksIn(c.state)
    ensures var t := ClientTurn(k, mac, c, inbox, false);
            t.Moved? ==> (t.peer.state, t.peer.next) == ClientGoes(k.resumed, c) && c.state != ClientOk
  {
    hide To, SendTo, Expect, Peek, ReadCertRequest, Channel.Send, GetMessage, ReadCcs;
  }

  lemma ClientWent(k: ClientConfig, mac: Mac, c: Client, inbox: seq<Message>)
    ensures var t := ClientTurn(k, mac, c, inbox, false);
            t.Moved? ==> (t.peer.state, t.peer.next) == ClientGoes(k.resumed, c) && c.state != ClientOk
  {
    hide ClientTurn, ClientGoes;
    if ClientSpeaksIn(c.state) {
      ClientSpeaks(k, mac, c, inbox);
    } else {
      ClientWentQuietly(k, mac, c, inbox);
    }
  }

  lemma ServerWentQuietly(k: ServerConfig, mac: Mac, v: Server, inbox: seq<Message>)
    requires !ServerSpeaksIn(v.state)
    ensures var t := ServerTurn(k, mac, v, inbox, false);
            t.Moved? ==> (t.peer.state, t.peer.next) == ServerGoes(k.resumed, v) && v.state != ServerOk
  {
    hide STo, SSendTo, SExpect, ReadClientCertificate, Channel.Send, Channel.Accept, GetMessage, ReadCcs;
  }

  lemma ServerWent(k: ServerConfig, mac: Mac, v: Server, inbox: seq<Message>)
    ensures var t := ServerTurn(k, mac, v, inbox, false);
            t.Moved? ==> (t.peer.state, t.peer.next) == ServerGoes(k.resumed, v) && v.state != ServerOk
  {
    hide ServerTurn, ServerGoes;
    if ServerSpeaksIn(v.state) {
      ServerSpeaks(k, mac, v, inbox);
    } else {
      ServerWentQuietly(k, mac, v, inbox);
    }
  }
}

/** The client's and the server's state machine for TLS 1.0 to 1.2, one turn of the loop
    at a time. */
module HandshakeMachines {
  import opened Bytes
  import opened HandshakeScript

  datatype ClientState =
    | CwClientHello | CrServerHello | CrCert | CrCertStatus | VerifyServerCert | CrKeyExch | CrCertReq | CrServerDone
    | CwCert | CwKeyExch | CwCertVrfy | CwChange | CwNextProto | CwChannelId | CwFinished
    | CrSessionTicket | CrChange | CrFinished | CwFlush | FinishClientHandshake | ClientOk

  datatype ServerState =
    | SrHelloA | SrHelloB | SrHelloC | SrHelloD
    | SwServerHello | SwCert | SwCertStatus | SwKeyExch | SwCertReq | SwServerDone
    | SrCert | SrKeyExch | SrCertVrfy | SrChange | SrNextProto | SrChannelId | SrFinished
    | SwSessionTicket | SwChange | SwFinished | SwFlush | ServerOk

  /** What both machines have: a message that has been read but is to be looked at again,
      the flight that has not been flushed, the transcript, and what has been sent and
      received in all. */
  datatype Channel = Channel(
    held: Option<Message>, pending: seq<Message>, transcript: seq<Message>, sent: seq<Message>, received: seq<Message>)
  {
    function Hash(m: Message): seq<Message> {
      if m == ChangeCipherSpec then transcript else transcript + [m]
    }

    /** Adds a message, or the ChangeCipherSpec record, to the flight. */
    function Send(m: Message): Channel {
      this.(pending := pending + [m], transcript := Hash(m), sent := sent + [m])
    }

    /** Takes the message at hand into the transcript and is done with it. */
    function Accept(m: Message): Channel {
      this.(held := None, transcript := Hash(m), received := received + [m])
    }
  }

  /** `ssl_get_message`: the message to look at, and what is left to be read. */
  datatype Get = NoMessage | NotAMessage | Got(m: Message, inbox: seq<Message>)

  function GetMessage(ch: Channel, inbox: seq<Message>): Get {
    if ch.held.Some? then Got(ch.held.value, inbox)
    else if inbox == [] then NoMessage
    else if inbox[0] == ChangeCipherSpec then NotAMessage
    else Got(inbox[0], inbox[1..])
  }

  /** A turn of the loop: it must be tried again later, it fails the handshake, or it moves;
      then `inbox` is left to be read and `flushed` has been written. */
  datatype Turn<P> = Blocked | Failed | Moved(peer: P, inbox: seq<Message>, flushed: seq<Message>)

  datatype Client = Client(state: ClientState, next: ClientState, certRequest: bool, ch: Channel)

  datatype Server = Server(state: ServerState, next: ServerState, peerHasKey: bool, ch: Channel)

  function To(c: Client, state: ClientState, inbox: seq<Message>): (t: Turn<Client>)
    ensures t.Moved? ==> (t.peer.state, t.peer.next) == (state, c.next)
  {
    Moved(c.(state := state), inbox, [])
  }

  function SendTo(c: Client, m: Message, state: ClientState, inbox: seq<Message>): (t: Turn<Client>)
    ensures t.Moved? ==> (t.peer.state, t.peer.next) == (state, c.next)
  {
    Moved(c.(state := state, ch := c.ch.Send(m)), inbox, [])
  }

  /** Expects one particular message. */
  function Expect(c: Client, m: Message, state: ClientState, inbox: seq<Message>): (t: Turn<Client>)
    ensures t.Moved? ==> (t.peer.state, t.peer.next) == (state, c.next)
  {
    match GetMessage(c.ch, inbox)
    case NoMessage => Blocked
    case NotAMessage => Failed
    case Got(got, rest) => if got == m then Moved(c.(state := state, ch := c.ch.Accept(m)), rest, []) else Failed
  }

  /** Reads a message, and if it is not the optional one leaves it to the next turn. */
  function Peek(c: Client, m: Message, state: ClientState, inbox: seq<Message>): (t: Turn<Client>)
    ensures t.Moved? ==> (t.peer.state, t.peer.next) == (state, c.next)
  {
    match GetMessage(c.ch, inbox)
    case NoMessage => Blocked
    case NotAMessage => Failed
    case Got(got, rest) =>
      Moved(c.(state := state, ch := if got == m then c.ch.Accept(m) else c.ch.(held := Some(got))), rest, [])
  }

  function ReadCcs(inbox: seq<Message>): Get {
    if inbox == [] then NoMessage
    else if inbox[0] != ChangeCipherSpec then NotAMessage
    else Got(ChangeCipherSpec, inbox[1..])
  }

  /** `ssl3_connect`. A turn that must call back to the application or write to the transport
      may be blocked by it. */
  function ClientTurn(k: ClientConfig, mac: Mac, c: Client, inbox: seq<Message>, blocked: bool): Turn<Client> {
    if blocked then Blocked
    else
      match c.state
      case CwClientHello => Moved(c.(state := CwFlush, next := CrServerHello, ch := c.ch.Send(ClientHello)), inbox, [])
      case CrServerHello => Expect(c, ServerHello, if k.resumed then CrSessionTicket else CrCert, inbox)
      case CrCert =>
        if k.certAuth then Expect(c, Certificate(false), CrCertStatus, inbox) else To(c, CrCertStatus, inbox)
      case CrCertStatus =>
        if k.statusExpected then Peek(c, CertificateStatus, VerifyServerCert, inbox) else To(c, VerifyServerCert, inbox)
      case VerifyServerCert => To(c, CrKeyExch, inbox)
      case CrKeyExch =>
        if k.keyExchangeRequired then Expect(c, ServerKeyExchange, CrCertReq, inbox)
        else Peek(c, ServerKeyExchange, CrCertReq, inbox)
      case CrCertReq => if k.certAuth then ReadCertRequest(c, inbox) else To(c, CrServerDone, inbox)
      case CrServerDone => Expect(c, ServerHelloDone, CwCert, inbox)
      case CwCert =>
        if c.certRequest then SendTo(c, Certificate(!k.hasCertificate), CwKeyExch, inbox) else To(c, CwKeyExch, inbox)
      case CwKeyExch => SendTo(c, ClientKeyExchange, CwCertVrfy, inbox)
      case CwCertVrfy =>
        if c.certRequest && k.hasCertificate then SendTo(c, CertificateVerify, CwChange, inbox)
        else To(c, CwChange, inbox)
      case CwChange => SendTo(c, ChangeCipherSpec, CwNextProto, inbox)
      case CwNextProto => if k.npn then SendTo(c, NextProtocol, CwChannelId, inbox) else To(c, CwChannelId, inbox)
      case CwChannelId => if k.channelId then SendTo(c, ChannelId, CwFinished, inbox) else To(c, CwFinished, inbox)
      case CwFinished =>
        Moved(c.(state := CwFlush, next := if k.resumed then FinishClientHandshake else CrSessionTicket,
                 ch := c.ch.Send(Finished(mac(ClientSide, c.ch.transcript)))), inbox, [])
      case CrSessionTicket => if k.ticket then Expect(c, NewSessionTicket, CrChange, inbox) else To(c, CrChange, inbox)
      case CrChange =>
        (match ReadCcs(inbox)
         case NoMessage => Blocked
         case NotAMessage => Failed
         case Got(m, rest) => Moved(c.(state := CrFinished, ch := c.ch.(received := c.ch.received + [m])), rest, []))
      case CrFinished =>
        Expect(c, Finished(mac(ServerSide, c.ch.transcript)),
               if k.resumed then CwChange else FinishClientHandshake, inbox)
      case CwFlush => Moved(c.(state := c.next, ch := c.ch.(pending := [])), inbox, c.ch.pending)
      case FinishClientHandshake => To(c, ClientOk, inbox)
      case ClientOk => Blocked
  }

  /** `ssl3_get_certificate_request` */
  function ReadCertRequest(c: Client, inbox: seq<Message>): (t: Turn<Client>)
    ensures t.Moved? ==> (t.peer.state, t.peer.next) == (CrServerDone, c.next)
  {
    match GetMessage(c.ch, inbox)
    case NoMessage => Blocked
    case NotAMessage => Failed
    case Got(got, rest) =>
      if got == ServerHelloDone then Moved(c.(state := CrServerDone, ch := c.ch.(held := Some(got))), rest, [])
      else if got == CertificateRequest then
        Moved(c.(state := CrServerDone, certRequest := true, ch := c.ch.Accept(got)), rest, [])
      else Failed
  }

  function STo(v: Server, state: ServerState, inbox: seq<Message>): (t: Turn<Server>)
    ensures t.Moved? ==> (t.peer.state, t.peer.next) == (state, v.next)
  {
    Moved(v.(state := state), inbox, [])
  }

  function SSendTo(v: Server, m: Message, state: ServerState, inbox: seq<Message>): (t: Turn<Server>)
    ensures t.Moved? ==> (t.peer.state, t.peer.next) == (state, v.next)
  {
    Moved(v.(state := state, ch := v.ch.Send(m)), inbox, [])
  }

  function SExpect(v: Server, m: Message, state: ServerState, inbox: seq<Message>): (t: Turn<Server>)
    ensures t.Moved? ==> (t.peer.state, t.peer.next) == (state, v.next)
  {
    match GetMessage(v.ch, inbox)
    case NoMessage => Blocked
    case NotAMessage => Failed
    case Got(got, rest) => if got == m then Moved(v.(state := state, ch := v.ch.Accept(m)), rest, []) else Failed
  }

  /** `ssl3_get_client_certificate` */
  function ReadClientCertificate(k: ServerConfig, v: Server, inbox: seq<Message>): (t: Turn<Server>)
    ensures t.Moved? ==> (t.peer.state, t.peer.next) == (SrKeyExch, v.next)
  {
    match GetMessage(v.ch, inbox)
    case NoMessage => Blocked
    case NotAMessage => Failed
    case Got(got, rest) =>
      if !got.Certificate? || (got.empty && k.certRequired) then Failed
      else Moved(v.(state := SrKeyExch, peerHasKey := !got.empty, ch := v.ch.Accept(got)), rest, [])
  }

  /** `ssl3_accept` */
  function ServerTurn(k: ServerConfig, mac: Mac, v: Server, inbox: seq<Message>, blocked: bool): Turn<Server> {
    if blocked then Blocked
    else
      match v.state
      case SrHelloA =>
        (match GetMessage(v.ch, inbox)
         case NoMessage => Blocked
         case NotAMessage => Failed
         case Got(got, rest) => Moved(v.(state := SrHelloB, ch := v.ch.(held := Some(got))), rest, []))
      case SrHelloB => if v.ch.held == Some(ClientHello) then STo(v, SrHelloC, inbox) else Failed
      case SrHelloC => STo(v, SrHelloD, inbox)
      case SrHelloD =>
        if v.ch.held.None? then Failed
        else Moved(v.(state := SwServerHello, ch := v.ch.Accept(v.ch.held.value)), inbox, [])
      case SwServerHello => SSendTo(v, ServerHello, if k.resumed then SwSessionTicket else SwCert, inbox)
      case SwCert =>
        if k.certAuth then SSendTo(v, Certificate(false), SwCertStatus, inbox) else STo(v, SwCertStatus, inbox)
      case SwCertStatus =>
        if k.sendsStatus then SSendTo(v, CertificateStatus, SwKeyExch, inbox) else STo(v, SwKeyExch, inbox)
      case SwKeyExch =>
        if k.keyExchangeRequired || k.pskHint then SSendTo(v, ServerKeyExchange, SwCertReq, inbox)
        else STo(v, SwCertReq, inbox)
      case SwCertReq =>
        if k.certRequest then SSendTo(v, CertificateRequest, SwServerDone, inbox) else STo(v, SwServerDone, inbox)
      case SwServerDone => Moved(v.(state := SwFlush, next := SrCert, ch := v.ch.Send(ServerHelloDone)), inbox, [])
      case SrCert => if k.certRequest then ReadClientCertificate(k, v, inbox) else STo(v, SrKeyExch, inbox)
      case SrKeyExch => SExpect(v, ClientKeyExchange, SrCertVrfy, inbox)
      case SrCertVrfy =>
        if v.peerHasKey then SExpect(v, CertificateVerify, SrChange, inbox) else STo(v, SrChange, inbox)
      case SrChange =>
        (match ReadCcs(inbox)
         case NoMessage => Blocked
         case NotAMessage => Failed
         case Got(m, rest) => Moved(v.(state := SrNextProto, ch := v.ch.(received := v.ch.received + [m])), rest, []))
      case SrNextProto => if k.npn then SExpect(v, NextProtocol, SrChannelId, inbox) else STo(v, SrChannelId, inbox)
      case SrChannelId => if k.channelId then SExpect(v, ChannelId, SrFinished, inbox) else STo(v, SrFinished, inbox)
      case SrFinished =>
        SExpect(v, Finished(mac(ClientSide, v.ch.transcript)), if k.resumed then ServerOk else SwSessionTicket, inbox)
      case SwSessionTicket =>
        if k.ticket then SSendTo(v, NewSessionTicket, SwChange, inbox) else STo(v, SwChange, inbox)
      case SwChange => SSendTo(v, ChangeCipherSpec, SwFinished, inbox)
      case SwFinished =>
        Moved(v.(state := SwFlush, next := if k.resumed then SrChange else ServerOk,
                 ch := v.ch.Send(Finished(mac(ServerSide, v.ch.transcript)))), inbox, [])
      case SwFlush => Moved(v.(state := v.next, ch := v.ch.(pending := [])), inbox, v.ch.pending)
      case ServerOk => Blocked
  }
}

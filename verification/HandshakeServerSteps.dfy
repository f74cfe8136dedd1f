/** How one turn of the server moves along the script. */
module HandshakeServerSteps {
  import opened Bytes
  import opened HandshakeScript
  import opened HandshakeMachines
  import opened HandshakeMoves
  import opened HandshakeSteps

  function ServerStage(state: ServerState): Stage {
    match state
    case SrHelloA | SrHelloB | SrHelloC | SrHelloD => Hello
    case SwServerHello => HelloAnswer
    case SwCert => ServerCert
    case SwCertStatus => Status
    case SwKeyExch => KeyExchange
    case SwCertReq => CertRequest
    case SwServerDone => HelloDone
    case SrCert => ClientCert
    case SrKeyExch => ClientKey
    case SrCertVrfy => Verify
    case SrChange => ClientCcs
    case SrNextProto => NextProto
    case SrChannelId => ChanId
    case SrFinished => ClientFin
    case SwSessionTicket => Ticket
    case SwChange => ServerCcs
    case SwFinished => ServerFin
    case SwFlush => Done
    case ServerOk => Done
  }

  function ServerPosition(sc: Script, v: Server): (n: nat)
    ensures n < |sc.Stages()|
  {
    sc.Position(ServerStage(if v.state == SwFlush then v.next else v.state))
  }

  predicate ServerFullOnly(state: ServerState) {
    match state
    case SwCert | SwCertStatus | SwKeyExch | SwCertReq | SwServerDone | SrCert | SrKeyExch | SrCertVrfy => true
    case _ => false
  }

  predicate ServerSends(state: ServerState) {
    match state
    case SwCert | SwCertStatus | SwKeyExch | SwCertReq | SwServerDone => true
    case SwSessionTicket | SwChange | SwFinished | SwFlush => true
    case _ => false
  }

  /** No client certificate can have been read yet. */
  predicate BeforeClientCert(state: ServerState) {
    match state
    case SrHelloA | SrHelloB | SrHelloC | SrHelloD | SwServerHello => true
    case SwCert | SwCertStatus | SwKeyExch | SwCertReq | SwServerDone | SrCert => true
    case _ => false
  }

  ghost predicate ServerInv(sc: Script, v: Server) {
    sc.Agreed() && ChannelInv(sc, ServerSide, ServerPosition(sc, v), v.ch) && ServerFlags(sc, v)
  }

  /** What is known of the fields of the server in each state. */
  ghost predicate ServerFlags(sc: Script, v: Server) {
    && (sc.c.resumed ==> !ServerFullOnly(v.state) && (v.state == SwFlush ==> v.next == SrChange))
    && (!sc.c.resumed ==> v.state == SwFlush ==> (v.next.SrCert? || v.next.ServerOk?))
    && ((v.state.SrKeyExch? || v.state.SrCertVrfy?) ==> v.peerHasKey == (sc.s.certRequest && sc.c.hasCertificate))
    && (BeforeClientCert(v.state) ==> !v.peerHasKey)
    && (v.state == SwFlush && v.next == SrCert ==> !v.peerHasKey)
    && (v.ch.held.Some? <==> (v.state.SrHelloB? || v.state.SrHelloC? || v.state.SrHelloD?))
    && ((v.state.SrHelloC? || v.state.SrHelloD?) ==> v.ch.held == Some(ClientHello))
    && (!ServerSends(v.state) ==> v.ch.pending == [])
  }

  lemma ServerItem(sc: Script, v: Server)
    requires ServerInv(sc, v) && !(v.state.SwFlush? || v.state.ServerOk?)
    ensures ServerPosition(sc, v) + 1 < |sc.Stages()|
    ensures sc.ItemAt(ServerPosition(sc, v)) == sc.ItemOf(ServerStage(v.state), v.ch.transcript)
  {
    hide Script.Prefix, Hashed, OfSide;
    sc.PositionInverse(ServerStage(v.state));
  }

  ghost predicate ServerStepOk(sc: Script, v: Server, inbox: seq<Message>, blocked: bool) {
    var turn := ServerTurn(sc.s, sc.mac, v, inbox, blocked);
    && !turn.Failed?
    && (turn.Moved? ==>
          && ServerInv(sc, turn.peer)
          && Follows(sc, ServerSide, ServerPosition(sc, v), ServerPosition(sc, turn.peer),
                     v.ch, inbox, turn.peer.ch, turn.inbox, turn.flushed))
  }

  // The states that send, and those that expect one certain message.

  lemma ServerScript(sc: Script, v: Server)
    requires ServerInv(sc, v)
    ensures ServerSpeaksIn(v.state) ==>
      sc.ItemAt(ServerPosition(sc, v)) == ItemFrom(ServerSide, ServerSays(sc.s, sc.mac, v))
    ensures ServerExpectsIn(v.state) ==>
      sc.ItemAt(ServerPosition(sc, v)) == ItemFrom(ClientSide, ServerWants(sc.s, sc.mac, v))
  {
    hide Script.ItemAt, Script.Prefix, Hashed, OfSide, ChannelInv, Script.Position;
    if ServerSpeaksIn(v.state) || ServerExpectsIn(v.state) {
      ServerItem(sc, v);
    }
  }

  /** The next state is the next position. */
  lemma ServerGoesOn(sc: Script, v: Server, ch: Channel)
    requires ServerFlags(sc, v) && sc.Agreed() && (ServerSpeaksIn(v.state) || ServerExpectsIn(v.state))
    requires ch.held.None? && (ServerExpectsIn(v.state) ==> ch.pending == v.ch.pending)
    ensures var d := ServerMoved(sc.s, v, ch); ServerFlags(sc, d) && ServerPosition(sc, d) == ServerPosition(sc, v) + 1
  {
    ServerPositionNext(sc, v, ch);
    hide ServerPosition;
  }

  lemma ServerPositionNext(sc: Script, v: Server, ch: Channel)
    requires ServerFlags(sc, v) && sc.c.resumed == sc.s.resumed && (ServerSpeaksIn(v.state) || ServerExpectsIn(v.state))
    ensures ServerPosition(sc, ServerMoved(sc.s, v, ch)) == ServerPosition(sc, v) + 1
  {
    hide BeforeClientCert, ServerSends;
  }

  lemma ServerActs(sc: Script, v: Server, inbox: seq<Message>, ch: Channel, inbox': seq<Message>)
    requires ServerInv(sc, v) && (ServerSpeaksIn(v.state) || ServerExpectsIn(v.state))
    requires ServerTurn(sc.s, sc.mac, v, inbox, false) == Moved(ServerMoved(sc.s, v, ch), inbox', [])
    requires Acts(sc, ServerSide, ServerPosition(sc, v), v.ch, inbox, ch, inbox')
    requires ch.held.None? && (ServerExpectsIn(v.state) ==> ch.pending == v.ch.pending)
    ensures ServerStepOk(sc, v, inbox, false)
  {
    hide Script.ItemAt, ChannelInv, Follows, ServerTurn, ServerPosition, Acts, ServerGoes, ServerFlags;
    ServerGoesOn(sc, v, ch);
    ActsFollows(sc, ServerSide, ServerPosition(sc, v), v.ch, inbox, ch, inbox');
  }

  lemma ServerHoldsNothing(sc: Script, v: Server)
    requires ServerFlags(sc, v)
    ensures ServerSpeaksIn(v.state) || ServerExpectsIn(v.state) ==> v.ch.held.None?
  {
  }

  lemma ServerSpeaksUp(sc: Script, v: Server, inbox: seq<Message>)
    requires ServerInv(sc, v) && ServerSpeaksIn(v.state)
    ensures ServerStepOk(sc, v, inbox, false)
  {
    var ch := Added(v.ch, ServerSays(sc.s, sc.mac, v));
    ServerHoldsNothing(sc, v);
    hide Script.ItemAt, ServerStepOk, ServerTurn, ServerPosition, ServerSays, Channel.Send, ServerMoved, ServerInv;
    ServerSpeaks(sc.s, sc.mac, v, inbox);
    ServerScript(sc, v);
    AddedKeeps(v.ch, ServerSays(sc.s, sc.mac, v));
    ServerActs(sc, v, inbox, ch, inbox);
  }

  /** The states that neither send nor finish with a message. */
  lemma ServerStays(sc: Script, v: Server, inbox: seq<Message>)
    requires ServerInv(sc, v) && (v.state.SrHelloC? || v.state.SwFlush? || v.state.ServerOk?)
    ensures ServerStepOk(sc, v, inbox, false)
  {
    hide Script.ItemAt, Script.Prefix, Hashed, OfSide;
  }

  // The states that receive.

  ghost predicate ServerReads(sc: Script, v: Server, inbox: seq<Message>, j: nat)
  {
    && ServerInv(sc, v) && j < |sc.Stages()|
    && InboxInv(sc, ServerSide, ServerPosition(sc, v), j, AsSeq(v.ch.held) + inbox)
  }

  /** The ClientHello is looked at in several turns before it is taken. */
  lemma ServerReadsHello(sc: Script, v: Server, inbox: seq<Message>, j: nat)
    requires ServerReads(sc, v, inbox, j) && (v.state.SrHelloA? || v.state.SrHelloB?)
    ensures ServerStepOk(sc, v, inbox, false)
  {
    hide Script.ItemAt, Script.Prefix, Hashed, OfSide, InboxInv;
    ServerItem(sc, v);
    if AsSeq(v.ch.held) + inbox != [] {
      ExpectedHead(sc, ServerSide, ServerPosition(sc, v), j, AsSeq(v.ch.held) + inbox);
    }
  }

  lemma ServerTakesHello(sc: Script, v: Server, inbox: seq<Message>)
    requires ServerInv(sc, v) && v.state == SrHelloD
    ensures ServerStepOk(sc, v, inbox, false)
  {
    hide Script.ItemAt, Script.Prefix, Hashed, OfSide, ChannelInv, Follows, Channel.Hash;
    ServerItem(sc, v);
    ActsFollows(sc, ServerSide, ServerPosition(sc, v), v.ch, inbox,
      ServerTurn(sc.s, sc.mac, v, inbox, false).peer.ch, inbox);
  }

  lemma ServerReadsCert(sc: Script, v: Server, inbox: seq<Message>, j: nat)
    requires ServerReads(sc, v, inbox, j) && v.state.SrCert?
    ensures ServerStepOk(sc, v, inbox, false)
  {
    hide Script.ItemAt, Script.Prefix, Hashed, OfSide, ChannelInv, InboxInv, Follows, Channel.Hash, GetMessage, AsSeq;
    ServerItem(sc, v);
    GotHead(v.ch, inbox);
    var n, unread := ServerPosition(sc, v), AsSeq(v.ch.held) + inbox;
    if unread != [] {
      ExpectedHead(sc, ServerSide, n, j, unread);
    }
    var turn := ServerTurn(sc.s, sc.mac, v, inbox, false);
    if turn.Moved? {
      ActsFollows(sc, ServerSide, n, v.ch, inbox, turn.peer.ch, turn.inbox);
    }
  }

  /** The message to be read is the one that the server wants. */
  lemma ServerHead(sc: Script, v: Server, inbox: seq<Message>, j: nat)
    requires ServerReads(sc, v, inbox, j) && ServerExpectsIn(v.state)
    ensures var wants, unread := ServerWants(sc.s, sc.mac, v), AsSeq(v.ch.held) + inbox;
            wants.Some? && unread != [] ==> unread[0] == wants.value
  {
    var unread := AsSeq(v.ch.held) + inbox;
    ServerScript(sc, v);
    hide Script.ItemAt, ChannelInv, InboxInv, ServerPosition, ServerWants, ServerFlags, Script.Agreed;
    if unread != [] {
      ExpectedHead(sc, ServerSide, ServerPosition(sc, v), j, unread);
    }
  }

  lemma ServerListens(sc: Script, v: Server, inbox: seq<Message>, j: nat)
    requires ServerReads(sc, v, inbox, j) && ServerExpectsIn(v.state)
    ensures ServerStepOk(sc, v, inbox, false)
  {
    ServerHoldsNothing(sc, v);
    ServerHead(sc, v, inbox, j);
    ServerScript(sc, v);
    hide Script.ItemAt, ServerTurn, ServerPosition, ServerWants, Channel.Accept, Take, ServerMoved, ServerInv;
    ServerExpects(sc.s, sc.mac, v, inbox);
    match ServerWants(sc.s, sc.mac, v)
    case None => ServerActs(sc, v, inbox, v.ch, inbox);
    case Some(m) =>
      TakenHead(v.ch, inbox, m);
      var t := Take(v.ch, inbox, m);
      if t.Right? {
        ServerActs(sc, v, inbox, t.ch, t.inbox);
      }
  }

  lemma ServerReadsInv(sc: Script, v: Server, inbox: seq<Message>, j: nat)
    requires ServerReads(sc, v, inbox, j)
    ensures ServerInv(sc, v)
  {
  }

  /** No turn of the server fails the handshake, and every turn that moves follows the script. */
  lemma ServerStep(sc: Script, v: Server, inbox: seq<Message>, blocked: bool, j: nat)
    requires ServerReads(sc, v, inbox, j)
    ensures ServerStepOk(sc, v, inbox, blocked)
  {
    if !blocked {
      hide ServerStepOk, ServerReads, ServerInv;
      ServerReadsInv(sc, v, inbox, j);
      match v.state
      case SrHelloC | SwFlush | ServerOk => ServerStays(sc, v, inbox);
      case SrHelloA | SrHelloB => ServerReadsHello(sc, v, inbox, j);
      case SrHelloD => ServerTakesHello(sc, v, inbox);
      case SrCert => ServerReadsCert(sc, v, inbox, j);
      case _ =>
        if ServerSpeaksIn(v.state) {
          ServerSpeaksUp(sc, v, inbox);
        } else {
          ServerListens(sc, v, inbox, j);
        }
    }
  }
}

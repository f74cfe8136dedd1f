/** How one turn of either machine moves along the script. */
module HandshakeSteps {
  import opened Bytes
  import opened HandshakeScript
  import opened HandshakeMachines
  import opened HandshakeMoves

  function ClientStage(state: ClientState): Stage {
    match state
    case CwClientHello => Hello
    case CrServerHello => HelloAnswer
    case CrCert => ServerCert
    case CrCertStatus => Status
    case VerifyServerCert => KeyExchange
    case CrKeyExch => KeyExchange
    case CrCertReq => CertRequest
    case CrServerDone => HelloDone
    case CwCert => ClientCert
    case CwKeyExch => ClientKey
    case CwCertVrfy => Verify
    case CwChange => ClientCcs
    case CwNextProto => NextProto
    case CwChannelId => ChanId
    case CwFinished => ClientFin
    case CrSessionTicket => Ticket
    case CrChange => ServerCcs
    case CrFinished => ServerFin
    case CwFlush => Done
    case FinishClientHandshake => Done
    case ClientOk => Done
  }

  /** How far the client has come. While it flushes, that is where it goes next. */
  function ClientPosition(sc: Script, c: Client): (n: nat)
    ensures n < |sc.Stages()|
  {
    sc.Position(ClientStage(if c.state == CwFlush then c.next else c.state))
  }

  /** The states of a full handshake only. */
  predicate FullOnly(state: ClientState) {
    match state
    case CrCert | CrCertStatus | VerifyServerCert | CrKeyExch | CrCertReq | CrServerDone => true
    case CwCert | CwKeyExch | CwCertVrfy => true
    case _ => false
  }

  /** The states in which the flight is not empty or may become so by sending. */
  predicate ClientSends(state: ClientState) {
    match state
    case CwKeyExch | CwCertVrfy | CwChange | CwNextProto | CwChannelId | CwFinished | CwFlush => true
    case _ => false
  }

  predicate MayHold(state: ClientState) {
    (state.VerifyServerCert? || state.CrKeyExch? || state.CrCertReq? || state.CrServerDone?)
  }

  /** No certificate request can have been read yet. */
  predicate BeforeRequest(state: ClientState) {
    match state
    case CwClientHello | CrServerHello | CrCert | CrCertStatus | VerifyServerCert | CrKeyExch | CrCertReq => true
    case _ => false
  }

  /** A certificate request has been read if there is one, and it still matters. */
  predicate AfterRequest(state: ClientState) {
    match state
    case CrServerDone | CwCert | CwKeyExch | CwCertVrfy => true
    case _ => false
  }

  ghost predicate ChannelInv(sc: Script, side: Side, n: nat, ch: Channel)
    requires n < |sc.Stages()|
  {
    && ch.transcript == Hashed(sc.Prefix(n))
    && ch.sent == OfSide(sc.Prefix(n), side)
    && ch.received == OfSide(sc.Prefix(n), Other(side))
  }

  function Other(side: Side): Side {
    if side == ClientSide then ServerSide else ClientSide
  }

  ghost predicate ClientInv(sc: Script, c: Client) {
    sc.Agreed() && ChannelInv(sc, ClientSide, ClientPosition(sc, c), c.ch) && ClientFlags(sc, c)
  }

  /** What is known of the fields of the client in each state. */
  ghost predicate ClientFlags(sc: Script, c: Client) {
    && (sc.c.resumed ==>
          !FullOnly(c.state) && (c.state == CwFlush ==> (c.next.CrServerHello? || c.next.FinishClientHandshake?)))
    && (!sc.c.resumed ==> c.state == CwFlush ==> (c.next.CrServerHello? || c.next.CrSessionTicket?))
    && (AfterRequest(c.state) ==> c.certRequest == sc.s.certRequest)
    && (BeforeRequest(c.state) ==> !c.certRequest)
    && (c.state == CwFlush && c.next == CrServerHello ==> !c.certRequest)
    && (c.ch.held.Some? ==> MayHold(c.state))
    && (!ClientSends(c.state) ==> c.ch.pending == [])
  }

  /** What can be read: a prefix of the other side's messages up to the other side's position. */
  ghost predicate InboxInv(sc: Script, side: Side, n: nat, j: nat, unread: seq<Message>)
    requires n < |sc.Stages()| && j < |sc.Stages()|
  {
    && (n <= j ==> AllOf(sc.Between(n, j), Other(side)) && unread <= Messages(sc.Between(n, j)))
    && (n > j ==> unread == [])
  }

  ghost predicate AllOf(items: seq<(Side, Message)>, side: Side) {
    forall k | 0 <= k < |items| :: items[k].0 == side
  }

  /** What a turn that moves does: it stays within its stage, or it does what the script
      says for the stage and goes to the next one. */
  ghost predicate Follows(sc: Script, side: Side, n: nat, n': nat, ch: Channel, inbox: seq<Message>,
      ch': Channel, inbox': seq<Message>, flushed: seq<Message>)
    requires n < |sc.Stages()|
  {
    var unread, unread' := AsSeq(ch.held) + inbox, AsSeq(ch'.held) + inbox';
    if n' == n then unread' == unread && flushed + ch'.pending == ch.pending
    else
      && n' == n + 1 && flushed == []
      && match sc.ItemAt(n)
         case None => unread' == unread && ch'.pending == ch.pending
         case Some(item) =>
           if item.0 == side then unread' == unread && ch'.pending == ch.pending + [item.1]
           else unread == [item.1] + unread' && ch'.pending == ch.pending
  }

  /** If there is something to be read at a stage with a message of the other side, it is
      that message. */
  lemma ExpectedHead(sc: Script, side: Side, n: nat, j: nat, unread: seq<Message>)
    requires n < |sc.Stages()| && j < |sc.Stages()| && InboxInv(sc, side, n, j, unread) && unread != []
    ensures n < j
    ensures sc.ItemAt(n).Some? ==> sc.ItemAt(n).value == (Other(side), unread[0])
    ensures sc.ItemAt(n).None? ==> InboxInv(sc, side, n + 1, j, unread)
  {
    hide Script.ItemAt;
    if n < j {
      sc.BetweenFirst(n, j);
      var b, item := sc.Between(n, j), sc.ItemAt(n);
      if item.Some? {
        assert b[0] == item.value && Messages(b)[0] == b[0].1;
      } else {
        assert b == sc.Between(n + 1, j);
      }
    }
  }

  /** The stage after one with an optional message of the server. */
  function AfterOptional(stage: Stage): Stage {
    match stage
    case Status => KeyExchange
    case KeyExchange => CertRequest
    case _ => HelloDone
  }

  lemma AfterOptionalItem(sc: Script, stage: Stage)
    requires !sc.c.resumed && (stage.Status? || stage.KeyExchange? || stage.CertRequest?)
    ensures sc.Position(AfterOptional(stage)) == sc.Position(stage) + 1 < |sc.Stages()|
    ensures var item := sc.ItemAt(sc.Position(stage) + 1);
            match stage
            case Status => item.Some? ==> item.value.1 == ServerKeyExchange
            case KeyExchange => item.Some? ==> item.value.1 == CertificateRequest
            case _ => item == Some((ServerSide, ServerHelloDone))
  {
    hide Script.Prefix, Hashed;
  }

  /** What the client finds when it looks for an optional message that is not sent. */
  lemma {:induction false} OptionalHead(sc: Script, j: nat, unread: seq<Message>, stage: Stage)
    requires !sc.c.resumed && j < |sc.Stages()| && (stage.Status? || stage.KeyExchange? || stage.CertRequest?)
    requires InboxInv(sc, ClientSide, sc.Position(stage), j, unread) && unread != []
    requires sc.ItemAt(sc.Position(stage)).None?
    ensures unread[0].ServerKeyExchange? || unread[0].CertificateRequest? || unread[0].ServerHelloDone?
    ensures stage == KeyExchange ==> unread[0] != ServerKeyExchange
    ensures stage == CertRequest ==> unread[0] == ServerHelloDone
    decreases |sc.Stages()| - sc.Position(stage)
  {
    hide InboxInv, Script.ItemAt, Script.Position, Script.Stages;
    var n := sc.Position(stage);
    ExpectedHead(sc, ClientSide, n, j, unread);
    AfterOptionalItem(sc, stage);
    ExpectedHead(sc, ClientSide, n + 1, j, unread);
    if sc.ItemAt(n + 1).None? {
      OptionalHead(sc, j, unread, AfterOptional(stage));
    }
  }

  /** The records of a channel after the message of a stage. */
  lemma ChannelAdvances(sc: Script, side: Side, n: nat, ch: Channel, ch': Channel)
    requires n + 1 < |sc.Stages()| && ChannelInv(sc, side, n, ch)
    requires match sc.ItemAt(n)
             case None => ch'.transcript == ch.transcript && ch'.sent == ch.sent && ch'.received == ch.received
             case Some(item) =>
               && ch'.transcript == ch.Hash(item.1)
               && ch'.sent == ch.sent + (if item.0 == side then [item.1] else [])
               && ch'.received == ch.received + (if item.0 == side then [] else [item.1])
    ensures ChannelInv(sc, side, n + 1, ch')
  {
    hide Script.ItemAt, Script.Prefix, Hashed, OfSide;
    sc.HashedNext(n);
  }

  lemma ClientItem(sc: Script, c: Client)
    requires ClientInv(sc, c) && !(c.state.CwFlush? || c.state.FinishClientHandshake? || c.state.ClientOk?)
    ensures ClientPosition(sc, c) + 1 < |sc.Stages()|
    ensures sc.ItemAt(ClientPosition(sc, c)) == sc.ItemOf(ClientStage(c.state), c.ch.transcript)
  {
    hide Script.Prefix, Hashed, OfSide;
    sc.PositionInverse(ClientStage(c.state));
  }

  ghost predicate ClientStepOk(sc: Script, c: Client, inbox: seq<Message>, blocked: bool) {
    var turn := ClientTurn(sc.c, sc.mac, c, inbox, blocked);
    && !turn.Failed?
    && (turn.Moved? ==>
          && ClientInv(sc, turn.peer)
          && Follows(sc, ClientSide, ClientPosition(sc, c), ClientPosition(sc, turn.peer),
                     c.ch, inbox, turn.peer.ch, turn.inbox, turn.flushed))
  }

  /** What the message of a stage does to a channel: its sender adds it to the flight, the
      other side takes it. */
  ghost predicate Acts(sc: Script, side: Side, n: nat, ch: Channel, inbox: seq<Message>, ch': Channel,
        inbox': seq<Message>)
    requires n < |sc.Stages()|
  {
    match sc.ItemAt(n)
    case None => AsSeq(ch'.held) + inbox' == AsSeq(ch.held) + inbox && ch' == ch.(held := ch'.held)
    case Some(item) =>
      if item.0 == side then inbox' == inbox && ch' == ch.Send(item.1)
      else AsSeq(ch.held) + inbox == [item.1] + inbox' && ch' == ch.Accept(item.1)
  }

  lemma ActsFollows(sc: Script, side: Side, n: nat, ch: Channel, inbox: seq<Message>, ch': Channel,
        inbox': seq<Message>)
    requires n + 1 < |sc.Stages()| && ChannelInv(sc, side, n, ch) && Acts(sc, side, n, ch, inbox, ch', inbox')
    ensures ChannelInv(sc, side, n + 1, ch') && Follows(sc, side, n, n + 1, ch, inbox, ch', inbox', [])
  {
    hide Script.ItemAt, Script.Prefix, Hashed, OfSide, ChannelInv;
    ChannelAdvances(sc, side, n, ch, ch');
    assert [] + inbox' == inbox';
  }

  /** The message at hand is the first of those that are unread. */
  lemma GotHead(ch: Channel, inbox: seq<Message>)
    ensures var unread := AsSeq(ch.held) + inbox;
            match GetMessage(ch, inbox)
            case NoMessage => unread == []
            case NotAMessage => unread != [] && unread[0] == ChangeCipherSpec
            case Got(m, rest) => unread == [m] + rest == AsSeq(Some(m)) + rest && unread[0] == m
  {
  }

  lemma TakenHead(ch: Channel, inbox: seq<Message>, m: Message)
    ensures var t, unread := Take(ch, inbox, m), AsSeq(ch.held) + inbox;
            && (t.Right? ==>
                unread == [m] + t.inbox && t.ch == ch.Accept(m) && t.ch.held.None? && t.ch.pending == ch.pending)
            && (t.Nothing? <==> unread == []) && (t.Wrong? <==> unread != [] && unread[0] != m)
  {
  }

  lemma AddedKeeps(ch: Channel, o: Option<Message>)
    ensures Added(ch, o).held == ch.held
  {
  }

  function ItemFrom(side: Side, o: Option<Message>): Option<(Side, Message)> {
    if o.Some? then Some((side, o.value)) else None
  }

  // The states that send, and those that expect one certain message.

  lemma ClientScript(sc: Script, c: Client)
    requires ClientInv(sc, c)
    ensures ClientSpeaksIn(c.state) ==>
      sc.ItemAt(ClientPosition(sc, c)) == ItemFrom(ClientSide, ClientSays(sc.c, sc.mac, c))
    ensures ClientExpectsIn(c.state) ==>
      sc.ItemAt(ClientPosition(sc, c)) == ItemFrom(ServerSide, ClientWants(sc.c, sc.mac, c))
  {
    hide Script.ItemAt, Script.Prefix, Hashed, OfSide, ChannelInv, Script.Position;
    if ClientSpeaksIn(c.state) || ClientExpectsIn(c.state) {
      ClientItem(sc, c);
    }
  }

  /** The next state is the next position. */
  lemma ClientGoesOn(sc: Script, c: Client, ch: Channel)
    requires ClientFlags(sc, c) && (ClientSpeaksIn(c.state) || ClientExpectsIn(c.state))
    requires ch.held.None? && (ClientExpectsIn(c.state) ==> ch.pending == c.ch.pending)
    ensures var d := ClientMoved(sc.c, c, ch); ClientFlags(sc, d) && ClientPosition(sc, d) == ClientPosition(sc, c) + 1
  {
    ClientPositionNext(sc, c, ch);
    hide ClientPosition;
  }

  lemma ClientPositionNext(sc: Script, c: Client, ch: Channel)
    requires ClientFlags(sc, c) && (ClientSpeaksIn(c.state) || ClientExpectsIn(c.state))
    ensures ClientPosition(sc, ClientMoved(sc.c, c, ch)) == ClientPosition(sc, c) + 1
  {
    hide BeforeRequest, AfterRequest, MayHold, ClientSends;
  }

  lemma ClientActs(sc: Script, c: Client, inbox: seq<Message>, ch: Channel, inbox': seq<Message>)
    requires ClientInv(sc, c) && (ClientSpeaksIn(c.state) || ClientExpectsIn(c.state))
    requires ClientTurn(sc.c, sc.mac, c, inbox, false) == Moved(ClientMoved(sc.c, c, ch), inbox', [])
    requires Acts(sc, ClientSide, ClientPosition(sc, c), c.ch, inbox, ch, inbox')
    requires ch.held.None? && (ClientExpectsIn(c.state) ==> ch.pending == c.ch.pending)
    ensures ClientStepOk(sc, c, inbox, false)
  {
    hide Script.ItemAt, ChannelInv, Follows, ClientTurn, ClientPosition, Acts, ClientGoes, ClientFlags;
    ClientGoesOn(sc, c, ch);
    ActsFollows(sc, ClientSide, ClientPosition(sc, c), c.ch, inbox, ch, inbox');
  }

  lemma ClientSpeaksUp(sc: Script, c: Client, inbox: seq<Message>)
    requires ClientInv(sc, c) && ClientSpeaksIn(c.state)
    ensures ClientStepOk(sc, c, inbox, false)
  {
    var ch := Added(c.ch, ClientSays(sc.c, sc.mac, c));
    NothingHeld(sc, c);
    hide Script.ItemAt, ClientStepOk, ClientTurn, ClientPosition, ClientSays, Channel.Send, ClientMoved, ClientInv;
    ClientSpeaks(sc.c, sc.mac, c, inbox);
    ClientScript(sc, c);
    AddedKeeps(c.ch, ClientSays(sc.c, sc.mac, c));
    ClientActs(sc, c, inbox, ch, inbox);
  }

  lemma NothingHeld(sc: Script, c: Client)
    requires ClientFlags(sc, c)
    ensures ClientSpeaksIn(c.state) || (ClientExpectsIn(c.state) && c.state != CrServerDone) ==> c.ch.held.None?
  {
  }

  /** The states that neither send nor receive. */
  lemma ClientStays(sc: Script, c: Client, inbox: seq<Message>)
    requires ClientInv(sc, c)
    requires c.state.VerifyServerCert? || c.state.CwFlush? || c.state.FinishClientHandshake? || c.state.ClientOk?
    ensures ClientStepOk(sc, c, inbox, false)
  {
    hide Script.ItemAt, Script.Prefix, Hashed, OfSide;
  }

  ghost predicate ClientReads(sc: Script, c: Client, inbox: seq<Message>, j: nat)
  {
    && ClientInv(sc, c) && j < |sc.Stages()|
    && InboxInv(sc, ClientSide, ClientPosition(sc, c), j, AsSeq(c.ch.held) + inbox)
  }

  /** The message to be read is the one that the client wants. */
  lemma ClientHead(sc: Script, c: Client, inbox: seq<Message>, j: nat)
    requires ClientReads(sc, c, inbox, j) && ClientExpectsIn(c.state)
    ensures var wants, unread := ClientWants(sc.c, sc.mac, c), AsSeq(c.ch.held) + inbox;
            && (c.ch.held.Some? ==> c.ch.held == wants == Some(ServerHelloDone))
            && (wants.Some? && unread != [] ==> unread[0] == wants.value)
  {
    var unread := AsSeq(c.ch.held) + inbox;
    NothingHeld(sc, c);
    ClientScript(sc, c);
    HeldFirst(c.ch, inbox);
    DoneIsWanted(sc.c, sc.mac, c);
    hide Script.ItemAt, ChannelInv, InboxInv, ClientPosition, ClientWants, ClientFlags, Script.Agreed;
    if unread != [] {
      ExpectedHead(sc, ClientSide, ClientPosition(sc, c), j, unread);
    }
  }

  lemma ClientListens(sc: Script, c: Client, inbox: seq<Message>, j: nat)
    requires ClientReads(sc, c, inbox, j) && ClientExpectsIn(c.state)
    ensures ClientStepOk(sc, c, inbox, false)
  {
    NothingHeld(sc, c);
    ClientHead(sc, c, inbox, j);
    ClientScript(sc, c);
    hide Script.ItemAt, ClientTurn, ClientPosition, ClientWants, Channel.Accept, Take, ClientMoved, ClientInv;
    ClientExpects(sc.c, sc.mac, c, inbox);
    match ClientWants(sc.c, sc.mac, c)
    case None => ClientActs(sc, c, inbox, c.ch, inbox);
    case Some(m) =>
      TakenHead(c.ch, inbox, m);
      var t := Take(c.ch, inbox, m);
      if t.Right? {
        ClientActs(sc, c, inbox, t.ch, t.inbox);
      }
  }

  lemma HeldFirst(ch: Channel, inbox: seq<Message>)
    ensures ch.held.Some? ==> AsSeq(ch.held) + inbox != [] && (AsSeq(ch.held) + inbox)[0] == ch.held.value
  {
  }

  lemma DoneIsWanted(k: ClientConfig, mac: Mac, c: Client)
    ensures c.state == CrServerDone ==> ClientWants(k, mac, c) == Some(ServerHelloDone)
  {
  }

  // The states that look for an optional message.

  lemma ClientReadsStatus(sc: Script, c: Client, inbox: seq<Message>, j: nat)
    requires ClientReads(sc, c, inbox, j) && c.state.CrCertStatus?
    ensures ClientStepOk(sc, c, inbox, false)
  {
    hide Script.ItemAt, Script.Prefix, Hashed, OfSide, ChannelInv, InboxInv, Follows, Channel.Hash, GetMessage, AsSeq;
    ClientItem(sc, c);
    GotHead(c.ch, inbox);
    var n, unread := ClientPosition(sc, c), AsSeq(c.ch.held) + inbox;
    if unread != [] {
      ExpectedHead(sc, ClientSide, n, j, unread);
      if sc.ItemAt(n).None? {
        OptionalHead(sc, j, unread, Status);
      }
    }
    var turn := ClientTurn(sc.c, sc.mac, c, inbox, false);
    if turn.Moved? {
      ActsFollows(sc, ClientSide, n, c.ch, inbox, turn.peer.ch, turn.inbox);
    }
  }

  lemma ClientReadsKeyExchange(sc: Script, c: Client, inbox: seq<Message>, j: nat)
    requires ClientReads(sc, c, inbox, j) && c.state.CrKeyExch?
    ensures ClientStepOk(sc, c, inbox, false)
  {
    hide Script.ItemAt, Script.Prefix, Hashed, OfSide, ChannelInv, InboxInv, Follows, Channel.Hash, GetMessage, AsSeq;
    ClientItem(sc, c);
    GotHead(c.ch, inbox);
    var n, unread := ClientPosition(sc, c), AsSeq(c.ch.held) + inbox;
    if unread != [] {
      ExpectedHead(sc, ClientSide, n, j, unread);
      if sc.ItemAt(n).None? {
        OptionalHead(sc, j, unread, KeyExchange);
      }
    }
    var turn := ClientTurn(sc.c, sc.mac, c, inbox, false);
    if turn.Moved? {
      ActsFollows(sc, ClientSide, n, c.ch, inbox, turn.peer.ch, turn.inbox);
    }
  }

  lemma ClientReadsCertRequest(sc: Script, c: Client, inbox: seq<Message>, j: nat)
    requires ClientReads(sc, c, inbox, j) && c.state.CrCertReq?
    ensures ClientStepOk(sc, c, inbox, false)
  {
    hide Script.ItemAt, Script.Prefix, Hashed, OfSide, ChannelInv, InboxInv, Follows, Channel.Hash, GetMessage, AsSeq;
    ClientItem(sc, c);
    GotHead(c.ch, inbox);
    var n, unread := ClientPosition(sc, c), AsSeq(c.ch.held) + inbox;
    if unread != [] {
      ExpectedHead(sc, ClientSide, n, j, unread);
      if sc.ItemAt(n).None? {
        OptionalHead(sc, j, unread, CertRequest);
      }
    }
    var turn := ClientTurn(sc.c, sc.mac, c, inbox, false);
    if turn.Moved? {
      ActsFollows(sc, ClientSide, n, c.ch, inbox, turn.peer.ch, turn.inbox);
    }
  }

  /** No turn of the client fails the handshake, and every turn that moves follows the script. */
  lemma ClientStep(sc: Script, c: Client, inbox: seq<Message>, blocked: bool, j: nat)
    requires ClientReads(sc, c, inbox, j)
    ensures ClientStepOk(sc, c, inbox, blocked)
  {
    if !blocked {
      hide ClientStepOk, ClientReads, ClientInv;
      ReadsInv(sc, c, inbox, j);
      match c.state
      case VerifyServerCert | CwFlush | FinishClientHandshake | ClientOk => ClientStays(sc, c, inbox);
      case CrCertStatus => ClientReadsStatus(sc, c, inbox, j);
      case CrKeyExch => ClientReadsKeyExchange(sc, c, inbox, j);
      case CrCertReq => ClientReadsCertRequest(sc, c, inbox, j);
      case _ =>
        if ClientSpeaksIn(c.state) {
          ClientSpeaksUp(sc, c, inbox);
        } else {
          ClientListens(sc, c, inbox, j);
        }
    }
  }

  lemma ReadsInv(sc: Script, c: Client, inbox: seq<Message>, j: nat)
    requires ClientReads(sc, c, inbox, j)
    ensures ClientInv(sc, c)
  {
  }
}

/** Whatever the other side sends, a side that ends has run one handshake in its whole order:
    every message that had to come has come, once and in its place, and nothing else. */
module HandshakeOneSided {
  import opened Bytes
  import opened HandshakeScript
  import opened HandshakeMachines
  import opened HandshakeMoves
  import opened HandshakeSteps
  import opened HandshakeServerSteps
  import opened HandshakeLoops
  import opened HandshakeChecks
  import opened HandshakeOrder

  /** The stages before which two scripts do not differ have the same messages. */
  lemma {:induction false} SamePrefix(sc: Script, sc': Script, n: nat)
    requires sc.c.resumed == sc'.c.resumed && n <= |sc.Stages()|
    requires forall i, done | 0 <= i < n ::
      sc.ItemOf(sc.Stages()[i], done) == sc'.ItemOf(sc.Stages()[i], done)
    ensures sc.Prefix(n) == sc'.Prefix(n)
  {
    hide Script.ItemOf, PositionOf, Hashed;
    if n > 0 {
      SamePrefix(sc, sc', n - 1);
      assert sc.ItemAt(n - 1) == sc'.ItemAt(n - 1);
    }
  }

  /** What a side has said or taken, as an item of a script. */
  function ItemDone(side: Side, says: Option<Message>, taken: Option<Message>): Option<(Side, Message)> {
    if says.Some? then Some((side, says.value)) else if taken.Some? then Some((Other(side), taken.value)) else None
  }

  lemma StageDone(sc: Script, side: Side, stage: Stage, ch: Channel, ch': Channel, says: Option<Message>,
        taken: Option<Message>)
    requires sc.Position(stage) + 1 < |sc.Stages()| && ChannelInv(sc, side, sc.Position(stage), ch)
    requires Does(ch, ch', says, taken) && (says.None? || taken.None?)
    requires sc.ItemOf(stage, ch.transcript) == ItemDone(side, says, taken)
    ensures ChannelInv(sc, side, sc.Position(stage) + 1, ch')
  {
    hide Script.Prefix, Hashed, OfSide, Script.Position, Script.ItemOf, Script.Stages;
    sc.PositionInverse(stage);
    assert forall a: seq<Message> :: a + [] == a;
    ChannelAdvances(sc, side, sc.Position(stage), ch, ch');
  }

  lemma NothingDoneYet(sc: Script, side: Side, n: nat, ch: Channel, ch': Channel)
    requires n < |sc.Stages()| && ChannelInv(sc, side, n, ch) && Does(ch, ch', None, None)
    ensures ChannelInv(sc, side, n, ch')
  {
    assert forall a: seq<Message> :: a + [] == a;
  }

  // ---------------------------------------------------------------- the server

  /** The script that the server has followed so far: the peer has a certificate if it has
      shown one. */
  function ServerFollows(k: ServerConfig, mac: Mac, v: Server): Script {
    Script(ClientConfig(k.resumed, k.certAuth, k.sendsStatus, k.keyExchangeRequired, v.peerHasKey,
                        k.npn, k.channelId, k.ticket), k, mac)
  }

  function ServerAt(v: Server): ServerState {
    if v.state == SwFlush then v.next else v.state
  }

  /** What the server knows of its peer's certificate. */
  ghost predicate ServerKnows(k: ServerConfig, v: Server) {
    && (v.state.SrHelloC? || v.state.SrHelloD? ==> v.ch.held == Some(ClientHello))
    && (v.peerHasKey ==> k.certRequest && !k.resumed && !BeforeClientCert(ServerAt(v)))
    && (k.certRequest && k.certRequired && !k.resumed && !BeforeClientCert(ServerAt(v)) ==> v.peerHasKey)
  }

  ghost predicate ServerOrdered(k: ServerConfig, mac: Mac, v: Server) {
    var sc := ServerFollows(k, mac, v);
    ServerKnows(k, v) && ChannelInv(sc, ServerSide, ServerPosition(sc, v), v.ch)
  }

  predicate ServerPauses(state: ServerState) {
    state.SrHelloA? || state.SrHelloB? || state.SrHelloC? || state.SwFlush?
  }

  lemma ServerFullStage(v: Server, peer: Server)
    requires ServerControl(false, v) && v.state != ServerOk && (peer.state, peer.next) == ServerGoes(false, v)
    ensures PositionOf(false, ServerStage(ServerAt(peer))) ==
      PositionOf(false, ServerStage(ServerAt(v))) + if ServerPauses(v.state) then 0 else 1
  {
    hide StagesOf;
  }

  lemma ServerAbbreviatedStage(v: Server, peer: Server)
    requires ServerControl(true, v) && v.state != ServerOk && (peer.state, peer.next) == ServerGoes(true, v)
    ensures PositionOf(true, ServerStage(ServerAt(peer))) ==
      PositionOf(true, ServerStage(ServerAt(v))) + if ServerPauses(v.state) then 0 else 1
  {
    hide StagesOf;
  }

  lemma ServerPositions(k: ServerConfig, mac: Mac, v: Server, peer: Server)
    requires ServerControl(k.resumed, v) && v.state != ServerOk && (peer.state, peer.next) == ServerGoes(k.resumed, v)
    ensures var n, n' := ServerPosition(ServerFollows(k, mac, v), v), ServerPosition(ServerFollows(k, mac, peer), peer);
            n' == if ServerPauses(v.state) then n else n + 1
  {
    hide ServerControl, ServerGoes, ServerStage, PositionOf, StagesOf, ServerPauses;
    if k.resumed {
      ServerAbbreviatedStage(v, peer);
    } else {
      ServerFullStage(v, peer);
    }
  }

  lemma ServerLearnsRight(k: ServerConfig, mac: Mac, v: Server, peer: Server, taken: Option<Message>)
    requires ServerControl(k.resumed, v) && v.state != ServerOk && (peer.state, peer.next) == ServerGoes(k.resumed, v)
    requires ServerKnows(k, v) && ServerLearns(k, v, peer, taken)
    requires v.state.SrHelloB? ==> peer.ch.held == Some(ClientHello)
    requires v.state.SrHelloC? ==> peer.ch.held == v.ch.held
    ensures ServerKnows(k, peer)
  {
  }

  lemma ServerSaysItem(k: ServerConfig, mac: Mac, v: Server, peer: Server, taken: Option<Message>)
    requires !ServerPauses(v.state) && v.state != ServerOk
    requires ServerKnows(k, v) && ServerTakes(k, mac, v, taken) && ServerLearns(k, v, peer, taken)
    ensures ServerFollows(k, mac, peer).ItemOf(ServerStage(v.state), v.ch.transcript) ==
      ItemDone(ServerSide, ServerSays(k, mac, v), taken)
  {
  }

  lemma ServerHeldHello(k: ServerConfig, mac: Mac, v: Server, inbox: seq<Message>)
    requires ServerTurn(k, mac, v, inbox, false).Moved? && (v.state.SrHelloB? || v.state.SrHelloC?)
    ensures ServerTurn(k, mac, v, inbox, false).peer.ch.held == v.ch.held
    ensures v.state.SrHelloB? ==> v.ch.held == Some(ClientHello)
  {
  }

  lemma ServerPausesQuietly(k: ServerConfig, mac: Mac, v: Server, peer: Server, taken: Option<Message>)
    requires ServerPauses(v.state) && ServerTakes(k, mac, v, taken) && ServerLearns(k, v, peer, taken)
    ensures ServerSays(k, mac, v).None? && taken.None? && peer.peerHasKey == v.peerHasKey
  {
  }

  lemma ServerOneOnly(k: ServerConfig, mac: Mac, v: Server, taken: Option<Message>)
    requires ServerTakes(k, mac, v, taken)
    ensures ServerSays(k, mac, v).Some? ==> taken.None?
  {
  }

  /** What is known of the peer's certificate does not matter for the messages before it. */
  lemma ServerSameSoFar(k: ServerConfig, mac: Mac, v: Server, peer: Server, taken: Option<Message>)
    requires ServerControl(k.resumed, v) && v.state != SwFlush && v.state != ServerOk
    requires ServerLearns(k, v, peer, taken)
    ensures var n := ServerPosition(ServerFollows(k, mac, v), v);
            ServerFollows(k, mac, v).Prefix(n) == ServerFollows(k, mac, peer).Prefix(n)
  {
    hide Script.Prefix;
    var sc, sc' := ServerFollows(k, mac, v), ServerFollows(k, mac, peer);
    if v.state == SrCert {
      SamePrefix(sc, sc', 7);
    } else {
      assert sc == sc';
    }
  }

  lemma ServerTurnOrdered(k: ServerConfig, mac: Mac, v: Server, inbox: seq<Message>)
    requires ServerChecked(k, mac, v) && ServerOrdered(k, mac, v) && ServerTurn(k, mac, v, inbox, false).Moved?
    ensures ServerOrdered(k, mac, ServerTurn(k, mac, v, inbox, false).peer)
  {
    hide ServerTurn, ServerControl, ServerHolds, Fits, ServerSays, ServerTakes, ServerLearns, ServerKnows,
      ServerPosition, ServerStage, ServerGoes, ServerPauses, Does, ChannelInv, ServerFollows, Script.Stages;
    var peer, says := ServerTurn(k, mac, v, inbox, false).peer, ServerSays(k, mac, v);
    var taken := ServerDoes(k, mac, v, inbox);
    ServerWent(k, mac, v, inbox);
    if v.state.SrHelloB? || v.state.SrHelloC? {
      ServerHeldHello(k, mac, v, inbox);
    }
    ServerLearnsRight(k, mac, v, peer, taken);
    ServerPositions(k, mac, v, peer);
    ServerChannelOrdered(k, mac, v, peer, taken);
  }

  lemma ServerChannelOrdered(k: ServerConfig, mac: Mac, v: Server, peer: Server, taken: Option<Message>)
    requires ServerControl(k.resumed, v) && v.state != ServerOk && (peer.state, peer.next) == ServerGoes(k.resumed, v)
    requires ServerOrdered(k, mac, v) && ServerTakes(k, mac, v, taken) && ServerLearns(k, v, peer, taken)
    requires Does(v.ch, peer.ch, ServerSays(k, mac, v), taken)
    ensures var sc := ServerFollows(k, mac, peer); ChannelInv(sc, ServerSide, ServerPosition(sc, peer), peer.ch)
  {
    hide ServerControl, ServerSays, ServerTakes, ServerLearns, ServerKnows, ServerGoes, Does,
      Script.Prefix, Hashed, OfSide, PositionOf, StagesOf, Script.ItemOf;
    var sc, sc', says := ServerFollows(k, mac, v), ServerFollows(k, mac, peer), ServerSays(k, mac, v);
    var n := ServerPosition(sc, v);
    ServerPositions(k, mac, v, peer);
    if ServerPauses(v.state) {
      ServerPausesQuietly(k, mac, v, peer, taken);
      NothingDoneYet(sc, ServerSide, n, v.ch, peer.ch);
    } else {
      ServerOneOnly(k, mac, v, taken);
      ServerSaysItem(k, mac, v, peer, taken);
      ServerSameSoFar(k, mac, v, peer, taken);
      StageDone(sc', ServerSide, ServerStage(v.state), v.ch, peer.ch, says, taken);
    }
  }

  lemma {:induction false} ServerAfterOrdered(k: ServerConfig, mac: Mac, offers: seq<Offer>)
    ensures ServerOrdered(k, mac, ServerAfter(k, mac, offers))
  {
    hide ServerTurn, ServerOrdered, ServerChecked;
    if offers == [] {
      ServerStartsOrdered(k, mac);
    } else {
      var v, offer := ServerAfter(k, mac, offers[..|offers| - 1]), offers[|offers| - 1];
      ServerAfterOrdered(k, mac, offers[..|offers| - 1]);
      ServerBlockedTurns(k, mac, v, offer);
      if ServerTurn(k, mac, v, offer.inbox, offer.blocked).Moved? {
        ServerTurnOrdered(k, mac, v, offer.inbox);
      }
    }
  }

  lemma ServerStartsOrdered(k: ServerConfig, mac: Mac)
    ensures ServerOrdered(k, mac, Server(SrHelloA, SrHelloA, false, Channel(None, [], [], [], [])))
  {
  }

  lemma ServerBlockedTurns(k: ServerConfig, mac: Mac, v: Server, offer: Offer)
    ensures var t := ServerTurn(k, mac, v, offer.inbox, offer.blocked);
            t.Moved? ==> t == ServerTurn(k, mac, v, offer.inbox, false)
  {
  }

  /** Whatever has been offered to it, a server that is done has received and sent exactly the
      messages of one handshake, whose only freedom is the client's certificate: it was there
      if one was required, and CertificateVerify came if and only if it was not empty. */
  lemma ServerEndsInOrder(k: ServerConfig, mac: Mac, offers: seq<Offer>)
    ensures var v := ServerAfter(k, mac, offers);
            v.state == ServerOk ==>
              var o := OutcomeOf(ServerFollows(k, mac, v));
              && v.ch.received == o.client && v.ch.sent == o.server && v.ch.transcript == o.transcript
              && (k.certRequest && k.certRequired && !k.resumed ==> v.peerHasKey)
  {
    hide ServerTurn, ServerAfter, OutcomeOf, Script.Prefix, Hashed, OfSide;
    var v := ServerAfter(k, mac, offers);
    var sc := ServerFollows(k, mac, v);
    ServerAfterOrdered(k, mac, offers);
    if v.state == ServerOk {
      ScriptOutcome(sc);
    }
  }

  /** In particular, a server that requires a client certificate does not finish without one
      that is followed by a proof of its key. */
  lemma NoClientWithoutCertificate(k: ServerConfig, mac: Mac, offers: seq<Offer>)
    requires k.certRequest && k.certRequired && !k.resumed
    ensures var v := ServerAfter(k, mac, offers);
            v.state == ServerOk ==>
              && |v.ch.received| >= 4 && Certificate(true) !in v.ch.received
              && v.ch.received[..4] == [ClientHello, Certificate(false), ClientKeyExchange, CertificateVerify]
  {
    hide ServerTurn, ServerAfter, FullOutcome;
    ServerEndsInOrder(k, mac, offers);
    var v := ServerAfter(k, mac, offers);
    if v.state == ServerOk {
      CertificateFirst(ServerFollows(k, mac, v));
    }
  }

  lemma CertificateFirst(sc: Script)
    requires sc.s.certRequest && sc.c.hasCertificate
    ensures var m := FullOutcome(sc).client;
            && |m| >= 4 && Certificate(true) !in m
            && m[..4] == [ClientHello, Certificate(false), ClientKeyExchange, CertificateVerify]
  {
    var m, answered := FullOutcome(sc).client, [Certificate(false), ClientKeyExchange, CertificateVerify];
    assert Answered(true, true) == answered;
    assert Certificate(true) !in Extensions(sc.c.npn, sc.c.channelId);
  }

  // ---------------------------------------------------------------- the client

  /** The script that the client has followed so far: the server sends what it has sent. */
  function ClientFollows(k: ClientConfig, mac: Mac, c: Client): Script {
    Script(k, ServerConfig(k.resumed, k.certAuth, CertificateStatus in c.ch.received, k.keyExchangeRequired,
                           ServerKeyExchange in c.ch.received, c.certRequest, false, k.npn, k.channelId, k.ticket), mac)
  }

  function ClientAt(c: Client): ClientState {
    if c.state == CwFlush then c.next else c.state
  }

  predicate BeforeStatus(state: ClientState) {
    state.CwClientHello? || state.CrServerHello? || state.CrCert? || state.CrCertStatus?
  }

  predicate BeforeKeyExchange(state: ClientState) {
    BeforeStatus(state) || state.VerifyServerCert? || state.CrKeyExch?
  }

  /** What the client knows of the messages that may or may not come. */
  ghost predicate ClientKnows(k: ClientConfig, c: Client) {
    && (CertificateStatus in c.ch.received ==> k.statusExpected && !k.resumed && !BeforeStatus(ClientAt(c)))
    && (ServerKeyExchange in c.ch.received ==> !k.resumed && !BeforeKeyExchange(ClientAt(c)))
    && (c.certRequest ==> k.certAuth && !k.resumed && !BeforeRequest(ClientAt(c)))
  }

  ghost predicate ClientOrdered(k: ClientConfig, mac: Mac, c: Client) {
    var sc := ClientFollows(k, mac, c);
    ClientKnows(k, c) && ChannelInv(sc, ClientSide, ClientPosition(sc, c), c.ch)
  }

  predicate ClientPauses(state: ClientState) {
    state.VerifyServerCert? || state.CwFlush? || state.FinishClientHandshake?
  }

  lemma ClientFullStage(c: Client, peer: Client)
    requires ClientControl(false, c) && c.state != ClientOk && (peer.state, peer.next) == ClientGoes(false, c)
    ensures PositionOf(false, ClientStage(ClientAt(peer))) ==
      PositionOf(false, ClientStage(ClientAt(c))) + if ClientPauses(c.state) then 0 else 1
  {
    hide StagesOf;
  }

  lemma ClientAbbreviatedStage(c: Client, peer: Client)
    requires ClientControl(true, c) && c.state != ClientOk && (peer.state, peer.next) == ClientGoes(true, c)
    ensures PositionOf(true, ClientStage(ClientAt(peer))) ==
      PositionOf(true, ClientStage(ClientAt(c))) + if ClientPauses(c.state) then 0 else 1
  {
    hide StagesOf;
  }

  lemma ClientPositions(k: ClientConfig, mac: Mac, c: Client, peer: Client)
    requires ClientControl(k.resumed, c) && c.state != ClientOk && (peer.state, peer.next) == ClientGoes(k.resumed, c)
    ensures var n, n' := ClientPosition(ClientFollows(k, mac, c), c), ClientPosition(ClientFollows(k, mac, peer), peer);
            n' == if ClientPauses(c.state) then n else n + 1
  {
    hide ClientControl, ClientGoes, ClientStage, PositionOf, StagesOf, ClientPauses;
    if k.resumed {
      ClientAbbreviatedStage(c, peer);
    } else {
      ClientFullStage(c, peer);
    }
  }

  lemma ClientLearnsRight(k: ClientConfig, mac: Mac, c: Client, peer: Client, taken: Option<Message>)
    requires ClientControl(k.resumed, c) && c.state != ClientOk && (peer.state, peer.next) == ClientGoes(k.resumed, c)
    requires ClientKnows(k, c) && ClientTakes(k, mac, c, taken) && ClientLearns(k, c, peer, taken)
    requires peer.ch.received == c.ch.received + AsSeq(taken)
    ensures ClientKnows(k, peer)
  {
  }

  lemma ClientSaysItem(k: ClientConfig, mac: Mac, c: Client, peer: Client, taken: Option<Message>)
    requires !ClientPauses(c.state) && c.state != ClientOk
    requires ClientKnows(k, c) && ClientTakes(k, mac, c, taken) && ClientLearns(k, c, peer, taken)
    requires peer.ch.received == c.ch.received + AsSeq(taken)
    ensures ClientFollows(k, mac, peer).ItemOf(ClientStage(c.state), c.ch.transcript) ==
      ItemDone(ClientSide, ClientSays(k, mac, c), taken)
  {
  }

  lemma ClientPausesQuietly(k: ClientConfig, mac: Mac, c: Client, peer: Client, taken: Option<Message>)
    requires ClientPauses(c.state) && ClientTakes(k, mac, c, taken) && ClientLearns(k, c, peer, taken)
    ensures ClientSays(k, mac, c).None? && taken.None? && peer.certRequest == c.certRequest
  {
  }

  lemma ClientOneOnly(k: ClientConfig, mac: Mac, c: Client, taken: Option<Message>)
    requires ClientTakes(k, mac, c, taken)
    ensures ClientSays(k, mac, c).Some? ==> taken.None?
  {
  }

  /** What may come does not matter for the messages before it. */
  lemma ClientSameSoFar(k: ClientConfig, mac: Mac, c: Client, peer: Client, taken: Option<Message>)
    requires ClientControl(k.resumed, c) && c.state != CwFlush && c.state != ClientOk
    requires ClientTakes(k, mac, c, taken) && ClientLearns(k, c, peer, taken)
    requires peer.ch.received == c.ch.received + AsSeq(taken)
    ensures var n := ClientPosition(ClientFollows(k, mac, c), c);
            ClientFollows(k, mac, c).Prefix(n) == ClientFollows(k, mac, peer).Prefix(n)
  {
    hide Script.Prefix;
    var sc, sc' := ClientFollows(k, mac, c), ClientFollows(k, mac, peer);
    if ClientLooksIn(c.state) {
      SamePrefix(sc, sc', if c.state == CrCertStatus then 3 else if c.state == CrKeyExch then 4 else 5);
    } else {
      assert sc == sc';
    }
  }

  lemma ClientChannelOrdered(k: ClientConfig, mac: Mac, c: Client, peer: Client, taken: Option<Message>)
    requires ClientControl(k.resumed, c) && c.state != ClientOk && (peer.state, peer.next) == ClientGoes(k.resumed, c)
    requires ClientOrdered(k, mac, c) && ClientTakes(k, mac, c, taken) && ClientLearns(k, c, peer, taken)
    requires Does(c.ch, peer.ch, ClientSays(k, mac, c), taken)
    ensures var sc := ClientFollows(k, mac, peer); ChannelInv(sc, ClientSide, ClientPosition(sc, peer), peer.ch)
  {
    hide ClientControl, ClientSays, ClientTakes, ClientLearns, ClientKnows, ClientGoes,
      Script.Prefix, Hashed, OfSide, PositionOf, StagesOf, Script.ItemOf;
    var sc, sc', says := ClientFollows(k, mac, c), ClientFollows(k, mac, peer), ClientSays(k, mac, c);
    var n := ClientPosition(sc, c);
    ClientPositions(k, mac, c, peer);
    if ClientPauses(c.state) {
      ClientPausesQuietly(k, mac, c, peer, taken);
      assert c.ch.received + [] == c.ch.received;
      NothingDoneYet(sc, ClientSide, n, c.ch, peer.ch);
    } else {
      ClientOneOnly(k, mac, c, taken);
      ClientSaysItem(k, mac, c, peer, taken);
      ClientSameSoFar(k, mac, c, peer, taken);
      StageDone(sc', ClientSide, ClientStage(c.state), c.ch, peer.ch, says, taken);
    }
  }

  lemma ClientTurnOrdered(k: ClientConfig, mac: Mac, c: Client, inbox: seq<Message>)
    requires ClientChecked(k, mac, c) && ClientOrdered(k, mac, c) && ClientTurn(k, mac, c, inbox, false).Moved?
    ensures ClientOrdered(k, mac, ClientTurn(k, mac, c, inbox, false).peer)
  {
    hide ClientTurn, ClientControl, ClientHolds, Fits, ClientSays, ClientTakes, ClientLearns, ClientKnows,
      ClientPosition, ClientStage, ClientGoes, ClientPauses, ChannelInv, ClientFollows, Script.Stages;
    var peer, says := ClientTurn(k, mac, c, inbox, false).peer, ClientSays(k, mac, c);
    var taken := ClientDoes(k, mac, c, inbox);
    ClientWent(k, mac, c, inbox);
    ClientLearnsRight(k, mac, c, peer, taken);
    ClientPositions(k, mac, c, peer);
    ClientChannelOrdered(k, mac, c, peer, taken);
  }

  lemma {:induction false} ClientAfterOrdered(k: ClientConfig, mac: Mac, offers: seq<Offer>)
    ensures ClientOrdered(k, mac, ClientAfter(k, mac, offers))
  {
    hide ClientTurn, ClientOrdered, ClientChecked;
    if offers == [] {
      ClientStartsOrdered(k, mac);
    } else {
      var c, offer := ClientAfter(k, mac, offers[..|offers| - 1]), offers[|offers| - 1];
      ClientAfterOrdered(k, mac, offers[..|offers| - 1]);
      ClientBlockedTurns(k, mac, c, offer);
      if ClientTurn(k, mac, c, offer.inbox, offer.blocked).Moved? {
        ClientTurnOrdered(k, mac, c, offer.inbox);
      }
    }
  }

  lemma ClientStartsOrdered(k: ClientConfig, mac: Mac)
    ensures ClientOrdered(k, mac, Client(CwClientHello, CwClientHello, false, Channel(None, [], [], [], [])))
  {
  }

  lemma ClientBlockedTurns(k: ClientConfig, mac: Mac, c: Client, offer: Offer)
    ensures var t := ClientTurn(k, mac, c, offer.inbox, offer.blocked);
            t.Moved? ==> t == ClientTurn(k, mac, c, offer.inbox, false)
  {
  }

  /** Whatever has been offered to it, a client that is done has received and sent exactly the
      messages of one handshake. The server is free only to leave out a CertificateStatus that
      was expected, a ServerKeyExchange that the cipher does not require, and a
      CertificateRequest; the client's certificate answers the last if and only if it came. */
  lemma ClientEndsInOrder(k: ClientConfig, mac: Mac, offers: seq<Offer>)
    ensures var c := ClientAfter(k, mac, offers);
            c.state == ClientOk ==>
              var o := OutcomeOf(ClientFollows(k, mac, c));
              && c.ch.sent == o.client && c.ch.received == o.server && c.ch.transcript == o.transcript
              && (CertificateStatus in c.ch.received ==> k.statusExpected && !k.resumed)
              && (c.certRequest ==> k.certAuth && !k.resumed)
  {
    hide ClientTurn, ClientAfter, OutcomeOf, Script.Prefix, Hashed, OfSide;
    var c := ClientAfter(k, mac, offers);
    var sc := ClientFollows(k, mac, c);
    ClientAfterOrdered(k, mac, offers);
    if c.state == ClientOk {
      ScriptOutcome(sc);
    }
  }
}

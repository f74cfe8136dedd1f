/** Whatever the other side sends, a side that ends has run one handshake in its whole order:
    every message that had to come came, once and in its place, and none besides. */
module HandshakeOrder {
  import opened Bytes
  import opened HandshakeScript
  import opened HandshakeMachines
  import opened HandshakeMoves
  import opened HandshakeSteps
  import opened HandshakeServerSteps
  import opened HandshakeLoops
  import opened HandshakeChecks

  // ------------------------------------------------------------ the order, written out

  /** All that one handshake comes to. */
  datatype Outcome = Outcome(client: seq<Message>, server: seq<Message>, transcript: seq<Message>)

  function If(b: bool, m: Message): seq<Message> {
    if b then [m] else []
  }

  /** What the server says after its hello. */
  function Offered(s: ServerConfig): seq<Message> {
    If(s.certAuth, Certificate(false)) + If(s.sendsStatus, CertificateStatus)
      + If(s.keyExchangeRequired || s.pskHint, ServerKeyExchange) + If(s.certRequest, CertificateRequest)
      + [ServerHelloDone]
  }

  /** How the client answers it: with a certificate only if one was requested, and with a
      proof of its key only if that certificate was not empty. */
  function Answered(requested: bool, hasCertificate: bool): seq<Message> {
    If(requested, Certificate(!hasCertificate)) + [ClientKeyExchange]
      + If(requested && hasCertificate, CertificateVerify)
  }

  /** A full handshake. */
  function FullOutcome(sc: Script): Outcome {
    var offered, answered := Offered(sc.s), Answered(sc.s.certRequest, sc.c.hasCertificate);
    var extensions, ticket := Extensions(sc.c.npn, sc.c.channelId), If(sc.c.ticket, NewSessionTicket);
    var before := [ClientHello, ServerHello] + offered + answered + extensions;
    var clientFinished := Finished(sc.mac(ClientSide, before));
    var serverFinished := Finished(sc.mac(ServerSide, before + [clientFinished] + ticket));
    Outcome([ClientHello] + answered + [ChangeCipherSpec] + extensions + [clientFinished],
            [ServerHello] + offered + ticket + [ChangeCipherSpec, serverFinished],
            before + [clientFinished] + ticket + [serverFinished])
  }

  /** An abbreviated handshake, in which the server finishes first. */
  function AbbreviatedOutcome(sc: Script): Outcome {
    var extensions, ticket := Extensions(sc.c.npn, sc.c.channelId), If(sc.c.ticket, NewSessionTicket);
    var before := [ClientHello, ServerHello] + ticket;
    var serverFinished := Finished(sc.mac(ServerSide, before));
    var clientFinished := Finished(sc.mac(ClientSide, before + [serverFinished] + extensions));
    Outcome([ClientHello, ChangeCipherSpec] + extensions + [clientFinished],
            [ServerHello] + ticket + [ChangeCipherSpec, serverFinished],
            before + [serverFinished] + extensions + [clientFinished])
  }

  // The script comes to that.

  ghost predicate At(sc: Script, n: nat, o: Outcome)
    requires n <= |sc.Stages()|
  {
    && OfSide(sc.Prefix(n), ClientSide) == o.client && OfSide(sc.Prefix(n), ServerSide) == o.server
    && Hashed(sc.Prefix(n)) == o.transcript
  }

  /** The outcome after one side has sent these messages. */
  function Plus(o: Outcome, side: Side, m: seq<Message>): Outcome {
    Outcome(if side == ClientSide then o.client + m else o.client, if side == ServerSide then o.server + m
      else o.server,
            o.transcript + m)
  }

  /** The outcome after one side has changed its cipher. */
  function Changes(o: Outcome, side: Side): Outcome {
    Plus(o, side, [ChangeCipherSpec]).(transcript := o.transcript)
  }

  lemma PlusPlus(o: Outcome, side: Side, a: seq<Message>, b: seq<Message>)
    ensures Plus(Plus(o, side, a), side, b) == Plus(o, side, a + b)
  {
  }

  /** The message of a stage, if there is one. */
  lemma AtNext(sc: Script, stage: Stage, o: Outcome, side: Side, b: bool, m: Message)
    requires sc.Position(stage) + 1 < |sc.Stages()| && At(sc, sc.Position(stage), o) && m != ChangeCipherSpec
    requires sc.ItemOf(stage, o.transcript) == if b then Some((side, m)) else None
    ensures At(sc, sc.Position(stage) + 1, Plus(o, side, If(b, m)))
  {
    hide Script.Prefix, Hashed, OfSide, Script.Position, Script.ItemOf;
    sc.PositionInverse(stage);
    sc.HashedNext(sc.Position(stage));
  }

  lemma AtChange(sc: Script, stage: Stage, o: Outcome, side: Side)
    requires sc.Position(stage) + 1 < |sc.Stages()| && At(sc, sc.Position(stage), o)
    requires sc.ItemOf(stage, o.transcript) == Some((side, ChangeCipherSpec))
    ensures At(sc, sc.Position(stage) + 1, Changes(o, side))
  {
    hide Script.Prefix, Hashed, OfSide, Script.Position, Script.ItemOf;
    sc.PositionInverse(stage);
    sc.HashedNext(sc.Position(stage));
  }

  lemma AtStart(sc: Script)
    ensures At(sc, 0, Outcome([], [], []))
  {
  }

  lemma PlusFirst(a: Message, b: Message)
    ensures Plus(Outcome([], [], []), ClientSide, [a]) == Outcome([a], [], [a])
    ensures Plus(Outcome([a], [], [a]), ServerSide, [b]) == Outcome([a], [b], [a, b])
  {
  }

  lemma IfTrue(m: Message)
    ensures If(true, m) == [m]
  {
  }

  lemma AtHellos(sc: Script)
    ensures At(sc, 2, Outcome([ClientHello], [ServerHello], [ClientHello, ServerHello]))
  {
    hide Script.Prefix, Hashed, OfSide, At, Plus, If;
    AtStart(sc);
    IfTrue(ClientHello);
    IfTrue(ServerHello);
    PlusFirst(ClientHello, ServerHello);
    AtNext(sc, Hello, Outcome([], [], []), ClientSide, true, ClientHello);
    AtNext(sc, HelloAnswer, Outcome([ClientHello], [], [ClientHello]), ServerSide, true, ServerHello);
  }

  /** One more message of the same side. */
  lemma AtMore(sc: Script, stage: Stage, o: Outcome, side: Side, before: seq<Message>, b: bool, m: Message)
    requires sc.Position(stage) + 1 < |sc.Stages()| && At(sc, sc.Position(stage), Plus(o, side, before))
    requires m != ChangeCipherSpec
    requires sc.ItemOf(stage, Plus(o, side, before).transcript) == if b then Some((side, m)) else None
    ensures At(sc, sc.Position(stage) + 1, Plus(o, side, before + If(b, m)))
  {
    hide At, Script.Position, Script.ItemOf, Plus, If;
    AtNext(sc, stage, Plus(o, side, before), side, b, m);
    PlusPlus(o, side, before, If(b, m));
  }

  lemma AtOffered(sc: Script, o: Outcome)
    requires !sc.c.resumed && At(sc, 2, o)
    ensures At(sc, 7, Plus(o, ServerSide, Offered(sc.s)))
  {
    hide At, Plus, If;
    var s, a := sc.s, If(sc.s.certAuth, Certificate(false));
    AtNext(sc, ServerCert, o, ServerSide, s.certAuth, Certificate(false));
    AtMore(sc, Status, o, ServerSide, a, s.sendsStatus, CertificateStatus);
    a := a + If(s.sendsStatus, CertificateStatus);
    AtMore(sc, KeyExchange, o, ServerSide, a, s.keyExchangeRequired || s.pskHint, ServerKeyExchange);
    a := a + If(s.keyExchangeRequired || s.pskHint, ServerKeyExchange);
    AtMore(sc, CertRequest, o, ServerSide, a, s.certRequest, CertificateRequest);
    a := a + If(s.certRequest, CertificateRequest);
    AtMore(sc, HelloDone, o, ServerSide, a, true, ServerHelloDone);
    IfTrue(ServerHelloDone);
  }

  lemma AtAnswered(sc: Script, o: Outcome)
    requires !sc.c.resumed && At(sc, 7, o)
    ensures At(sc, 10, Plus(o, ClientSide, Answered(sc.s.certRequest, sc.c.hasCertificate)))
  {
    hide At, Plus, If;
    var a, proves := If(sc.s.certRequest, Certificate(!sc.c.hasCertificate)), sc.s.certRequest && sc.c.hasCertificate;
    AtNext(sc, ClientCert, o, ClientSide, sc.s.certRequest, Certificate(!sc.c.hasCertificate));
    AtMore(sc, ClientKey, o, ClientSide, a, true, ClientKeyExchange);
    IfTrue(ClientKeyExchange);
    AtMore(sc, Verify, o, ClientSide, a + [ClientKeyExchange], proves, CertificateVerify);
  }

  /** The client's extensions, in either handshake. */
  lemma AtExtensions(sc: Script, o: Outcome)
    requires At(sc, sc.Position(NextProto), o)
    ensures At(sc, sc.Position(ClientFin), Plus(o, ClientSide, Extensions(sc.c.npn, sc.c.channelId)))
  {
    hide At, Plus;
    AtNext(sc, NextProto, o, ClientSide, sc.c.npn, NextProtocol);
    AtMore(sc, ChanId, o, ClientSide, If(sc.c.npn, NextProtocol), sc.c.channelId, ChannelId);
  }

  /** The change of cipher, then what comes between, then the Finished. */
  lemma AtClientEnding(sc: Script, o: Outcome)
    requires At(sc, sc.Position(ClientCcs), o)
    ensures var o' := Plus(Changes(o, ClientSide), ClientSide, Extensions(sc.c.npn, sc.c.channelId));
            At(sc, sc.Position(ClientFin) + 1, Plus(o', ClientSide, [Finished(sc.mac(ClientSide, o'.transcript))]))
  {
    hide At, Plus, Extensions, Changes;
    var o' := Plus(Changes(o, ClientSide), ClientSide, Extensions(sc.c.npn, sc.c.channelId));
    var fin := Finished(sc.mac(ClientSide, o'.transcript));
    AtChange(sc, ClientCcs, o, ClientSide);
    AtExtensions(sc, Changes(o, ClientSide));
    AtNext(sc, ClientFin, o', ClientSide, true, fin);
    IfTrue(fin);
  }

  /** The ticket, the change of cipher and the Finished of the server. */
  lemma AtServerEnding(sc: Script, o: Outcome)
    requires At(sc, sc.Position(Ticket), o)
    ensures var o' := Changes(Plus(o, ServerSide, If(sc.c.ticket, NewSessionTicket)), ServerSide);
            At(sc, sc.Position(ServerFin) + 1, Plus(o', ServerSide, [Finished(sc.mac(ServerSide, o'.transcript))]))
  {
    hide At, Plus, Changes;
    var o' := Changes(Plus(o, ServerSide, If(sc.c.ticket, NewSessionTicket)), ServerSide);
    var fin := Finished(sc.mac(ServerSide, o'.transcript));
    AtNext(sc, Ticket, o, ServerSide, sc.c.ticket, NewSessionTicket);
    AtChange(sc, ServerCcs, Plus(o, ServerSide, If(sc.c.ticket, NewSessionTicket)), ServerSide);
    AtNext(sc, ServerFin, o', ServerSide, true, fin);
    IfTrue(fin);
  }

  function OutcomeOf(sc: Script): Outcome {
    if sc.c.resumed then AbbreviatedOutcome(sc) else FullOutcome(sc)
  }

  lemma FullScript(sc: Script)
    requires !sc.c.resumed
    ensures At(sc, 17, FullOutcome(sc))
  {
    hide At, Offered, Answered, Extensions, If;
    var o := Outcome([ClientHello], [ServerHello], [ClientHello, ServerHello]);
    AtHellos(sc);
    AtOffered(sc, o);
    o := Plus(o, ServerSide, Offered(sc.s));
    AtAnswered(sc, o);
    o := Plus(o, ClientSide, Answered(sc.s.certRequest, sc.c.hasCertificate));
    AtClientEnding(sc, o);
    o := Plus(Changes(o, ClientSide), ClientSide, Extensions(sc.c.npn, sc.c.channelId));
    o := Plus(o, ClientSide, [Finished(sc.mac(ClientSide, o.transcript))]);
    AtServerEnding(sc, o);
    o := Changes(Plus(o, ServerSide, If(sc.c.ticket, NewSessionTicket)), ServerSide);
    o := Plus(o, ServerSide, [Finished(sc.mac(ServerSide, o.transcript))]);
    FullIs(sc, o);
  }

  lemma FullIs(sc: Script, o: Outcome)
    requires var o0 := Outcome([ClientHello], [ServerHello], [ClientHello, ServerHello]);
             var o1 := Plus(Plus(o0, ServerSide, Offered(sc.s)), ClientSide,
                            Answered(sc.s.certRequest, sc.c.hasCertificate));
             var o2 := Plus(Changes(o1, ClientSide), ClientSide, Extensions(sc.c.npn, sc.c.channelId));
             var o3 := Plus(o2, ClientSide, [Finished(sc.mac(ClientSide, o2.transcript))]);
             var o4 := Changes(Plus(o3, ServerSide, If(sc.c.ticket, NewSessionTicket)), ServerSide);
             o == Plus(o4, ServerSide, [Finished(sc.mac(ServerSide, o4.transcript))])
    ensures o == FullOutcome(sc)
  {
    hide Offered, Answered, Extensions, If;
    var f := FullOutcome(sc);
    assert o.client == f.client;
    assert o.server == f.server;
    assert o.transcript == f.transcript;
  }

  lemma AbbreviatedScript(sc: Script)
    requires sc.c.resumed
    ensures At(sc, 9, AbbreviatedOutcome(sc))
  {
    hide At, Extensions, If;
    var o := Outcome([ClientHello], [ServerHello], [ClientHello, ServerHello]);
    AtHellos(sc);
    AtServerEnding(sc, o);
    o := Changes(Plus(o, ServerSide, If(sc.c.ticket, NewSessionTicket)), ServerSide);
    o := Plus(o, ServerSide, [Finished(sc.mac(ServerSide, o.transcript))]);
    AtClientEnding(sc, o);
    o := Plus(Changes(o, ClientSide), ClientSide, Extensions(sc.c.npn, sc.c.channelId));
    o := Plus(o, ClientSide, [Finished(sc.mac(ClientSide, o.transcript))]);
    AbbreviatedIs(sc, o);
  }

  lemma AbbreviatedIs(sc: Script, o: Outcome)
    requires var o0 := Outcome([ClientHello], [ServerHello], [ClientHello, ServerHello]);
             var o1 := Changes(Plus(o0, ServerSide, If(sc.c.ticket, NewSessionTicket)), ServerSide);
             var o2 := Plus(o1, ServerSide, [Finished(sc.mac(ServerSide, o1.transcript))]);
             var o3 := Plus(Changes(o2, ClientSide), ClientSide, Extensions(sc.c.npn, sc.c.channelId));
             o == Plus(o3, ClientSide, [Finished(sc.mac(ClientSide, o3.transcript))])
    ensures o == AbbreviatedOutcome(sc)
  {
    hide Extensions, If;
    var a := AbbreviatedOutcome(sc);
    assert o.client == a.client;
    assert o.server == a.server;
    assert o.transcript == a.transcript;
  }

  /** All messages of a script, of either kind. */
  lemma ScriptOutcome(sc: Script)
    ensures At(sc, |sc.Stages()| - 1, OutcomeOf(sc))
  {
    hide At, FullOutcome, AbbreviatedOutcome;
    if sc.c.resumed {
      AbbreviatedScript(sc);
    } else {
      FullScript(sc);
    }
  }
}

/** What a side has checked when it ends, whatever the other side sends. */
module HandshakeChecks {
  import opened Bytes
  import opened HandshakeScript
  import opened HandshakeMachines
  import opened HandshakeMoves
  import opened HandshakeLoops

  /** The messages are some that are no ChangeCipherSpec, one that is, and then `rest`. */
  ghost predicate Changed(messages: seq<Message>, rest: seq<Message>) {
    exists pre :: ChangeCipherSpec !in pre && messages == pre + [ChangeCipherSpec] + rest
  }

  /** After the ChangeCipherSpec came `between` and a Finished that is the keyed hash of the
      transcript before it; the transcript still begins with that and this Finished. */
  ghost predicate Verified(
    mac: Mac, side: Side, messages: seq<Message>, between: seq<Message>, transcript: seq<Message>)
  {
    exists t :: Changed(messages, between + [Finished(mac(side, t))]) && t + [Finished(mac(side, t))] <= transcript
  }

  /** How far one direction of a handshake has come. */
  datatype Progress = Unchanged | Under(between: seq<Message>) | Over

  ghost predicate Fits(
    p: Progress, mac: Mac, side: Side, messages: seq<Message>, all: seq<Message>, transcript: seq<Message>)
  {
    match p
    case Unchanged => ChangeCipherSpec !in messages
    case Under(between) => Changed(messages, between)
    case Over => Verified(mac, side, messages, all, transcript)
  }

  /** How far it has come with one more message, or none. */
  function Next(p: Progress, o: Option<Message>): Progress {
    match p
    case Over => Over
    case Under(between) => if o.None? then p else if o.value.Finished? then Over else Under(between + [o.value])
    case Unchanged => if o == Some(ChangeCipherSpec) then Under([]) else Unchanged
  }

  /** A Finished is only added to complete the direction, with the right hash; nothing
      comes after it. */
  ghost predicate Admits(p: Progress, mac: Mac, side: Side, all: seq<Message>, transcript: seq<Message>,
        o: Option<Message>)
  {
    match p
    case Over => o.None?
    case Under(between) => o.Some? && o.value.Finished? ==> between == all && o.value == Finished(mac(side, transcript))
    case Unchanged => true
  }

  lemma FitsNext(p: Progress, mac: Mac, side: Side, messages: seq<Message>, all: seq<Message>, transcript: seq<Message>,
        o: Option<Message>, transcript': seq<Message>)
    requires Fits(p, mac, side, messages, all, transcript) && Admits(p, mac, side, all, transcript, o)
    requires transcript <= transcript'
    requires p.Under? && o.Some? && o.value.Finished? ==> transcript' == transcript + [o.value]
    ensures Fits(Next(p, o), mac, side, messages + AsSeq(o), all, transcript')
  {
    if o.None? {
      assert messages + [] == messages;
      if p.Over? {
        var t :| Changed(messages, all + [Finished(mac(side, t))]) && t + [Finished(mac(side, t))] <= transcript;
        assert t + [Finished(mac(side, t))] <= transcript';
      }
    } else {
      ChangedNext(p, messages, o.value);
    }
  }

  lemma ChangedNext(p: Progress, messages: seq<Message>, m: Message)
    ensures p.Unchanged? && ChangeCipherSpec !in messages && m == ChangeCipherSpec ==> Changed(messages + [m], [])
    ensures p.Under? && Changed(messages, p.between) ==> Changed(messages + [m], p.between + [m])
  {
    match p
    case Unchanged => assert messages + [m] == messages + [m] + [];
    case Under(between) =>
      if Changed(messages, between) {
        var pre :| ChangeCipherSpec !in pre && messages == pre + [ChangeCipherSpec] + between;
        assert messages + [m] == pre + [ChangeCipherSpec] + (between + [m]);
      }
    case Over =>
  }

  /** What the client sends between its ChangeCipherSpec and its Finished. */
  function Extensions(npn: bool, channelId: bool): seq<Message> {
    (if npn then [NextProtocol] else []) + (if channelId then [ChannelId] else [])
  }

  /** One turn of either machine as far as its messages go: it may add one or take one. */
  ghost predicate Does(ch: Channel, ch': Channel, says: Option<Message>, taken: Option<Message>) {
    && ch'.sent == ch.sent + AsSeq(says) && ch'.received == ch.received + AsSeq(taken)
    && ch'.transcript == Grown(ch, if taken.Some? then taken else says)
  }

  lemma NothingDone(ch: Channel, held: Option<Message>, pending: seq<Message>)
    ensures Does(ch, ch.(held := held, pending := pending), None, None)
  {
    assert ch.sent + [] == ch.sent && ch.received + [] == ch.received;
  }

  lemma MessageSaid(ch: Channel, m: Message)
    ensures Does(ch, ch.Send(m), Some(m), None)
  {
    assert ch.received + [] == ch.received;
  }

  lemma MessageTaken(ch: Channel, m: Message)
    ensures Does(ch, ch.Accept(m), None, Some(m))
  {
    assert ch.sent + [] == ch.sent;
  }

  function Grown(ch: Channel, o: Option<Message>): seq<Message> {
    if o.Some? then ch.Hash(o.value) else ch.transcript
  }

  // ---------------------------------------------------------------- the client

  function ClientSent(k: ClientConfig, c: Client): Progress {
    match if c.state == CwFlush then c.next else c.state
    case CwNextProto => Under([])
    case CwChannelId => Under(Extensions(k.npn, false))
    case CwFinished => Under(Extensions(k.npn, k.channelId))
    case CrSessionTicket | CrChange | CrFinished => if k.resumed then Unchanged else Over
    case FinishClientHandshake | ClientOk => Over
    case _ => Unchanged
  }

  function ClientReceived(k: ClientConfig, c: Client): Progress {
    match if c.state == CwFlush then c.next else c.state
    case CrFinished => Under([])
    case CwChange | CwNextProto | CwChannelId | CwFinished => if k.resumed then Over else Unchanged
    case FinishClientHandshake | ClientOk => Over
    case _ => Unchanged
  }

  /** A message is held only while the client looks for optional ones. */
  ghost predicate ClientHolds(c: Client) {
    c.ch.held.Some? ==>
      c.ch.held != Some(ChangeCipherSpec)
      && (c.state.VerifyServerCert? || c.state.CrKeyExch? || c.state.CrCertReq? || c.state.CrServerDone?)
  }

  ghost predicate ClientChecked(k: ClientConfig, mac: Mac, c: Client) {
    && ClientControl(k.resumed, c) && ClientHolds(c)
    && Fits(ClientSent(k, c), mac, ClientSide, c.ch.sent, Extensions(k.npn, k.channelId), c.ch.transcript)
    && Fits(ClientReceived(k, c), mac, ServerSide, c.ch.received, [], c.ch.transcript)
  }

  predicate ClientLooksIn(state: ClientState) {
    state.CrCertStatus? || state.CrKeyExch? || state.CrCertReq?
  }

  /** The message the client takes in a state; only while it looks for an optional one, it
      may be another. */
  ghost predicate ClientTakes(k: ClientConfig, mac: Mac, c: Client, taken: Option<Message>) {
    if ClientLooksIn(c.state) then taken != Some(ChangeCipherSpec) else taken == ClientWants(k, mac, c)
  }

  lemma GotIsMessage(ch: Channel, inbox: seq<Message>)
    requires ch.held != Some(ChangeCipherSpec)
    ensures GetMessage(ch, inbox).Got? ==> GetMessage(ch, inbox).m != ChangeCipherSpec
  {
  }

  lemma AddedDoes(ch: Channel, o: Option<Message>)
    ensures Does(ch, Added(ch, o), o, None)
  {
    hide Does, Channel.Send;
    NothingDone(ch, ch.held, ch.pending);
    if o.Some? {
      MessageSaid(ch, o.value);
    }
  }

  lemma TakeDoes(ch: Channel, inbox: seq<Message>, m: Message)
    ensures Take(ch, inbox, m).Right? ==> Does(ch, Take(ch, inbox, m).ch, None, Some(m))
  {
    hide Does, Channel.Accept;
    MessageTaken(ch, m);
  }

  /** What the client knows after a turn: it may take the optional message it looks for, and
      must take a ServerKeyExchange if the cipher requires one; a CertificateRequest it has
      taken is not forgotten. */
  ghost predicate ClientLearns(k: ClientConfig, c: Client, peer: Client, taken: Option<Message>) {
    match c.state
    case CrCertStatus =>
      (taken.Some? ==> k.statusExpected && taken.value == CertificateStatus) && peer.certRequest == c.certRequest
    case CrKeyExch =>
      && (if taken.Some? then taken.value == ServerKeyExchange else !k.keyExchangeRequired)
      && peer.certRequest == c.certRequest
    case CrCertReq =>
      if taken.Some? then k.certAuth && taken.value == CertificateRequest && peer.certRequest
      else peer.certRequest == c.certRequest
    case _ => peer.certRequest == c.certRequest
  }

  lemma ClientLooks(k: ClientConfig, mac: Mac, c: Client, inbox: seq<Message>) returns (taken: Option<Message>)
    requires ClientLooksIn(c.state) && ClientHolds(c) && ClientTurn(k, mac, c, inbox, false).Moved?
    ensures Does(c.ch, ClientTurn(k, mac, c, inbox, false).peer.ch, None, taken) && taken != Some(ChangeCipherSpec)
    ensures ClientLearns(k, c, ClientTurn(k, mac, c, inbox, false).peer, taken)
  {
    hide GetMessage, Channel.Accept, Does;
    GotIsMessage(c.ch, inbox);
    var got, ch, ch' := GetMessage(c.ch, inbox), c.ch, ClientTurn(k, mac, c, inbox, false).peer.ch;
    NothingDone(ch, ch'.held, ch'.pending);
    if got.Got? {
      MessageTaken(ch, got.m);
    }
    var (looks, wanted) :=
      match c.state
      case CrCertStatus => (k.statusExpected, CertificateStatus)
      case CrKeyExch => (true, ServerKeyExchange)
      case _ => (k.certAuth, CertificateRequest);
    taken := if looks && got.Got? && got.m == wanted then Some(wanted) else None;
  }

  lemma ClientIdles(k: ClientConfig, mac: Mac, c: Client, inbox: seq<Message>)
    requires !ClientLooksIn(c.state) && !ClientSpeaksIn(c.state) && !ClientExpectsIn(c.state)
    requires ClientTurn(k, mac, c, inbox, false).Moved?
    ensures Does(c.ch, ClientTurn(k, mac, c, inbox, false).peer.ch, None, None)
    ensures ClientLearns(k, c, ClientTurn(k, mac, c, inbox, false).peer, None)
  {
    hide Does;
    var ch' := ClientTurn(k, mac, c, inbox, false).peer.ch;
    NothingDone(c.ch, ch'.held, ch'.pending);
  }

  /** What a turn that moves sends and takes, whatever there is to be read. */
  lemma ClientDoes(k: ClientConfig, mac: Mac, c: Client, inbox: seq<Message>) returns (taken: Option<Message>)
    requires ClientHolds(c) && ClientTurn(k, mac, c, inbox, false).Moved?
    ensures Does(c.ch, ClientTurn(k, mac, c, inbox, false).peer.ch, ClientSays(k, mac, c), taken)
    ensures ClientTakes(k, mac, c, taken)
    ensures ClientLearns(k, c, ClientTurn(k, mac, c, inbox, false).peer, taken)
  {
    hide ClientTurn, Does, Added, Take;
    taken := ClientWants(k, mac, c);
    if ClientSpeaksIn(c.state) {
      ClientSpeaks(k, mac, c, inbox);
      AddedDoes(c.ch, ClientSays(k, mac, c));
    } else if ClientExpectsIn(c.state) {
      ClientExpects(k, mac, c, inbox);
      NothingDone(c.ch, c.ch.held, c.ch.pending);
      if taken.Some? {
        TakeDoes(c.ch, inbox, taken.value);
      }
    } else if ClientLooksIn(c.state) {
      taken := ClientLooks(k, mac, c, inbox);
    } else {
      ClientIdles(k, mac, c, inbox);
    }
  }

  lemma HeldAfter(ch: Channel, o: Option<Message>, inbox: seq<Message>, m: Message)
    ensures Added(ch, o).held == ch.held && (Take(ch, inbox, m).Right? ==> Take(ch, inbox, m).ch.held.None?)
  {
  }

  lemma ClientOthersHold(k: ClientConfig, mac: Mac, c: Client, inbox: seq<Message>)
    requires ClientHolds(c) && !ClientSpeaksIn(c.state) && !ClientExpectsIn(c.state) && ClientControl(k.resumed, c)
    requires ClientTurn(k, mac, c, inbox, false).Moved?
    ensures ClientHolds(ClientTurn(k, mac, c, inbox, false).peer)
  {
    hide GetMessage, Channel.Hash;
    GotIsMessage(c.ch, inbox);
  }

  lemma ClientStillHolds(k: ClientConfig, mac: Mac, c: Client, inbox: seq<Message>)
    requires ClientHolds(c) && ClientControl(k.resumed, c) && ClientTurn(k, mac, c, inbox, false).Moved?
    ensures ClientHolds(ClientTurn(k, mac, c, inbox, false).peer)
  {
    hide ClientTurn, Added, Take, ClientGoes;
    if ClientSpeaksIn(c.state) {
      ClientSpeaks(k, mac, c, inbox);
      HeldAfter(c.ch, ClientSays(k, mac, c), inbox, ChangeCipherSpec);
    } else if ClientExpectsIn(c.state) {
      ClientExpects(k, mac, c, inbox);
      if ClientWants(k, mac, c).Some? {
        HeldAfter(c.ch, None, inbox, ClientWants(k, mac, c).value);
      }
    } else {
      ClientOthersHold(k, mac, c, inbox);
    }
  }

  lemma ClientProgress(k: ClientConfig, mac: Mac, c: Client, peer: Client, taken: Option<Message>)
    requires ClientControl(k.resumed, c) && c.state != ClientOk && ClientTakes(k, mac, c, taken)
    requires (peer.state, peer.next) == ClientGoes(k.resumed, c)
    ensures ClientSays(k, mac, c).None? || taken.None?
    ensures var p, all, says := ClientSent(k, c), Extensions(k.npn, k.channelId), ClientSays(k, mac, c);
            && ClientSent(k, peer) == Next(p, says) && Admits(p, mac, ClientSide, all, c.ch.transcript, says)
    ensures var p := ClientReceived(k, c);
            && ClientReceived(k, peer) == Next(p, taken) && Admits(p, mac, ServerSide, [], c.ch.transcript, taken)
  {
  }

  lemma ClientTurnKeeps(k: ClientConfig, mac: Mac, c: Client, inbox: seq<Message>)
    requires ClientChecked(k, mac, c) && ClientTurn(k, mac, c, inbox, false).Moved?
    ensures ClientChecked(k, mac, ClientTurn(k, mac, c, inbox, false).peer)
  {
    hide ClientTurn, ClientControl, ClientHolds, Fits, Next, Admits, ClientSays, ClientSent, ClientReceived, Extensions,
      ClientRank;
    var peer, says := ClientTurn(k, mac, c, inbox, false).peer, ClientSays(k, mac, c);
    var taken := ClientDoes(k, mac, c, inbox);
    ClientWent(k, mac, c, inbox);
    ClientRankDecreases(k, mac, c, inbox);
    ClientStillHolds(k, mac, c, inbox);
    ClientProgress(k, mac, c, peer, taken);
    FitsNext(ClientSent(k, c), mac, ClientSide, c.ch.sent, Extensions(k.npn, k.channelId), c.ch.transcript,
             says, peer.ch.transcript);
    FitsNext(ClientReceived(k, c), mac, ServerSide, c.ch.received, [], c.ch.transcript, taken, peer.ch.transcript);
  }

  /** What a turn of a side is offered: anything at all to be read, or a reason to be retried. */
  datatype Offer = Offer(inbox: seq<Message>, blocked: bool)

  /** The client after any number of turns. A turn that fails or must be retried changes nothing. */
  ghost function ClientAfter(k: ClientConfig, mac: Mac, offers: seq<Offer>): (c: Client)
    ensures ClientChecked(k, mac, c)
  {
    if offers == [] then Client(CwClientHello, CwClientHello, false, Channel(None, [], [], [], []))
    else
      var c, offer := ClientAfter(k, mac, offers[..|offers| - 1]), offers[|offers| - 1];
      match ClientTurn(k, mac, c, offer.inbox, offer.blocked)
      case Moved(peer, _, _) => ClientTurnKeeps(k, mac, c, offer.inbox); peer
      case _ => c
  }

  /** Whatever has been offered to it in whatever order, a client that is done has received
      one ChangeCipherSpec and after it nothing but a Finished that it has compared with the
      keyed hash of its own transcript; and it has sent one and later, last, its own. */
  lemma ClientEndsChecked(k: ClientConfig, mac: Mac, offers: seq<Offer>)
    ensures var c := ClientAfter(k, mac, offers);
            c.state == ClientOk ==>
              && Verified(mac, ServerSide, c.ch.received, [], c.ch.transcript)
              && Verified(mac, ClientSide, c.ch.sent, Extensions(k.npn, k.channelId), c.ch.transcript)
  {
    hide ClientTurn, ClientControl, ClientHolds, Verified, ClientAfter;
    assert ClientChecked(k, mac, ClientAfter(k, mac, offers));
  }

  /** The same of one call of the client's loop. */
  lemma {:induction false} ClientLoopKeeps(k: ClientConfig, mac: Mac, c: Client, inbox: seq<Message>,
        blocks: nat -> bool, n: nat)
    requires ClientChecked(k, mac, c)
    ensures ClientChecked(k, mac, ClientLoop(k, mac, c, inbox, blocks, n).peer)
    decreases ClientRank(k.resumed, c)
  {
    hide ClientTurn, ClientHolds, ClientRank, Fits, ClientSent, ClientReceived;
    if c.state == ClientOk {
      ClientLoopOver(k, mac, c, inbox, blocks, n);
    } else {
      ClientLoopTurn(k, mac, c, inbox, blocks, n);
      var t := ClientTurn(k, mac, c, inbox, false);
      if !blocks(n) && t.Moved? {
        ClientTurnKeeps(k, mac, c, inbox);
        ClientLoopKeeps(k, mac, t.peer, t.inbox, blocks, n + 1);
      }
    }
  }

  // ---------------------------------------------------------------- the server

  function ServerSent(k: ServerConfig, v: Server): Progress {
    match if v.state == SwFlush then v.next else v.state
    case SwFinished => Under([])
    case SrChange | SrNextProto | SrChannelId | SrFinished => if k.resumed then Over else Unchanged
    case ServerOk => Over
    case _ => Unchanged
  }

  function ServerReceived(k: ServerConfig, v: Server): Progress {
    match if v.state == SwFlush then v.next else v.state
    case SrNextProto => Under([])
    case SrChannelId => Under(Extensions(k.npn, false))
    case SrFinished => Under(Extensions(k.npn, k.channelId))
    case SwSessionTicket | SwChange | SwFinished => if k.resumed then Unchanged else Over
    case ServerOk => Over
    case _ => Unchanged
  }

  /** A message is held only while the application decides about the ClientHello. */
  ghost predicate ServerHolds(v: Server) {
    v.ch.held.Some? ==>
      v.ch.held != Some(ChangeCipherSpec) && (v.state.SrHelloB? || v.state.SrHelloC? || v.state.SrHelloD?)
  }

  ghost predicate ServerChecked(k: ServerConfig, mac: Mac, v: Server) {
    && ServerControl(k.resumed, v) && ServerHolds(v)
    && Fits(ServerSent(k, v), mac, ServerSide, v.ch.sent, [], v.ch.transcript)
    && Fits(ServerReceived(k, v), mac, ClientSide, v.ch.received, Extensions(k.npn, k.channelId), v.ch.transcript)
  }

  /** The states that take a message which is not determined. */
  predicate ServerTakesIn(state: ServerState) {
    state.SrHelloD? || state.SrCert?
  }

  ghost predicate ServerTakes(k: ServerConfig, mac: Mac, v: Server, taken: Option<Message>) {
    if ServerTakesIn(v.state) then taken != Some(ChangeCipherSpec) else taken == ServerWants(k, mac, v)
  }

  /** What the server knows of the peer's certificate after a turn: it takes exactly one if it
      has asked for it, and not an empty one if it must have one. The first message it takes
      is the one it has held. */
  ghost predicate ServerLearns(k: ServerConfig, v: Server, peer: Server, taken: Option<Message>) {
    match v.state
    case SrHelloD => taken.Some? && taken == v.ch.held && peer.peerHasKey == v.peerHasKey
    case SrCert =>
      if k.certRequest then
        && taken.Some? && taken.value.Certificate? && peer.peerHasKey == !taken.value.empty
        && (k.certRequired ==> !taken.value.empty)
      else taken.None? && peer.peerHasKey == v.peerHasKey
    case _ => peer.peerHasKey == v.peerHasKey
  }

  lemma ServerTakesAny(k: ServerConfig, mac: Mac, v: Server, inbox: seq<Message>) returns (taken: Option<Message>)
    requires ServerTakesIn(v.state) && ServerHolds(v) && ServerTurn(k, mac, v, inbox, false).Moved?
    ensures Does(v.ch, ServerTurn(k, mac, v, inbox, false).peer.ch, None, taken) && taken != Some(ChangeCipherSpec)
    ensures ServerLearns(k, v, ServerTurn(k, mac, v, inbox, false).peer, taken)
  {
    hide GetMessage, Channel.Accept, Does;
    GotIsMessage(v.ch, inbox);
    var got, ch, ch' := GetMessage(v.ch, inbox), v.ch, ServerTurn(k, mac, v, inbox, false).peer.ch;
    NothingDone(ch, ch'.held, ch'.pending);
    if got.Got? {
      MessageTaken(ch, got.m);
    }
    if v.state.SrHelloD? {
      MessageTaken(ch, ch.held.value);
    }
    taken := if v.state.SrHelloD? then ch.held else if k.certRequest then Some(got.m) else None;
  }

  lemma ServerIdles(k: ServerConfig, mac: Mac, v: Server, inbox: seq<Message>)
    requires !ServerTakesIn(v.state) && !ServerSpeaksIn(v.state) && !ServerExpectsIn(v.state)
    requires ServerTurn(k, mac, v, inbox, false).Moved?
    ensures Does(v.ch, ServerTurn(k, mac, v, inbox, false).peer.ch, None, None)
    ensures ServerLearns(k, v, ServerTurn(k, mac, v, inbox, false).peer, None)
  {
    hide Does, GetMessage;
    var ch' := ServerTurn(k, mac, v, inbox, false).peer.ch;
    NothingDone(v.ch, ch'.held, ch'.pending);
  }

  lemma ServerDoes(k: ServerConfig, mac: Mac, v: Server, inbox: seq<Message>) returns (taken: Option<Message>)
    requires ServerHolds(v) && ServerTurn(k, mac, v, inbox, false).Moved?
    ensures Does(v.ch, ServerTurn(k, mac, v, inbox, false).peer.ch, ServerSays(k, mac, v), taken)
    ensures ServerTakes(k, mac, v, taken)
    ensures ServerLearns(k, v, ServerTurn(k, mac, v, inbox, false).peer, taken)
  {
    hide ServerTurn, Does, Added, Take;
    taken := ServerWants(k, mac, v);
    if ServerSpeaksIn(v.state) {
      ServerSpeaks(k, mac, v, inbox);
      AddedDoes(v.ch, ServerSays(k, mac, v));
    } else if ServerExpectsIn(v.state) {
      ServerExpects(k, mac, v, inbox);
      NothingDone(v.ch, v.ch.held, v.ch.pending);
      if taken.Some? {
        TakeDoes(v.ch, inbox, taken.value);
      }
    } else if ServerTakesIn(v.state) {
      taken := ServerTakesAny(k, mac, v, inbox);
    } else {
      ServerIdles(k, mac, v, inbox);
    }
  }

  lemma ServerOthersHold(k: ServerConfig, mac: Mac, v: Server, inbox: seq<Message>)
    requires ServerHolds(v) && !ServerSpeaksIn(v.state) && !ServerExpectsIn(v.state) && ServerControl(k.resumed, v)
    requires ServerTurn(k, mac, v, inbox, false).Moved?
    ensures ServerHolds(ServerTurn(k, mac, v, inbox, false).peer)
  {
    hide GetMessage, Channel.Hash;
    GotIsMessage(v.ch, inbox);
  }

  lemma ServerStillHolds(k: ServerConfig, mac: Mac, v: Server, inbox: seq<Message>)
    requires ServerHolds(v) && ServerControl(k.resumed, v) && ServerTurn(k, mac, v, inbox, false).Moved?
    ensures ServerHolds(ServerTurn(k, mac, v, inbox, false).peer)
  {
    hide ServerTurn, Added, Take, ServerGoes;
    if ServerSpeaksIn(v.state) {
      ServerSpeaks(k, mac, v, inbox);
      HeldAfter(v.ch, ServerSays(k, mac, v), inbox, ChangeCipherSpec);
    } else if ServerExpectsIn(v.state) {
      ServerExpects(k, mac, v, inbox);
      if ServerWants(k, mac, v).Some? {
        HeldAfter(v.ch, None, inbox, ServerWants(k, mac, v).value);
      }
    } else {
      ServerOthersHold(k, mac, v, inbox);
    }
  }

  lemma ServerProgress(k: ServerConfig, mac: Mac, v: Server, peer: Server, taken: Option<Message>)
    requires ServerControl(k.resumed, v) && v.state != ServerOk && ServerTakes(k, mac, v, taken)
    requires (peer.state, peer.next) == ServerGoes(k.resumed, v)
    ensures ServerSays(k, mac, v).None? || taken.None?
    ensures var p, says := ServerSent(k, v), ServerSays(k, mac, v);
            && ServerSent(k, peer) == Next(p, says) && Admits(p, mac, ServerSide, [], v.ch.transcript, says)
    ensures var p, all := ServerReceived(k, v), Extensions(k.npn, k.channelId);
            && ServerReceived(k, peer) == Next(p, taken) && Admits(p, mac, ClientSide, all, v.ch.transcript, taken)
  {
  }

  lemma ServerTurnKeeps(k: ServerConfig, mac: Mac, v: Server, inbox: seq<Message>)
    requires ServerChecked(k, mac, v) && ServerTurn(k, mac, v, inbox, false).Moved?
    ensures ServerChecked(k, mac, ServerTurn(k, mac, v, inbox, false).peer)
  {
    hide ServerTurn, ServerControl, ServerHolds, Fits, Next, Admits, ServerSays, ServerSent, ServerReceived, Extensions,
      ServerRank;
    var peer, says := ServerTurn(k, mac, v, inbox, false).peer, ServerSays(k, mac, v);
    var taken := ServerDoes(k, mac, v, inbox);
    ServerWent(k, mac, v, inbox);
    ServerRankDecreases(k, mac, v, inbox);
    ServerStillHolds(k, mac, v, inbox);
    ServerProgress(k, mac, v, peer, taken);
    FitsNext(ServerSent(k, v), mac, ServerSide, v.ch.sent, [], v.ch.transcript, says, peer.ch.transcript);
    FitsNext(ServerReceived(k, v), mac, ClientSide, v.ch.received, Extensions(k.npn, k.channelId), v.ch.transcript,
             taken, peer.ch.transcript);
  }

  /** The server after any number of turns. */
  ghost function ServerAfter(k: ServerConfig, mac: Mac, offers: seq<Offer>): (v: Server)
    ensures ServerChecked(k, mac, v)
  {
    if offers == [] then Server(SrHelloA, SrHelloA, false, Channel(None, [], [], [], []))
    else
      var v, offer := ServerAfter(k, mac, offers[..|offers| - 1]), offers[|offers| - 1];
      match ServerTurn(k, mac, v, offer.inbox, offer.blocked)
      case Moved(peer, _, _) => ServerTurnKeeps(k, mac, v, offer.inbox); peer
      case _ => v
  }

  /** The same of a server that is done; the client's extensions come before its Finished. */
  lemma ServerEndsChecked(k: ServerConfig, mac: Mac, offers: seq<Offer>)
    ensures var v := ServerAfter(k, mac, offers);
            v.state == ServerOk ==>
              && Verified(mac, ClientSide, v.ch.received, Extensions(k.npn, k.channelId), v.ch.transcript)
              && Verified(mac, ServerSide, v.ch.sent, [], v.ch.transcript)
  {
    hide ServerTurn, ServerControl, ServerHolds, Verified, ServerAfter;
    assert ServerChecked(k, mac, ServerAfter(k, mac, offers));
  }

  lemma {:induction false} ServerLoopKeeps(k: ServerConfig, mac: Mac, v: Server, inbox: seq<Message>,
        blocks: nat -> bool, n: nat)
    requires ServerChecked(k, mac, v)
    ensures ServerChecked(k, mac, ServerLoop(k, mac, v, inbox, blocks, n).peer)
    decreases ServerRank(k.resumed, v)
  {
    hide ServerTurn, ServerHolds, ServerRank, Fits, ServerSent, ServerReceived;
    if v.state == ServerOk {
      ServerLoopOver(k, mac, v, inbox, blocks, n);
    } else {
      ServerLoopTurn(k, mac, v, inbox, blocks, n);
      var t := ServerTurn(k, mac, v, inbox, false);
      if !blocks(n) && t.Moved? {
        ServerTurnKeeps(k, mac, v, inbox);
        ServerLoopKeeps(k, mac, t.peer, t.inbox, blocks, n + 1);
      }
    }
  }
}

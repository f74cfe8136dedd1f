/** The loops of `ssl3_connect` and `ssl3_accept`: turns are taken until one cannot be. */
module HandshakeLoops {
  import opened Bytes
  import opened HandshakeScript
  import opened HandshakeMachines
  import opened HandshakeMoves
  import opened HandshakeSteps
  import opened HandshakeServerSteps

  /** Which states a client can be in that does or does not resume a session. */
  predicate ClientControl(resumed: bool, c: Client) {
    if resumed then
      !FullOnly(c.state) && (c.state == CwFlush ==> (c.next.CrServerHello? || c.next.FinishClientHandshake?))
    else c.state == CwFlush ==> (c.next.CrServerHello? || c.next.CrSessionTicket?)
  }

  predicate ServerControl(resumed: bool, v: Server) {
    if resumed then !ServerFullOnly(v.state) && (v.state == SwFlush ==> v.next == SrChange)
    else v.state == SwFlush ==> (v.next.SrCert? || v.next.ServerOk?)
  }

  /** The turns a side may still take within its stage. */
  function ClientSub(state: ClientState): (n: nat)
    ensures n <= 3
  {
    match state
    case CwFlush => 3
    case FinishClientHandshake => 2
    case VerifyServerCert => 1
    case _ => 0
  }

  function ServerSub(state: ServerState): (n: nat)
    ensures n <= 3
  {
    match state
    case SrHelloA => 3
    case SrHelloB => 2
    case SrHelloC => 1
    case SwFlush => 3
    case _ => 0
  }

  /** An upper bound of the turns that the client can still take. */
  function ClientRank(resumed: bool, c: Client): nat {
    var stage := ClientStage(if c.state == CwFlush then c.next else c.state);
    4 * (|StagesOf(resumed)| - PositionOf(resumed, stage)) + ClientSub(c.state)
  }

  function ServerRank(resumed: bool, v: Server): nat {
    var stage := ServerStage(if v.state == SwFlush then v.next else v.state);
    4 * (|StagesOf(resumed)| - PositionOf(resumed, stage)) + ServerSub(v.state)
  }

  lemma StageCounts(resumed: bool)
    ensures |StagesOf(resumed)| == if resumed then 10 else 18
  {
  }

  lemma ClientRankDecreases(k: ClientConfig, mac: Mac, c: Client, inbox: seq<Message>)
    requires ClientControl(k.resumed, c)
    ensures var t := ClientTurn(k, mac, c, inbox, false);
            t.Moved? ==> ClientControl(k.resumed, t.peer) && ClientRank(k.resumed, t.peer) < ClientRank(k.resumed, c)
  {
    hide ClientTurn, StagesOf;
    ClientWent(k, mac, c, inbox);
    StageCounts(k.resumed);
  }

  lemma ServerRankDecreases(k: ServerConfig, mac: Mac, v: Server, inbox: seq<Message>)
    requires ServerControl(k.resumed, v)
    ensures var t := ServerTurn(k, mac, v, inbox, false);
            t.Moved? ==> ServerControl(k.resumed, t.peer) && ServerRank(k.resumed, t.peer) < ServerRank(k.resumed, v)
  {
    hide ServerTurn, StagesOf;
    ServerWent(k, mac, v, inbox);
    StageCounts(k.resumed);
  }

  /** How a call of the loop returns: with the handshake complete, to be called again, or
      with an error. */
  datatype Ret = Complete | Retry | Fatal

  /** The peer when the loop returns, what is left to be read, what has been written, and how
      many turns have been begun. */
  datatype Exit<P> = Exit(peer: P, inbox: seq<Message>, flushed: seq<Message>, turns: nat, ret: Ret)

  /** `blocks` says which turns the application or the transport makes the caller retry. */
  ghost function ClientLoop(k: ClientConfig, mac: Mac, c: Client, inbox: seq<Message>, blocks: nat -> bool, n: nat)
    : (e: Exit<Client>)
    requires ClientControl(k.resumed, c)
    ensures ClientControl(k.resumed, e.peer)
    decreases ClientRank(k.resumed, c)
  {
    if c.state == ClientOk then Exit(c, inbox, [], n, Complete)
    else if blocks(n) then Exit(c, inbox, [], n + 1, Retry)
    else
      ClientRankDecreases(k, mac, c, inbox);
      match ClientTurn(k, mac, c, inbox, false)
      case Blocked => Exit(c, inbox, [], n + 1, Retry)
      case Failed => Exit(c, inbox, [], n + 1, Fatal)
      case Moved(p, rest, flushed) =>
        var e := ClientLoop(k, mac, p, rest, blocks, n + 1);
        e.(flushed := flushed + e.flushed)
  }

  ghost function ServerLoop(k: ServerConfig, mac: Mac, v: Server, inbox: seq<Message>, blocks: nat -> bool, n: nat)
    : (e: Exit<Server>)
    requires ServerControl(k.resumed, v)
    ensures ServerControl(k.resumed, e.peer)
    decreases ServerRank(k.resumed, v)
  {
    if v.state == ServerOk then Exit(v, inbox, [], n, Complete)
    else if blocks(n) then Exit(v, inbox, [], n + 1, Retry)
    else
      ServerRankDecreases(k, mac, v, inbox);
      match ServerTurn(k, mac, v, inbox, false)
      case Blocked => Exit(v, inbox, [], n + 1, Retry)
      case Failed => Exit(v, inbox, [], n + 1, Fatal)
      case Moved(p, rest, flushed) =>
        var e := ServerLoop(k, mac, p, rest, blocks, n + 1);
        e.(flushed := flushed + e.flushed)
  }

  /** The whole loop, when `flushed` has been written and the rest is still to come. */
  ghost predicate Remains<P>(goal: Exit<P>, flushed: seq<Message>, rest: Exit<P>) {
    goal == rest.(flushed := flushed + rest.flushed)
  }

  lemma RemainsAll<P>(e: Exit<P>)
    ensures Remains(e, [], e)
  {
    assert [] + e.flushed == e.flushed;
  }

  lemma RemainsNothing<P>(goal: Exit<P>, flushed: seq<Message>, rest: Exit<P>)
    requires Remains(goal, flushed, rest) && rest.flushed == []
    ensures goal == rest.(flushed := flushed)
  {
    assert flushed + [] == flushed;
  }

  lemma RemainsLess<P>(goal: Exit<P>, flushed: seq<Message>, e: Exit<P>, more: seq<Message>, rest: Exit<P>)
    requires Remains(goal, flushed, e) && e == rest.(flushed := more + rest.flushed)
    ensures Remains(goal, flushed + more, rest)
  {
    assert (flushed + more) + rest.flushed == flushed + (more + rest.flushed);
  }

  /** One turn of the client's loop. */
  lemma ClientLoopTurn(k: ClientConfig, mac: Mac, c: Client, inbox: seq<Message>, blocks: nat -> bool, n: nat)
    requires ClientControl(k.resumed, c) && c.state != ClientOk
    ensures var e, t := ClientLoop(k, mac, c, inbox, blocks, n), ClientTurn(k, mac, c, inbox, false);
            if blocks(n) || t.Blocked? then e == Exit(c, inbox, [], n + 1, Retry)
            else if t.Failed? then e == Exit(c, inbox, [], n + 1, Fatal)
            else
              && ClientControl(k.resumed, t.peer) && ClientRank(k.resumed, t.peer) < ClientRank(k.resumed, c)
              && var rest := ClientLoop(k, mac, t.peer, t.inbox, blocks, n + 1);
                 e == rest.(flushed := t.flushed + rest.flushed)
  {
    hide ClientTurn, ClientControl, ClientRank;
    ClientRankDecreases(k, mac, c, inbox);
  }

  lemma ClientLoopOver(k: ClientConfig, mac: Mac, c: Client, inbox: seq<Message>, blocks: nat -> bool, n: nat)
    requires ClientControl(k.resumed, c) && c.state == ClientOk
    ensures ClientLoop(k, mac, c, inbox, blocks, n) == Exit(c, inbox, [], n, Complete)
  {
    hide ClientTurn, ClientRank;
  }

  /** One turn of the server's loop. */
  lemma ServerLoopTurn(k: ServerConfig, mac: Mac, v: Server, inbox: seq<Message>, blocks: nat -> bool, n: nat)
    requires ServerControl(k.resumed, v) && v.state != ServerOk
    ensures var e, t := ServerLoop(k, mac, v, inbox, blocks, n), ServerTurn(k, mac, v, inbox, false);
            if blocks(n) || t.Blocked? then e == Exit(v, inbox, [], n + 1, Retry)
            else if t.Failed? then e == Exit(v, inbox, [], n + 1, Fatal)
            else
              && ServerControl(k.resumed, t.peer) && ServerRank(k.resumed, t.peer) < ServerRank(k.resumed, v)
              && var rest := ServerLoop(k, mac, t.peer, t.inbox, blocks, n + 1);
                 e == rest.(flushed := t.flushed + rest.flushed)
  {
    hide ServerTurn, ServerControl, ServerRank;
    ServerRankDecreases(k, mac, v, inbox);
  }

  lemma ServerLoopOver(k: ServerConfig, mac: Mac, v: Server, inbox: seq<Message>, blocks: nat -> bool, n: nat)
    requires ServerControl(k.resumed, v) && v.state == ServerOk
    ensures ServerLoop(k, mac, v, inbox, blocks, n) == Exit(v, inbox, [], n, Complete)
  {
    hide ServerTurn, ServerRank;
  }
}

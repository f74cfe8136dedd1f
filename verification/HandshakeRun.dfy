/** The two state machines connected to each other. */
module HandshakeRun {
  import opened Bytes
  import opened HandshakeScript
  import opened HandshakeMachines
  import opened HandshakeSteps
  import opened HandshakeServerSteps

  datatype System = System(client: Client, server: Server, toServer: seq<Message>, toClient: seq<Message>)

  /** One turn of one side; `blocked` stands for everything that makes it try again later. */
  datatype Event = Event(side: Side, blocked: bool)

  datatype Result = Fails | Goes(sys: System, moved: bool)

  function Step(sc: Script, sys: System, e: Event): Result {
    match e.side
    case ClientSide =>
      (match ClientTurn(sc.c, sc.mac, sys.client, sys.toClient, e.blocked)
       case Blocked => Goes(sys, false)
       case Failed => Fails
       case Moved(c, inbox, flushed) => Goes(System(c, sys.server, sys.toServer + flushed, inbox), true))
    case ServerSide =>
      (match ServerTurn(sc.s, sc.mac, sys.server, sys.toServer, e.blocked)
       case Blocked => Goes(sys, false)
       case Failed => Fails
       case Moved(v, inbox, flushed) => Goes(System(sys.client, v, inbox, sys.toClient + flushed), true))
  }

  const CLOSED := Channel(None, [], [], [], [])

  function Start(): System {
    System(Client(CwClientHello, CwClientHello, false, CLOSED), Server(SrHelloA, SrHelloA, false, CLOSED), [], [])
  }

  /** One side is at position `n`, the other at `j`. What the one has done and the other has
      not are messages of the one only, and they are on their way; nothing else is. */
  ghost predicate Linked(sc: Script, side: Side, n: nat, j: nat,
      myUnread: seq<Message>, myPending: seq<Message>, theirUnread: seq<Message>, theirPending: seq<Message>)
    requires n < |sc.Stages()| && j < |sc.Stages()|
  {
    if n >= j then
      && AllOf(sc.Between(j, n), side) && theirUnread + myPending == Messages(sc.Between(j, n))
      && myUnread == [] && theirPending == []
    else
      && AllOf(sc.Between(n, j), Other(side)) && myUnread + theirPending == Messages(sc.Between(n, j))
      && theirUnread == [] && myPending == []
  }

  lemma LinkedSymmetric(sc: Script, side: Side, n: nat, j: nat, mu: seq<Message>, mp: seq<Message>,
        tu: seq<Message>, tp: seq<Message>)
    requires n < |sc.Stages()| && j < |sc.Stages()|
    ensures Linked(sc, side, n, j, mu, mp, tu, tp) <==> Linked(sc, Other(side), j, n, tu, tp, mu, mp)
  {
  }

  /** A side that is level or ahead does what its stage says. */
  lemma AheadKeepsLinked(sc: Script, side: Side, n: nat, j: nat, mu: seq<Message>, mp: seq<Message>, mp': seq<Message>,
      tu: seq<Message>, tp: seq<Message>)
    requires j <= n && n + 1 < |sc.Stages()| && Linked(sc, side, n, j, mu, mp, tu, tp)
    requires sc.ItemAt(n).Some? ==> sc.ItemAt(n).value.0 == side
    requires mp' == mp + (if sc.ItemAt(n).Some? then [sc.ItemAt(n).value.1] else [])
    ensures Linked(sc, side, n + 1, j, mu, mp', tu, tp)
  {
    hide Script.ItemAt;
    var b, item := sc.Between(j, n), sc.ItemAt(n);
    assert sc.Between(j, n + 1) == b + AsSeq(item);
    if item.Some? {
      assert Messages(b + [item.value]) == Messages(b) + [item.value.1];
      assert tu + (mp + [item.value.1]) == (tu + mp) + [item.value.1];
    } else {
      assert b + [] == b && mp + [] == mp;
    }
  }

  /** A side that is behind takes the other side's message of its stage, if there is one. */
  lemma BehindKeepsLinked(sc: Script, side: Side, n: nat, j: nat, mu: seq<Message>, mu': seq<Message>, mp: seq<Message>,
      tu: seq<Message>, tp: seq<Message>)
    requires n < j < |sc.Stages()| && Linked(sc, side, n, j, mu, mp, tu, tp)
    requires mu == (if sc.ItemAt(n).Some? then [sc.ItemAt(n).value.1] else []) + mu'
    ensures Linked(sc, side, n + 1, j, mu', mp, tu, tp)
  {
    hide Script.ItemAt;
    var b, rest, item := sc.Between(n, j), sc.Between(n + 1, j), sc.ItemAt(n);
    sc.BetweenFirst(n, j);
    if item.Some? {
      assert Messages(b) == [item.value.1] + Messages(rest);
      assert ([item.value.1] + mu') + tp == [item.value.1] + (mu' + tp);
      assert mu' + tp == (mu + tp)[1..] == Messages(rest);
      RestOfSide(b, item.value, rest, Other(side));
    } else {
      assert [] + mu' == mu' && b == rest;
    }
    if n + 1 == j {
      assert rest == [] && Messages(rest) == [];
    }
  }

  lemma RestOfSide(b: seq<(Side, Message)>, first: (Side, Message), rest: seq<(Side, Message)>, side: Side)
    requires b == [first] + rest && AllOf(b, side)
    ensures AllOf(rest, side) && first.0 == side
  {
    assert b[0] == first;
    forall k | 0 <= k < |rest|
      ensures rest[k].0 == side
    {
      assert rest[k] == b[k + 1];
    }
  }

  lemma FirstBehind(sc: Script, side: Side, n: nat, j: nat, mu: seq<Message>, mp: seq<Message>, tu: seq<Message>,
        tp: seq<Message>)
    requires n < j < |sc.Stages()| && Linked(sc, side, n, j, mu, mp, tu, tp)
    ensures sc.ItemAt(n).Some? ==> sc.ItemAt(n).value.0 == Other(side)
  {
    hide Script.ItemAt;
    sc.BetweenFirst(n, j);
    if sc.ItemAt(n).Some? {
      RestOfSide(sc.Between(n, j), sc.ItemAt(n).value, sc.Between(n + 1, j), Other(side));
    }
  }

  /** A turn that follows the script keeps the sides linked. */
  lemma TurnKeepsLinked(sc: Script, side: Side, n: nat, n': nat, j: nat, ch: Channel, inbox: seq<Message>,
      ch': Channel, inbox': seq<Message>, flushed: seq<Message>, tu: seq<Message>, tp: seq<Message>)
    requires n < |sc.Stages()| && n' < |sc.Stages()| && j < |sc.Stages()|
    requires Linked(sc, side, n, j, AsSeq(ch.held) + inbox, ch.pending, tu, tp)
    requires Follows(sc, side, n, n', ch, inbox, ch', inbox', flushed)
    ensures Linked(sc, side, n', j, AsSeq(ch'.held) + inbox', ch'.pending, tu + flushed, tp)
  {
    hide Script.ItemAt, Script.Between, Linked, AsSeq;
    var mu, mu' := AsSeq(ch.held) + inbox, AsSeq(ch'.held) + inbox';
    if n' == n {
      FlushKeepsLinked(sc, side, n, j, mu, ch.pending, ch'.pending, flushed, tu, tp);
    } else {
      assert tu + flushed == tu;
      if n >= j {
        NothingUnread(sc, side, n, j, mu, ch.pending, tu, tp);
        assert ch.pending + [] == ch.pending;
        AheadKeepsLinked(sc, side, n, j, mu, ch.pending, ch'.pending, tu, tp);
      } else {
        FirstBehind(sc, side, n, j, mu, ch.pending, tu, tp);
        assert [] + mu' == mu';
        BehindKeepsLinked(sc, side, n, j, mu, mu', ch.pending, tu, tp);
      }
    }
  }

  lemma NothingUnread(sc: Script, side: Side, n: nat, j: nat, mu: seq<Message>, mp: seq<Message>, tu: seq<Message>,
        tp: seq<Message>)
    requires j <= n < |sc.Stages()| && Linked(sc, side, n, j, mu, mp, tu, tp)
    ensures mu == []
  {
  }

  lemma FlushKeepsLinked(sc: Script, side: Side, n: nat, j: nat, mu: seq<Message>, mp: seq<Message>, mp': seq<Message>,
      flushed: seq<Message>, tu: seq<Message>, tp: seq<Message>)
    requires n < |sc.Stages()| && j < |sc.Stages()| && Linked(sc, side, n, j, mu, mp, tu, tp) && flushed + mp' == mp
    ensures Linked(sc, side, n, j, mu, mp', tu + flushed, tp)
  {
    assert tu + (flushed + mp') == (tu + flushed) + mp';
    assert n < j ==> |flushed| == 0 && |mp'| == 0;
  }

  ghost predicate Inv(sc: Script, sys: System) {
    && ClientInv(sc, sys.client) && ServerInv(sc, sys.server)
    && Linked(sc, ClientSide, ClientPosition(sc, sys.client), ServerPosition(sc, sys.server),
              AsSeq(sys.client.ch.held) + sys.toClient, sys.client.ch.pending,
              AsSeq(sys.server.ch.held) + sys.toServer, sys.server.ch.pending)
  }

  lemma LinkedReads(sc: Script, side: Side, n: nat, j: nat, mu: seq<Message>, mp: seq<Message>, tu: seq<Message>,
        tp: seq<Message>)
    requires n < |sc.Stages()| && j < |sc.Stages()| && Linked(sc, side, n, j, mu, mp, tu, tp)
    ensures InboxInv(sc, side, n, j, mu)
  {
    if n == j {
      assert sc.Between(n, n) == [];
    }
  }

  lemma StartInv(sc: Script)
    requires sc.Agreed()
    ensures Inv(sc, Start())
  {
    assert sc.Prefix(0) == [] && sc.Between(0, 0) == [] && Messages([]) == [];
  }

  lemma ClientStepKeeps(sc: Script, sys: System, blocked: bool)
    requires Inv(sc, sys)
    ensures var r := Step(sc, sys, Event(ClientSide, blocked)); r.Goes? && Inv(sc, r.sys)
  {
    hide ClientInv, ServerInv, Linked, Follows, ClientTurn, InboxInv, Script.Position;
    var c, v := sys.client, sys.server;
    var n, j := ClientPosition(sc, c), ServerPosition(sc, v);
    var tu := AsSeq(v.ch.held) + sys.toServer;
    LinkedReads(sc, ClientSide, n, j, AsSeq(c.ch.held) + sys.toClient, c.ch.pending, tu, v.ch.pending);
    ClientStep(sc, c, sys.toClient, blocked, j);
    var turn := ClientTurn(sc.c, sc.mac, c, sys.toClient, blocked);
    if turn.Moved? {
      TurnKeepsLinked(sc, ClientSide, n, ClientPosition(sc, turn.peer), j, c.ch, sys.toClient, turn.peer.ch,
        turn.inbox, turn.flushed, tu, v.ch.pending);
      assert AsSeq(v.ch.held) + (sys.toServer + turn.flushed) == tu + turn.flushed;
    }
  }

  lemma ServerStepKeeps(sc: Script, sys: System, blocked: bool)
    requires Inv(sc, sys)
    ensures var r := Step(sc, sys, Event(ServerSide, blocked)); r.Goes? && Inv(sc, r.sys)
  {
    hide ClientInv, ServerInv, Linked, Follows, ServerTurn, InboxInv, Script.Position;
    var c, v := sys.client, sys.server;
    var n, j := ServerPosition(sc, v), ClientPosition(sc, c);
    var mu, tu := AsSeq(v.ch.held) + sys.toServer, AsSeq(c.ch.held) + sys.toClient;
    LinkedSymmetric(sc, ClientSide, j, n, tu, c.ch.pending, mu, v.ch.pending);
    LinkedReads(sc, ServerSide, n, j, mu, v.ch.pending, tu, c.ch.pending);
    ServerStep(sc, v, sys.toServer, blocked, j);
    var turn := ServerTurn(sc.s, sc.mac, v, sys.toServer, blocked);
    if turn.Moved? {
      var n', mu' := ServerPosition(sc, turn.peer), AsSeq(turn.peer.ch.held) + turn.inbox;
      TurnKeepsLinked(sc, ServerSide, n, n', j, v.ch, sys.toServer, turn.peer.ch, turn.inbox, turn.flushed, tu,
        c.ch.pending);
      assert AsSeq(c.ch.held) + (sys.toClient + turn.flushed) == tu + turn.flushed;
      LinkedSymmetric(sc, ServerSide, n', j, mu', turn.peer.ch.pending, tu + turn.flushed, c.ch.pending);
    }
  }

  /** Whatever the order of the turns and the retries, no turn fails the handshake. */
  lemma StepKeeps(sc: Script, sys: System, e: Event)
    requires Inv(sc, sys)
    ensures Step(sc, sys, e).Goes? && Inv(sc, Step(sc, sys, e).sys)
  {
    match e.side
    case ClientSide => ClientStepKeeps(sc, sys, e.blocked);
    case ServerSide => ServerStepKeeps(sc, sys, e.blocked);
  }

  ghost function Run(sc: Script, sys: System, events: seq<Event>): (r: System)
    requires Inv(sc, sys)
    ensures Inv(sc, r)
    decreases |events|
  {
    StepKeeps(sc, sys, if events == [] then Event(ClientSide, true) else events[0]);
    if events == [] then sys else Run(sc, Step(sc, sys, events[0]).sys, events[1..])
  }
}

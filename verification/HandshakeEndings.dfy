/** What each side has sent and received when it has ended. */
module HandshakeEndings {
  import opened Bytes
  import opened HandshakeScript
  import opened HandshakeMachines
  import opened HandshakeSteps
  import opened HandshakeServerSteps
  import opened HandshakeLoops
  import opened HandshakeRun
  import opened HandshakeOutcome

  /** One ChangeCipherSpec, later one Finished, and nothing after it. */
  ghost predicate ChangesThenFinishes(messages: seq<Message>, finished: Message) {
    exists k | 0 <= k < |messages| - 1 :: ChangesAt(messages, finished, k)
  }

  ghost predicate ChangesAt(messages: seq<Message>, finished: Message, k: nat) {
    && k < |messages| - 1 && messages[k] == ChangeCipherSpec && messages[|messages| - 1] == finished
    && (forall l | 0 <= l < |messages| && l != k :: messages[l] != ChangeCipherSpec)
    && (forall l | 0 <= l < |messages| - 1 :: !messages[l].Finished?)
  }

  function CcsStage(side: Side): Stage {
    if side == ClientSide then ClientCcs else ServerCcs
  }

  function FinStage(side: Side): Stage {
    if side == ClientSide then ClientFin else ServerFin
  }

  /** The Finished message the script has for a side: the keyed hash of all messages before it. */
  ghost function FinishedOf(sc: Script, side: Side): Message {
    Finished(sc.mac(side, Hashed(sc.Prefix(sc.Position(FinStage(side))))))
  }

  lemma OfSideAppend(b: seq<(Side, Message)>, o: Option<(Side, Message)>, side: Side)
    ensures OfSide(b + AsSeq(o), side) == OfSide(b, side) + ItemOn(o, side)
  {
    if o.Some? {
      assert (b + [o.value])[..|b|] == b;
    } else {
      assert b + [] == b;
    }
  }

  lemma {:induction false} OfSideSplits(sc: Script, side: Side, m: nat, n: nat)
    requires m <= n < |sc.Stages()|
    ensures OfSide(sc.Prefix(n), side) == OfSide(sc.Prefix(m), side) + OfSide(sc.Between(m, n), side)
    decreases n
  {
    hide Script.ItemAt, Script.Prefix, OfSide, ItemOn, AsSeq, Hashed;
    if m < n {
      OfSideSplits(sc, side, m, n - 1);
      sc.HashedNext(n - 1);
      OfSideAppend(sc.Between(m, n - 1), sc.ItemAt(n - 1), side);
      var a, b, c := OfSide(sc.Prefix(m), side), OfSide(sc.Between(m, n - 1), side), ItemOn(sc.ItemAt(n - 1), side);
      assert (a + b) + c == a + (b + c);
    } else {
      NoneOfSide(side);
      assert OfSide(sc.Prefix(m), side) + [] == OfSide(sc.Prefix(m), side);
    }
  }

  lemma NoneOfSide(side: Side)
    ensures OfSide([], side) == []
  {
  }

  lemma {:induction false} OfSideMembers(sc: Script, side: Side, m: nat, n: nat, x: Message)
    requires m <= n <= |sc.Stages()| && x in OfSide(sc.Between(m, n), side)
    ensures exists k | m <= k < n :: sc.ItemAt(k) == Some((side, x))
    decreases n
  {
    hide Script.ItemAt, OfSide, AsSeq;
    NoneOfSide(side);
    OfSideAppend(sc.Between(m, n - 1), sc.ItemAt(n - 1), side);
    if sc.ItemAt(n - 1) != Some((side, x)) {
      OfSideMembers(sc, side, m, n - 1, x);
    }
  }

  /** Only its own stages have a side's ChangeCipherSpec and Finished, and the side has
      nothing after its Finished. */
  lemma KindAt(sc: Script, side: Side, k: nat)
    requires sc.Agreed() && k < |sc.Stages()| - 1 && sc.ItemAt(k).Some? && sc.ItemAt(k).value.0 == side
    ensures sc.ItemAt(k).value.1 == ChangeCipherSpec ==> k == sc.Position(CcsStage(side))
    ensures sc.ItemAt(k).value.1.Finished? ==> k == sc.Position(FinStage(side))
    ensures k <= sc.Position(FinStage(side))
  {
    hide Script.Prefix, Hashed, StagesOf;
    StageInverse(sc.c.resumed, k);
  }

  lemma StageInverse(resumed: bool, k: nat)
    requires k < |StagesOf(resumed)|
    ensures PositionOf(resumed, StagesOf(resumed)[k]) == k && |StagesOf(resumed)| == if resumed then 10 else 18
  {
  }

  lemma EndingItems(sc: Script, side: Side)
    ensures sc.Position(CcsStage(side)) < sc.Position(FinStage(side)) < |sc.Stages()| - 1
    ensures sc.ItemAt(sc.Position(CcsStage(side))) == Some((side, ChangeCipherSpec))
    ensures sc.ItemAt(sc.Position(FinStage(side))) == Some((side, FinishedOf(sc, side)))
    ensures FinishedOf(sc, side).Finished?
  {
    hide Script.Prefix, Hashed;
    sc.PositionInverse(CcsStage(side));
    sc.PositionInverse(FinStage(side));
  }

  lemma OneOfSide(sc: Script, side: Side, n: nat)
    requires n < |sc.Stages()| && sc.ItemAt(n).Some? && sc.ItemAt(n).value.0 == side
    ensures OfSide(sc.Between(n, n + 1), side) == [sc.ItemAt(n).value.1]
  {
    hide Script.ItemAt;
    assert sc.Between(n, n) == [];
    assert sc.Between(n, n + 1) == [sc.ItemAt(n).value];
    assert [sc.ItemAt(n).value][..0] == [];
  }

  /** The messages of a side in stages that are not those of its ending are no endings. */
  lemma NoEnding(sc: Script, side: Side, m: nat, n: nat)
    requires sc.Agreed() && m <= n <= |sc.Stages()| - 1
    requires n <= sc.Position(CcsStage(side)) || m > sc.Position(CcsStage(side))
    requires n <= sc.Position(FinStage(side)) || m > sc.Position(FinStage(side))
    ensures forall x | x in OfSide(sc.Between(m, n), side) :: x != ChangeCipherSpec && !x.Finished?
    ensures m > sc.Position(FinStage(side)) ==> OfSide(sc.Between(m, n), side) == []
  {
    hide Script.ItemAt, Script.Position;
    var b := OfSide(sc.Between(m, n), side);
    forall x | x in b
      ensures x != ChangeCipherSpec && !x.Finished? && m <= sc.Position(FinStage(side))
    {
      OfSideMembers(sc, side, m, n, x);
      var k :| m <= k < n && sc.ItemAt(k) == Some((side, x));
      KindAt(sc, side, k);
    }
    if b != [] {
      assert b[0] in b;
    }
  }

  /** The whole script of a side. */
  lemma ScriptEnds(sc: Script, side: Side)
    requires sc.Agreed()
    ensures ChangesThenFinishes(OfSide(sc.Prefix(|sc.Stages()| - 1), side), FinishedOf(sc, side))
  {
    hide Script.ItemAt, Script.Position, Script.Stages, Script.Prefix, Script.Between, OfSide, FinishedOf,
      ChangesThenFinishes;
    var last := |sc.Stages()| - 1;
    var p, f := sc.Position(CcsStage(side)), sc.Position(FinStage(side));
    EndingItems(sc, side);
    OfSideSplits(sc, side, f + 1, last);
    OfSideSplits(sc, side, f, f + 1);
    OfSideSplits(sc, side, p + 1, f);
    OfSideSplits(sc, side, p, p + 1);
    OfSideSplits(sc, side, 0, p);
    OneOfSide(sc, side, p);
    OneOfSide(sc, side, f);
    NoEnding(sc, side, 0, p);
    NoEnding(sc, side, p + 1, f);
    NoEnding(sc, side, f + 1, last);
    var a, m := OfSide(sc.Between(0, p), side), OfSide(sc.Between(p + 1, f), side);
    NothingFirst(sc);
    NoneOfSide(side);
    assert [] + a == a;
    var s := a + [ChangeCipherSpec] + m + [FinishedOf(sc, side)];
    assert s + [] == s;
    assert OfSide(sc.Prefix(last), side) == a + [ChangeCipherSpec] + m + [FinishedOf(sc, side)];
    EndsLikeThis(a, m, FinishedOf(sc, side));
  }

  lemma NothingFirst(sc: Script)
    ensures sc.Prefix(0) == []
  {
  }

  lemma EndsLikeThis(a: seq<Message>, m: seq<Message>, finished: Message)
    requires finished.Finished?
    requires forall x | x in a || x in m :: x != ChangeCipherSpec && !x.Finished?
    ensures ChangesThenFinishes(a + [ChangeCipherSpec] + m + [finished], finished)
  {
    var s := a + [ChangeCipherSpec] + m + [finished];
    forall l | 0 <= l < |s| - 1
      ensures !s[l].Finished? && (l != |a| ==> s[l] != ChangeCipherSpec)
    {
      assert l < |a| ==> s[l] == a[l] && a[l] in a;
      assert l > |a| ==> s[l] == m[l - |a| - 1] && m[l - |a| - 1] in m;
    }
    assert ChangesAt(s, finished, |a|);
  }

  lemma ClientEnded(sc: Script, c: Client)
    requires ClientInv(sc, c) && c.state == ClientOk
    ensures c.ch.sent == OfSide(sc.Prefix(|sc.Stages()| - 1), ClientSide)
    ensures c.ch.received == OfSide(sc.Prefix(|sc.Stages()| - 1), ServerSide)
    ensures c.ch.transcript == Hashed(sc.Prefix(|sc.Stages()| - 1)) && ClientPosition(sc, c) == |sc.Stages()| - 1
  {
    hide Script.Prefix, OfSide, Hashed, Script.Agreed;
    DonePosition(sc);
  }

  lemma ServerEnded(sc: Script, v: Server)
    requires ServerInv(sc, v) && v.state == ServerOk
    ensures v.ch.sent == OfSide(sc.Prefix(|sc.Stages()| - 1), ServerSide)
    ensures v.ch.received == OfSide(sc.Prefix(|sc.Stages()| - 1), ClientSide)
    ensures v.ch.transcript == Hashed(sc.Prefix(|sc.Stages()| - 1)) && ServerPosition(sc, v) == |sc.Stages()| - 1
  {
    hide Script.Prefix, OfSide, Hashed, Script.Agreed;
    DonePosition(sc);
  }

  /** In every reachable state: a side that has ended has sent one ChangeCipherSpec and then
      its Finished last, and has received one and then the other side's Finished, which it has
      compared with the hash of its own transcript. */
  lemma EndedSides(sc: Script, events: seq<Event>)
    requires sc.Agreed()
    ensures var c := Run(sc, Begin(sc), events).client;
            c.state == ClientOk ==> ChangesThenFinishes(c.ch.sent, FinishedOf(sc, ClientSide))
                                    && ChangesThenFinishes(c.ch.received, FinishedOf(sc, ServerSide))
    ensures var v := Run(sc, Begin(sc), events).server;
            v.state == ServerOk ==> ChangesThenFinishes(v.ch.sent, FinishedOf(sc, ServerSide))
                                    && ChangesThenFinishes(v.ch.received, FinishedOf(sc, ClientSide))
  {
    hide ChangesThenFinishes, ClientInv, ServerInv, Linked, Script.Prefix, OfSide, FinishedOf, Step, Start;
    ScriptEnds(sc, ClientSide);
    ScriptEnds(sc, ServerSide);
    var sys := Run(sc, Begin(sc), events);
    if sys.client.state == ClientOk {
      ClientEnded(sc, sys.client);
    }
    if sys.server.state == ServerOk {
      ServerEnded(sc, sys.server);
    }
  }

  lemma DonePosition(sc: Script)
    ensures sc.Position(Done) == |sc.Stages()| - 1
  {
  }

  ghost function Begin(sc: Script): (sys: System)
    requires sc.Agreed()
    ensures Inv(sc, sys)
  {
    StartInv(sc);
    Start()
  }

  /** When both have ended, each has received exactly what the other sent, and both have
      hashed the same messages. */
  lemma SidesAgree(sc: Script, events: seq<Event>)
    requires sc.Agreed()
    ensures var sys := Run(sc, Begin(sc), events);
            Over(sys) ==>
              && sys.client.ch.sent == sys.server.ch.received && sys.server.ch.sent == sys.client.ch.received
              && sys.client.ch.transcript == sys.server.ch.transcript
              && sys.toClient == [] && sys.toServer == []
  {
    hide ClientInv, ServerInv, Script.Prefix, Script.Between, OfSide, Hashed, Step, Start;
    var sys := Run(sc, Begin(sc), events);
    if Over(sys) {
      ClientEnded(sc, sys.client);
      ServerEnded(sc, sys.server);
      LevelIsEmpty(sc, sys);
    }
  }

  lemma LevelIsEmpty(sc: Script, sys: System)
    requires Inv(sc, sys) && ClientPosition(sc, sys.client) == ServerPosition(sc, sys.server)
    ensures sys.toClient == [] && sys.toServer == []
  {
    hide ClientInv, ServerInv;
    var n := ClientPosition(sc, sys.client);
    assert sc.Between(n, n) == [];
  }

  function Moves(sc: Script, sys: System, events: seq<Event>): nat
    decreases |events|
  {
    if events == [] then 0
    else
      match Step(sc, sys, events[0])
      case Fails => 0
      case Goes(s, moved) => (if moved then 1 else 0) + Moves(sc, s, events[1..])
  }

  /** Turns that move are bounded, and while the handshake is not over one is possible: so it
      ends, whatever is retried in between. */
  lemma {:induction false} MovesAreBounded(sc: Script, sys: System, events: seq<Event>)
    requires Inv(sc, sys)
    ensures Moves(sc, sys, events) + TurnsLeft(sc, Run(sc, sys, events)) <= TurnsLeft(sc, sys)
    decreases |events|
  {
    hide Step, TurnsLeft, Inv;
    if events != [] {
      StepKeeps(sc, sys, events[0]);
      TurnsLeftDecreases(sc, sys, events[0]);
      MovesAreBounded(sc, Step(sc, sys, events[0]).sys, events[1..]);
    }
  }

  lemma NoEvents(sc: Script, sys: System)
    requires Inv(sc, sys)
    ensures Run(sc, sys, []) == sys
  {
    hide Inv, Step;
  }

  lemma RunAppend(sc: Script, sys: System, e: Event, events: seq<Event>)
    requires Inv(sc, sys)
    ensures Step(sc, sys, e).Goes? && Inv(sc, Step(sc, sys, e).sys)
    ensures Run(sc, sys, [e] + events) == Run(sc, Step(sc, sys, e).sys, events)
  {
    hide Step, Inv;
    StepKeeps(sc, sys, e);
    assert ([e] + events)[1..] == events;
  }

  lemma Controlled(sc: Script, sys: System)
    requires Inv(sc, sys)
    ensures ClientControl(sc.c.resumed, sys.client) && ServerControl(sc.s.resumed, sys.server)
  {
  }

  /** What a turn that is not blocked makes of the system. */
  lemma ClientStepIs(sc: Script, sys: System)
    ensures Step(sc, sys, Event(ClientSide, false)) ==
      match ClientTurn(sc.c, sc.mac, sys.client, sys.toClient, false)
      case Blocked => Goes(sys, false)
      case Failed => Fails
      case Moved(c, inbox, flushed) => Goes(System(c, sys.server, sys.toServer + flushed, inbox), true)
  {
    hide ClientTurn;
  }

  lemma ServerStepIs(sc: Script, sys: System)
    ensures Step(sc, sys, Event(ServerSide, false)) ==
      match ServerTurn(sc.s, sc.mac, sys.server, sys.toServer, false)
      case Blocked => Goes(sys, false)
      case Failed => Fails
      case Moved(v, inbox, flushed) => Goes(System(sys.client, v, inbox, sys.toClient + flushed), true)
  {
    hide ServerTurn;
  }

  /** A call of the client's loop is a run of client turns, so that all that is shown of runs
      holds of any sequence of calls; and it does not fail. */
  lemma {:induction false} ConnectIsRun(sc: Script, sys: System, blocks: nat -> bool, n: nat)
    requires Inv(sc, sys)
    ensures ClientControl(sc.c.resumed, sys.client)
    ensures var e := ClientLoop(sc.c, sc.mac, sys.client, sys.toClient, blocks, n);
            e.ret != Fatal && exists events ::
              Run(sc, sys, events) == System(e.peer, sys.server, sys.toServer + e.flushed, e.inbox)
    decreases ClientRank(sc.c.resumed, sys.client)
  {
    hide ClientTurn, ClientRank, Inv, ClientControl, Run, Step;
    Controlled(sc, sys);
    NoEvents(sc, sys);
    var c := sys.client;
    ClientRankDecreases(sc.c, sc.mac, c, sys.toClient);
    StepKeeps(sc, sys, Event(ClientSide, false));
    ClientStepIs(sc, sys);
    assert sys.toServer + [] == sys.toServer;
    if c.state != ClientOk && !blocks(n) && ClientTurn(sc.c, sc.mac, c, sys.toClient, false).Moved? {
      var s := Step(sc, sys, Event(ClientSide, false)).sys;
      ConnectIsRun(sc, s, blocks, n + 1);
      var e := ClientLoop(sc.c, sc.mac, s.client, s.toClient, blocks, n + 1);
      var events :| Run(sc, s, events) == System(e.peer, s.server, s.toServer + e.flushed, e.inbox);
      RunAppend(sc, sys, Event(ClientSide, false), events);
      var flushed := ClientTurn(sc.c, sc.mac, c, sys.toClient, false).flushed;
      assert (sys.toServer + flushed) + e.flushed == sys.toServer + (flushed + e.flushed);
    }
  }

  lemma {:induction false} AcceptIsRun(sc: Script, sys: System, blocks: nat -> bool, n: nat)
    requires Inv(sc, sys)
    ensures ServerControl(sc.s.resumed, sys.server)
    ensures var e := ServerLoop(sc.s, sc.mac, sys.server, sys.toServer, blocks, n);
            e.ret != Fatal && exists events ::
              Run(sc, sys, events) == System(sys.client, e.peer, e.inbox, sys.toClient + e.flushed)
    decreases ServerRank(sc.s.resumed, sys.server)
  {
    hide ServerTurn, ServerRank, Inv, ServerControl, Run, Step;
    Controlled(sc, sys);
    NoEvents(sc, sys);
    var v := sys.server;
    ServerRankDecreases(sc.s, sc.mac, v, sys.toServer);
    StepKeeps(sc, sys, Event(ServerSide, false));
    ServerStepIs(sc, sys);
    assert sys.toClient + [] == sys.toClient;
    if v.state != ServerOk && !blocks(n) && ServerTurn(sc.s, sc.mac, v, sys.toServer, false).Moved? {
      var s := Step(sc, sys, Event(ServerSide, false)).sys;
      AcceptIsRun(sc, s, blocks, n + 1);
      var e := ServerLoop(sc.s, sc.mac, s.server, s.toServer, blocks, n + 1);
      var events :| Run(sc, s, events) == System(s.client, e.peer, e.inbox, s.toClient + e.flushed);
      RunAppend(sc, sys, Event(ServerSide, false), events);
      var flushed := ServerTurn(sc.s, sc.mac, v, sys.toServer, false).flushed;
      assert (sys.toClient + flushed) + e.flushed == sys.toClient + (flushed + e.flushed);
    }
  }
}

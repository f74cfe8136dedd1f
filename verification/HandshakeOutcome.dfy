/** What a handshake comes to: it never gets stuck, it ends, and when a side has ended the
    other's ChangeCipherSpec and Finished have been received. */
module HandshakeOutcome {
  import opened Bytes
  import opened HandshakeScript
  import opened HandshakeMachines
  import opened HandshakeSteps
  import opened HandshakeServerSteps
  import opened HandshakeLoops
  import opened HandshakeRun

  predicate Over(sys: System) {
    sys.client.state == ClientOk && sys.server.state == ServerOk
  }

  predicate CanMove(sc: Script, sys: System, side: Side) {
    match side
    case ClientSide => ClientTurn(sc.c, sc.mac, sys.client, sys.toClient, false).Moved?
    case ServerSide => ServerTurn(sc.s, sc.mac, sys.server, sys.toServer, false).Moved?
  }

  /** The stages whose message, if there is one, is the server's. */
  predicate OfServer(stage: Stage) {
    match stage
    case HelloAnswer | ServerCert | Status | KeyExchange | CertRequest | HelloDone => true
    case Ticket | ServerCcs | ServerFin => true
    case _ => false
  }

  /** A client that waits has nothing to read and nothing to flush, and it is not its turn to
      send. */
  lemma ClientWaits(sc: Script, c: Client, inbox: seq<Message>)
    requires ClientInv(sc, c) && ClientTurn(sc.c, sc.mac, c, inbox, false).Blocked?
    ensures c.state != ClientOk ==> AsSeq(c.ch.held) + inbox == [] && c.ch.pending == []
    ensures c.state == ClientOk ==> ClientPosition(sc, c) == |sc.Stages()| - 1 && c.ch.pending == [] && c.ch.held.None?
    ensures c.state != ClientOk ==> OfServer(ClientStage(c.state))
    ensures c.state != ClientOk ==> c.state != CwFlush
  {
    hide Script.ItemAt, Script.Prefix, Hashed, OfSide, ChannelInv, Script.Agreed;
  }

  /** A server that waits expects a message of the client, which its stage has. */
  lemma ServerWaits(sc: Script, v: Server, inbox: seq<Message>)
    requires ServerInv(sc, v) && ServerTurn(sc.s, sc.mac, v, inbox, false).Blocked?
    ensures v.state != ServerOk ==> AsSeq(v.ch.held) + inbox == [] && v.ch.pending == []
    ensures v.state == ServerOk ==> ServerPosition(sc, v) == |sc.Stages()| - 1 && v.ch.pending == [] && v.ch.held.None?
    ensures v.state != ServerOk ==> v.state != SwFlush && sc.ItemAt(ServerPosition(sc, v)).Some?
                                    && sc.ItemAt(ServerPosition(sc, v)).value.0 == ClientSide
  {
    hide Script.ItemAt, Script.Prefix, Hashed, OfSide, ChannelInv;
    if v.state != ServerOk && v.state != SwFlush {
      ServerItem(sc, v);
    }
  }

  /** A message at one of the stages is among the messages of all of them. */
  lemma {:induction false} BetweenHas(sc: Script, m: nat, n: nat, k: nat)
    requires m <= k < n <= |sc.Stages()| && sc.ItemAt(k).Some?
    ensures sc.ItemAt(k).value in sc.Between(m, n)
    decreases n
  {
    hide Script.ItemAt;
    if k < n - 1 {
      BetweenHas(sc, m, n - 1, k);
    }
  }

  lemma ClientStageItem(sc: Script, c: Client)
    requires ClientInv(sc, c) && !(c.state.CwFlush? || c.state.FinishClientHandshake? || c.state.ClientOk?)
    requires OfServer(ClientStage(c.state))
    ensures var item := sc.ItemAt(ClientPosition(sc, c)); item.Some? ==> item.value.0 == ServerSide
  {
    hide Script.ItemAt, Script.Prefix, Hashed, OfSide, ChannelInv;
    ClientItem(sc, c);
  }

  /** The client can only wait without a message of its stage while it looks for an optional
      one, and the ServerHelloDone comes after all of those. */
  lemma ClientWaitsForDone(sc: Script, c: Client, inbox: seq<Message>)
    requires ClientInv(sc, c) && ClientTurn(sc.c, sc.mac, c, inbox, false).Blocked? && c.state != ClientOk
    requires sc.ItemAt(ClientPosition(sc, c)).None?
    ensures !sc.c.resumed && ClientPosition(sc, c) < 6 && sc.ItemAt(6) == Some((ServerSide, ServerHelloDone))
  {
    hide Script.ItemAt, Script.Prefix, Hashed, OfSide, ChannelInv;
    if !(c.state.CwFlush? || c.state.FinishClientHandshake?) {
      ClientItem(sc, c);
    }
    if !sc.c.resumed {
      DoneItem(sc);
    }
  }

  lemma DoneItem(sc: Script)
    requires !sc.c.resumed
    ensures sc.ItemAt(6) == Some((ServerSide, ServerHelloDone))
  {
    hide Script.Prefix, Hashed;
  }

  lemma ServerExpects(sc: Script, v: Server)
    requires ServerInv(sc, v) && !(v.state.SwFlush? || v.state.ServerOk?) && !sc.c.resumed
    requires sc.ItemAt(ServerPosition(sc, v)).Some? && sc.ItemAt(ServerPosition(sc, v)).value.0 == ClientSide
    ensures ServerPosition(sc, v) == 0 || ServerPosition(sc, v) > 6
  {
    hide Script.ItemAt, Script.Prefix, Hashed, OfSide, ChannelInv;
    ServerItem(sc, v);
  }

  /** Unless both sides have ended, one of them can move. */
  lemma NeverStuck(sc: Script, sys: System)
    requires Inv(sc, sys)
    ensures Over(sys) || CanMove(sc, sys, ClientSide) || CanMove(sc, sys, ServerSide)
  {
    hide ClientInv, ServerInv, ClientTurn, ServerTurn, Script.ItemAt, Script.Position, ClientStage;
    if !CanMove(sc, sys, ClientSide) && !CanMove(sc, sys, ServerSide) && !Over(sys) {
      var c, v := sys.client, sys.server;
      var i, j := ClientPosition(sc, c), ServerPosition(sc, v);
      StepKeeps(sc, sys, Event(ClientSide, false));
      StepKeeps(sc, sys, Event(ServerSide, false));
      ClientWaits(sc, c, sys.toClient);
      ServerWaits(sc, v, sys.toServer);
      if i >= j {
        if v.state != ServerOk {
          ServerBehindMoves(sc, sys);
        } else {
          ClientWaitsNotFinish(sc, c, sys.toClient);
        }
      } else {
        ClientBehindMoves(sc, sys);
      }
    }
  }

  /** A waiting server whose stage the client has passed or is at can read. */
  lemma ServerBehindMoves(sc: Script, sys: System)
    requires Inv(sc, sys) && ClientPosition(sc, sys.client) >= ServerPosition(sc, sys.server)
        && sys.server.state != ServerOk
    requires ClientTurn(sc.c, sc.mac, sys.client, sys.toClient, false).Blocked?
    ensures !ServerTurn(sc.s, sc.mac, sys.server, sys.toServer, false).Blocked?
  {
    hide ClientInv, ServerInv, ClientTurn, ServerTurn, Script.ItemAt, Script.Position, ClientStage;
    var c, v := sys.client, sys.server;
    var i, j := ClientPosition(sc, c), ServerPosition(sc, v);
    if ServerTurn(sc.s, sc.mac, v, sys.toServer, false).Blocked? {
      ClientWaits(sc, c, sys.toClient);
      ServerWaits(sc, v, sys.toServer);
      if j < i {
        assert Messages(sc.Between(j, i)) == [];
        BetweenHas(sc, j, i, j);
      } else if c.state == ClientOk {
        LastItem(sc);
      } else {
        ClientWaitsNotFinish(sc, c, sys.toClient);
        ClientStageItem(sc, c);
      }
    }
  }

  lemma LastItem(sc: Script)
    ensures sc.ItemAt(|sc.Stages()| - 1).None?
  {
  }

  lemma ClientWaitsNotFinish(sc: Script, c: Client, inbox: seq<Message>)
    requires ClientInv(sc, c) && ClientTurn(sc.c, sc.mac, c, inbox, false).Blocked? && c.state != ClientOk
    ensures !(c.state.CwFlush? || c.state.FinishClientHandshake?) && ClientPosition(sc, c) + 1 < |sc.Stages()|
  {
    hide Script.ItemAt, Script.Prefix, Hashed, OfSide, ChannelInv;
    if !(c.state.CwFlush? || c.state.FinishClientHandshake?) {
      ClientItem(sc, c);
    }
  }

  /** A waiting client that is behind the server can read. */
  lemma ClientBehindMoves(sc: Script, sys: System)
    requires Inv(sc, sys) && ClientPosition(sc, sys.client) < ServerPosition(sc, sys.server)
    requires ServerTurn(sc.s, sc.mac, sys.server, sys.toServer, false).Blocked?
    ensures !ClientTurn(sc.c, sc.mac, sys.client, sys.toClient, false).Blocked?
  {
    hide ClientInv, ServerInv, ClientTurn, ServerTurn, Script.ItemAt, Script.Position, ClientStage;
    var c, v := sys.client, sys.server;
    var i, j := ClientPosition(sc, c), ServerPosition(sc, v);
    if ClientTurn(sc.c, sc.mac, c, sys.toClient, false).Blocked? {
      ClientWaits(sc, c, sys.toClient);
      ServerWaits(sc, v, sys.toServer);
      assert c.state != ClientOk;
      assert Messages(sc.Between(i, j)) == [];
      if sc.ItemAt(i).Some? {
        BetweenHas(sc, i, j, i);
      } else {
        ClientWaitsForDone(sc, c, sys.toClient);
        if v.state != ServerOk {
          ServerExpects(sc, v);
        }
        BetweenHas(sc, i, j, 6);
      }
    }
  }

  /** An upper bound of the turns that can still move. */
  function TurnsLeft(sc: Script, sys: System): nat {
    ClientRank(sc.c.resumed, sys.client) + ServerRank(sc.s.resumed, sys.server)
  }

  lemma BlockedStays(sc: Script, sys: System, side: Side)
    ensures Step(sc, sys, Event(side, true)) == Goes(sys, false)
  {
  }

  /** Every turn that moves brings the end nearer. */
  lemma TurnsLeftDecreases(sc: Script, sys: System, e: Event)
    requires Inv(sc, sys)
    ensures var r := Step(sc, sys, e);
            r.Goes? && TurnsLeft(sc, r.sys) + (if r.moved then 1 else 0) <= TurnsLeft(sc, sys)
  {
    hide ClientTurn, ServerTurn, ClientRank, ServerRank, Linked, ChannelInv;
    StepKeeps(sc, sys, e);
    if e.blocked {
      BlockedStays(sc, sys, e.side);
    } else {
      match e.side
      case ClientSide => ClientRankDecreases(sc.c, sc.mac, sys.client, sys.toClient);
      case ServerSide => ServerRankDecreases(sc.s, sc.mac, sys.server, sys.toServer);
    }
  }
}

/** The server's side of a handshake as an object whose fields the loop of `ssl3_accept`
    updates. */
module HandshakeAccept {
  import opened Bytes
  import opened HandshakeScript
  import opened HandshakeMachines
  import opened HandshakeSteps
  import opened HandshakeServerSteps
  import opened HandshakeLoops

  /** The states that write to the flight or flush it. */
  predicate ServerWrites(state: ServerState) {
    match state
    case SwServerHello | SwCert | SwCertStatus | SwKeyExch | SwCertReq | SwServerDone => true
    case SwSessionTicket | SwChange | SwFinished | SwFlush => true
    case _ => false
  }

  class ServerHandshake {
    const k: ServerConfig
    const mac: Mac
    const blocks: nat -> bool
    var state: ServerState
    var next: ServerState
    var peerHasKey: bool
    var ch: Channel
    var inbox: seq<Message>
    var turns: nat
    // All that has been flushed.
    ghost var wire: seq<Message>

    constructor (k: ServerConfig, mac: Mac, blocks: nat -> bool)
      ensures Abs() == Server(SrHelloA, SrHelloA, false, Channel(None, [], [], [], []))
      ensures this.k == k && this.mac == mac && this.blocks == blocks && inbox == [] && wire == [] && turns == 0
    {
      this.k, this.mac, this.blocks := k, mac, blocks;
      state, next, peerHasKey, ch := SrHelloA, SrHelloA, false, Channel(None, [], [], [], []);
      inbox, wire, turns := [], [], 0;
    }

    ghost function Abs(): Server
      reads this
    {
      Server(state, next, peerHasKey, ch)
    }

    ghost predicate Took(t: Turn<Server>, moved: bool, failed: bool, before: Server, unread: seq<Message>,
          written: seq<Message>)
      reads this
    {
      match t
      case Blocked => !moved && !failed && Abs() == before && inbox == unread && wire == written
      case Failed => !moved && failed && Abs() == before && inbox == unread && wire == written
      case Moved(p, rest, flushed) => moved && Abs() == p && inbox == rest && wire == written + flushed
    }

    /** Adds an optional message to the flight and goes on. */
    method SendIf(wanted: bool, m: Message, to: ServerState)
      modifies `state, `ch
      ensures state == to && ch == if wanted then old(ch).Send(m) else old(ch)
    {
      if wanted {
        ch := ch.Send(m);
      }
      state := to;
    }

    /** The states that add one message to the server's first flight, or none if it is not wanted. */
    method WriteHello()
      requires state.SwServerHello? || state.SwCert? || state.SwCertStatus? || state.SwKeyExch? || state.SwCertReq?
      modifies `state, `ch
      ensures Took(ServerTurn(k, mac, old(Abs()), inbox, false), true, false, old(Abs()), inbox, wire)
    {
      hide Channel.Send;
      assert wire + [] == wire;
      match state {
        case SwServerHello => SendIf(true, ServerHello, if k.resumed then SwSessionTicket else SwCert);
        case SwCert => SendIf(k.certAuth, Certificate(false), SwCertStatus);
        case SwCertStatus => SendIf(k.sendsStatus, CertificateStatus, SwKeyExch);
        case SwKeyExch => SendIf(k.keyExchangeRequired || k.pskHint, ServerKeyExchange, SwCertReq);
        case SwCertReq => SendIf(k.certRequest, CertificateRequest, SwServerDone);
      }
    }

    /** The same for its last flight. */
    method WriteTicket()
      requires state.SwSessionTicket? || state.SwChange?
      modifies `state, `ch
      ensures Took(ServerTurn(k, mac, old(Abs()), inbox, false), true, false, old(Abs()), inbox, wire)
    {
      hide Channel.Send;
      assert wire + [] == wire;
      if state.SwSessionTicket? {
        SendIf(k.ticket, NewSessionTicket, SwChange);
      } else {
        SendIf(true, ChangeCipherSpec, SwFinished);
      }
    }

    /** The states that end a flight, and the one that flushes it. */
    method EndFlight()
      requires state.SwServerDone? || state.SwFinished? || state.SwFlush?
      modifies `state, `next, `ch, `wire
      ensures Took(ServerTurn(k, mac, old(Abs()), inbox, false), true, false, old(Abs()), inbox, old(wire))
    {
      hide Channel.Send;
      assert wire + [] == wire;
      match state {
        case SwServerDone =>
          ch := ch.Send(ServerHelloDone);
          next := SrCert;
          state := SwFlush;
        case SwFinished =>
          ch := ch.Send(Finished(mac(ServerSide, ch.transcript)));
          state := SwFlush;
          next := if k.resumed then SrChange else ServerOk;
        case SwFlush =>
          wire := wire + ch.pending;
          ch := ch.(pending := []);
          state := next;
      }
    }

    /** Reads the message that must come. */
    method ReadOne(m: Message, to: ServerState) returns (moved: bool, failed: bool)
      modifies `state, `ch, `inbox
      ensures Took(SExpect(old(Abs()), m, to, old(inbox)), moved, failed, old(Abs()), old(inbox), wire)
    {
      assert wire + [] == wire;
      match GetMessage(ch, inbox)
      case NoMessage => return false, false;
      case NotAMessage => return false, true;
      case Got(got, rest) =>
        if got != m {
          return false, true;
        }
        inbox := rest;
        ch := ch.Accept(m);
        state := to;
        return true, false;
    }

    /** The first message is kept while the application decides about it. */
    method ReadHello() returns (moved: bool, failed: bool)
      requires state == SrHelloA
      modifies `state, `ch, `inbox
      ensures Took(ServerTurn(k, mac, old(Abs()), old(inbox), false), moved, failed, old(Abs()), old(inbox), wire)
    {
      assert wire + [] == wire;
      match GetMessage(ch, inbox)
      case NoMessage => return false, false;
      case NotAMessage => return false, true;
      case Got(got, rest) =>
        inbox := rest;
        ch := ch.(held := Some(got));
        state := SrHelloB;
        return true, false;
    }

    /** `ssl3_get_client_certificate` */
    method ReadCertificate() returns (moved: bool, failed: bool)
      modifies `state, `peerHasKey, `ch, `inbox
      ensures Took(ReadClientCertificate(k, old(Abs()), old(inbox)), moved, failed, old(Abs()), old(inbox), wire)
    {
      assert wire + [] == wire;
      match GetMessage(ch, inbox)
      case NoMessage => return false, false;
      case NotAMessage => return false, true;
      case Got(got, rest) =>
        if !got.Certificate? || (got.empty && k.certRequired) {
          return false, true;
        }
        inbox := rest;
        peerHasKey := !got.empty;
        ch := ch.Accept(got);
        state := SrKeyExch;
        return true, false;
    }

    /** The ChangeCipherSpec record. */
    method ReadChange() returns (moved: bool, failed: bool)
      requires state == SrChange
      modifies `state, `ch, `inbox
      ensures Took(ServerTurn(k, mac, old(Abs()), old(inbox), false), moved, failed, old(Abs()), old(inbox), wire)
    {
      assert wire + [] == wire;
      match ReadCcs(inbox)
      case NoMessage => return false, false;
      case NotAMessage => return false, true;
      case Got(m, rest) =>
        inbox := rest;
        ch := ch.(received := ch.received + [m]);
        state := SrNextProto;
        return true, false;
    }

    /** The states that read, or pass over what is not to be read. */
    method Read() returns (moved: bool, failed: bool)
      requires !ServerWrites(state) && state != ServerOk
      modifies `state, `peerHasKey, `ch, `inbox
      ensures Took(ServerTurn(k, mac, old(Abs()), old(inbox), false), moved, failed, old(Abs()), old(inbox), wire)
    {
      hide GetMessage, ReadCcs;
      assert wire + [] == wire;
      moved, failed := true, false;
      match state {
        case SrHelloA => moved, failed := ReadHello();
        case SrHelloB => if ch.held == Some(ClientHello) { state := SrHelloC; } else { moved, failed := false, true; }
        case SrHelloC => state := SrHelloD;
        case SrHelloD =>
          if ch.held.None? {
            moved, failed := false, true;
          } else {
            ch := ch.Accept(ch.held.value);
            state := SwServerHello;
          }
        case SrCert => if k.certRequest { moved, failed := ReadCertificate(); } else { state := SrKeyExch; }
        case SrKeyExch => moved, failed := ReadOne(ClientKeyExchange, SrCertVrfy);
        case SrCertVrfy =>
          if peerHasKey { moved, failed := ReadOne(CertificateVerify, SrChange); } else { state := SrChange; }
        case SrChange => moved, failed := ReadChange();
        case SrNextProto =>
          if k.npn { moved, failed := ReadOne(NextProtocol, SrChannelId); } else { state := SrChannelId; }
        case SrChannelId =>
          if k.channelId { moved, failed := ReadOne(ChannelId, SrFinished); } else { state := SrFinished; }
        case SrFinished =>
          moved, failed := ReadOne(
            Finished(mac(ClientSide, ch.transcript)), if k.resumed then ServerOk else SwSessionTicket);
      }
    }

    /** One turn of the loop. */
    method TakeTurn() returns (moved: bool, failed: bool)
      requires state != ServerOk
      modifies `state, `next, `peerHasKey, `ch, `inbox, `wire
      ensures Took(ServerTurn(k, mac, old(Abs()), old(inbox), false), moved, failed, old(Abs()), old(inbox), old(wire))
    {
      hide ServerTurn;
      moved, failed := true, false;
      if state.SwServerDone? || state.SwFinished? || state.SwFlush? {
        EndFlight();
      } else if state.SwSessionTicket? || state.SwChange? {
        WriteTicket();
      } else if ServerWrites(state) {
        WriteHello();
      } else {
        moved, failed := Read();
      }
    }

    /** `ssl3_accept` */
    method Accept() returns (ret: Ret)
      requires ServerControl(k.resumed, Abs())
      modifies this
      ensures var e := ServerLoop(k, mac, old(Abs()), old(inbox), blocks, old(turns));
              Abs() == e.peer && inbox == e.inbox && wire == old(wire) + e.flushed && turns == e.turns && ret == e.ret
    {
      hide ServerTurn, ServerRank, ServerControl, ServerLoop, Remains;
      ghost var goal, start := ServerLoop(k, mac, Abs(), inbox, blocks, turns), wire;
      ghost var flushed: seq<Message> := [];
      RemainsAll(goal);
      while state != ServerOk
        invariant ServerControl(k.resumed, Abs()) && wire == start + flushed
        invariant Remains(goal, flushed, ServerLoop(k, mac, Abs(), inbox, blocks, turns))
        decreases ServerRank(k.resumed, Abs())
      {
        ghost var p, unread, n := Abs(), inbox, turns;
        ServerLoopTurn(k, mac, p, unread, blocks, n);
        ghost var e, t := ServerLoop(k, mac, p, unread, blocks, n), ServerTurn(k, mac, p, unread, false);
        turns := turns + 1;
        if blocks(turns - 1) {
          RemainsNothing(goal, flushed, e);
          return Retry;
        }
        var moved, failed := TakeTurn();
        if !moved {
          RemainsNothing(goal, flushed, e);
          return if failed then Fatal else Retry;
        }
        RemainsLess(goal, flushed, e, t.flushed, ServerLoop(k, mac, t.peer, t.inbox, blocks, n + 1));
        assert (start + flushed) + t.flushed == start + (flushed + t.flushed);
        flushed := flushed + t.flushed;
      }
      ServerLoopOver(k, mac, Abs(), inbox, blocks, turns);
      RemainsNothing(goal, flushed, ServerLoop(k, mac, Abs(), inbox, blocks, turns));
      return Complete;
    }
  }
}

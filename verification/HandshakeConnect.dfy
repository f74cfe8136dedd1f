/** The client's side of a handshake as an object whose fields the loop of `ssl3_connect`
    updates. */
module HandshakeConnect {
  import opened Bytes
  import opened HandshakeScript
  import opened HandshakeMachines
  import opened HandshakeSteps
  import opened HandshakeServerSteps
  import opened HandshakeLoops

  /** The states that write to the flight or flush it. */
  predicate ClientWrites(state: ClientState) {
    match state
    case CwClientHello | CwCert | CwKeyExch | CwCertVrfy | CwChange | CwNextProto | CwChannelId => true
    case CwFinished | CwFlush => true
    case _ => false
  }

  class ClientHandshake {
    const k: ClientConfig
    const mac: Mac
    const blocks: nat -> bool
    var state: ClientState
    var next: ClientState
    var certRequest: bool
    var ch: Channel
    var inbox: seq<Message>
    var turns: nat
    // All that has been flushed.
    ghost var wire: seq<Message>

    constructor (k: ClientConfig, mac: Mac, blocks: nat -> bool)
      ensures Abs() == Client(CwClientHello, CwClientHello, false, Channel(None, [], [], [], []))
      ensures this.k == k && this.mac == mac && this.blocks == blocks && inbox == [] && wire == [] && turns == 0
    {
      this.k, this.mac, this.blocks := k, mac, blocks;
      state, next, certRequest, ch := CwClientHello, CwClientHello, false, Channel(None, [], [], [], []);
      inbox, wire, turns := [], [], 0;
    }

    ghost function Abs(): Client
      reads this
    {
      Client(state, next, certRequest, ch)
    }

    /** What a turn does to the object, or that it leaves everything as it was. */
    ghost predicate Took(t: Turn<Client>, moved: bool, failed: bool, before: Client, unread: seq<Message>,
          written: seq<Message>)
      reads this
    {
      match t
      case Blocked => !moved && !failed && Abs() == before && inbox == unread && wire == written
      case Failed => !moved && failed && Abs() == before && inbox == unread && wire == written
      case Moved(p, rest, flushed) => moved && Abs() == p && inbox == rest && wire == written + flushed
    }

    /** Adds an optional message to the flight and goes on. */
    method SendIf(wanted: bool, m: Message, to: ClientState)
      modifies `state, `ch
      ensures state == to && ch == if wanted then old(ch).Send(m) else old(ch)
    {
      if wanted {
        ch := ch.Send(m);
      }
      state := to;
    }

    /** The states that add one message to the flight, or none if it is not wanted. */
    method Write()
      requires ClientWrites(state) && !(state.CwClientHello? || state.CwFinished? || state.CwFlush?)
      modifies `state, `ch
      ensures Took(ClientTurn(k, mac, old(Abs()), inbox, false), true, false, old(Abs()), inbox, wire)
    {
      hide Channel.Send;
      assert wire + [] == wire;
      match state {
        case CwCert => SendIf(certRequest, Certificate(!k.hasCertificate), CwKeyExch);
        case CwKeyExch => SendIf(true, ClientKeyExchange, CwCertVrfy);
        case CwCertVrfy => SendIf(certRequest && k.hasCertificate, CertificateVerify, CwChange);
        case CwChange => SendIf(true, ChangeCipherSpec, CwNextProto);
        case CwNextProto => SendIf(k.npn, NextProtocol, CwChannelId);
        case CwChannelId => SendIf(k.channelId, ChannelId, CwFinished);
      }
    }

    /** The states that end a flight, and the one that flushes it. */
    method EndFlight()
      requires state.CwClientHello? || state.CwFinished? || state.CwFlush?
      modifies `state, `next, `ch, `wire
      ensures Took(ClientTurn(k, mac, old(Abs()), inbox, false), true, false, old(Abs()), inbox, old(wire))
    {
      hide Channel.Send;
      assert wire + [] == wire;
      match state {
        case CwClientHello =>
          ch := ch.Send(ClientHello);
          next := CrServerHello;
          state := CwFlush;
        case CwFinished =>
          ch := ch.Send(Finished(mac(ClientSide, ch.transcript)));
          state := CwFlush;
          next := if k.resumed then FinishClientHandshake else CrSessionTicket;
        case CwFlush =>
          wire := wire + ch.pending;
          ch := ch.(pending := []);
          state := next;
      }
    }

    /** Reads the message that must come. */
    method ReadOne(m: Message, to: ClientState) returns (moved: bool, failed: bool)
      modifies `state, `ch, `inbox
      ensures Took(Expect(old(Abs()), m, to, old(inbox)), moved, failed, old(Abs()), old(inbox), wire)
    {
      assert wire + [] == wire;
      match GetMessage(ch, inbox)
      case NoMessage => return false, false;
      case NotAMessage => return false, true;
      case Got(got, rest) =>
        if got != m {
          return false, true;
        }
        inbox := rest;
        ch := ch.Accept(m);
        state := to;
        return true, false;
    }

    /** Reads a message; if it is not the optional one it is kept to be looked at again. */
    method ReadOptional(m: Message, to: ClientState) returns (moved: bool, failed: bool)
      modifies `state, `ch, `inbox
      ensures Took(Peek(old(Abs()), m, to, old(inbox)), moved, failed, old(Abs()), old(inbox), wire)
    {
      assert wire + [] == wire;
      match GetMessage(ch, inbox)
      case NoMessage => return false, false;
      case NotAMessage => return false, true;
      case Got(got, rest) =>
        inbox := rest;
        if got == m {
          ch := ch.Accept(m);
        } else {
          ch := ch.(held := Some(got));
        }
        state := to;
        return true, false;
    }

    /** `ssl3_get_certificate_request` */
    method ReadRequest() returns (moved: bool, failed: bool)
      modifies `state, `certRequest, `ch, `inbox
      ensures Took(ReadCertRequest(old(Abs()), old(inbox)), moved, failed, old(Abs()), old(inbox), wire)
    {
      assert wire + [] == wire;
      match GetMessage(ch, inbox)
      case NoMessage => return false, false;
      case NotAMessage => return false, true;
      case Got(got, rest) =>
        if got == ServerHelloDone {
          ch := ch.(held := Some(got));
        } else if got == CertificateRequest {
          certRequest := true;
          ch := ch.Accept(got);
        } else {
          return false, true;
        }
        inbox := rest;
        state := CrServerDone;
        return true, false;
    }

    /** The ChangeCipherSpec record. */
    method ReadChange() returns (moved: bool, failed: bool)
      requires state == CrChange
      modifies `state, `ch, `inbox
      ensures Took(ClientTurn(k, mac, old(Abs()), old(inbox), false), moved, failed, old(Abs()), old(inbox), wire)
    {
      assert wire + [] == wire;
      match ReadCcs(inbox)
      case NoMessage => return false, false;
      case NotAMessage => return false, true;
      case Got(m, rest) =>
        inbox := rest;
        ch := ch.(received := ch.received + [m]);
        state := CrFinished;
        return true, false;
    }

    /** The states that read, or pass over what is not to be read. */
    method Read() returns (moved: bool, failed: bool)
      requires !ClientWrites(state) && state != ClientOk
      modifies `state, `certRequest, `ch, `inbox
      ensures Took(ClientTurn(k, mac, old(Abs()), old(inbox), false), moved, failed, old(Abs()), old(inbox), wire)
    {
      hide GetMessage, ReadCcs;
      assert wire + [] == wire;
      moved, failed := true, false;
      match state {
        case CrServerHello => moved, failed := ReadOne(ServerHello, if k.resumed then CrSessionTicket else CrCert);
        case CrCert =>
          if k.certAuth { moved, failed := ReadOne(Certificate(false), CrCertStatus); } else { state := CrCertStatus; }
        case CrCertStatus =>
          if k.statusExpected { moved, failed := ReadOptional(CertificateStatus, VerifyServerCert); }
          else { state := VerifyServerCert; }
        case VerifyServerCert => state := CrKeyExch;
        case CrKeyExch =>
          if k.keyExchangeRequired { moved, failed := ReadOne(ServerKeyExchange, CrCertReq); }
          else { moved, failed := ReadOptional(ServerKeyExchange, CrCertReq); }
        case CrCertReq => if k.certAuth { moved, failed := ReadRequest(); } else { state := CrServerDone; }
        case CrServerDone => moved, failed := ReadOne(ServerHelloDone, CwCert);
        case CrSessionTicket =>
          if k.ticket { moved, failed := ReadOne(NewSessionTicket, CrChange); } else { state := CrChange; }
        case CrChange => moved, failed := ReadChange();
        case CrFinished =>
          moved, failed := ReadOne(
            Finished(mac(ServerSide, ch.transcript)), if k.resumed then CwChange else FinishClientHandshake);
        case FinishClientHandshake => state := ClientOk;
      }
    }

    /** One turn of the loop. */
    method TakeTurn() returns (moved: bool, failed: bool)
      requires state != ClientOk
      modifies `state, `next, `certRequest, `ch, `inbox, `wire
      ensures Took(ClientTurn(k, mac, old(Abs()), old(inbox), false), moved, failed, old(Abs()), old(inbox), old(wire))
    {
      hide ClientTurn;
      moved, failed := true, false;
      if state.CwClientHello? || state.CwFinished? || state.CwFlush? {
        EndFlight();
      } else if ClientWrites(state) {
        Write();
      } else {
        moved, failed := Read();
      }
    }

    /** `ssl3_connect` */
    method Connect() returns (ret: Ret)
      requires ClientControl(k.resumed, Abs())
      modifies this
      ensures var e := ClientLoop(k, mac, old(Abs()), old(inbox), blocks, old(turns));
              Abs() == e.peer && inbox == e.inbox && wire == old(wire) + e.flushed && turns == e.turns && ret == e.ret
    {
      hide ClientTurn, ClientRank, ClientControl, ClientLoop, Remains;
      ghost var goal, start := ClientLoop(k, mac, Abs(), inbox, blocks, turns), wire;
      ghost var flushed: seq<Message> := [];
      RemainsAll(goal);
      while state != ClientOk
        invariant ClientControl(k.resumed, Abs()) && wire == start + flushed
        invariant Remains(goal, flushed, ClientLoop(k, mac, Abs(), inbox, blocks, turns))
        decreases ClientRank(k.resumed, Abs())
      {
        ghost var p, unread, n := Abs(), inbox, turns;
        ClientLoopTurn(k, mac, p, unread, blocks, n);
        ghost var e, t := ClientLoop(k, mac, p, unread, blocks, n), ClientTurn(k, mac, p, unread, false);
        turns := turns + 1;
        if blocks(turns - 1) {
          RemainsNothing(goal, flushed, e);
          return Retry;
        }
        var moved, failed := TakeTurn();
        if !moved {
          RemainsNothing(goal, flushed, e);
          return if failed then Fatal else Retry;
        }
        RemainsLess(goal, flushed, e, t.flushed, ClientLoop(k, mac, t.peer, t.inbox, blocks, n + 1));
        assert (start + flushed) + t.flushed == start + (flushed + t.flushed);
        flushed := flushed + t.flushed;
      }
      ClientLoopOver(k, mac, Abs(), inbox, blocks, turns);
      RemainsNothing(goal, flushed, ClientLoop(k, mac, Abs(), inbox, blocks, turns));
      return Complete;
    }
  }
}

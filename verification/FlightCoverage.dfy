/** What a flush puts on the wire: every message cut into contiguous fragments, in
    order, across packets, retries and MTUs. */
module FlightCoverage {
  import opened Bytes
  import opened DtlsRecord
  import opened RecordRuns
  import opened HandshakeWriter
  import Fragment

  /** How far a flight has been written. */
  datatype Position = Position(message: nat, offset: nat)

  ghost function At(f: Flight): (p: Position)
  {
    Position(f.written, f.offset)
  }

  /** The fragment a handshake record carries. */
  ghost function Carried(s: Sealed): (f: Option<Fragment.Fragment>)
  {
    if s.typ != HANDSHAKE then None
    else match Fragment.Parse(s.pt)
      case Malformed => None
      case Parsed(f, rest) => if rest == [] then Some(f) else None
  }

  /** The record is the next piece of the flight. */
  ghost predicate IsNextPiece(messages: seq<OutgoingMessage>, from: Position, s: Sealed)
  {
    && from.message < |messages|
    && var m := messages[from.message];
       if m.isCcs then from.offset == 0 && s.typ == CHANGE_CIPHER_SPEC && s.pt == [1]
       else
         && StoredMessage(m.data).Some? && Carried(s).Some?
         && var whole, f := StoredMessage(m.data).value, Carried(s).value;
            && from.offset + |f.body| <= |whole.body|
            && f == Slice(whole, from.offset, |f.body|)
            && (f.body == [] ==> from.offset == |whole.body|)
  }

  ghost function After(messages: seq<OutgoingMessage>, from: Position, s: Sealed): (to: Position)
    requires IsNextPiece(messages, from, s)
  {
    if messages[from.message].isCcs then Position(from.message + 1, 0)
    else
      var end := from.offset + |Carried(s).value.body|;
      if end == |StoredMessage(messages[from.message].data).value.body| then Position(from.message + 1, 0)
      else Position(from.message, end)
  }

  /** The records take the flight from one position to another, piece after piece. */
  ghost predicate Covers(messages: seq<OutgoingMessage>, from: Position, records: seq<Sealed>, to: Position)
    decreases |records|
  {
    if records == [] then from == to
    else
      IsNextPiece(messages, from, records[0])
      && Covers(messages, After(messages, from, records[0]), records[1..], to)
  }

  lemma {:induction false} CoversJoin(
    messages: seq<OutgoingMessage>, a: Position, left: seq<Sealed>, b: Position, right: seq<Sealed>, c: Position)
    requires Covers(messages, a, left, b) && Covers(messages, b, right, c)
    ensures Covers(messages, a, left + right, c)
    decreases |left|
  {
    hide IsNextPiece, After;
    if left == [] {
      assert left + right == right;
    } else {
      assert (left + right)[1..] == left[1..] + right;
      CoversJoin(messages, After(messages, a, left[0]), left[1..], b, right, c);
    }
  }

  lemma PieceCarried(s: Sealed, whole: Fragment.Fragment, offset: nat, todo: nat)
    requires whole.Encodable() && whole.msgLen == |whole.body| && offset + todo <= |whole.body|
    requires s.typ == HANDSHAKE && s.pt == Fragment.Encode(Slice(whole, offset, todo))
    ensures Carried(s) == Some(Slice(whole, offset, todo))
  {
    Fragment.ParseEncode(Slice(whole, offset, todo), []);
    assert s.pt + [] == s.pt;
  }

  /** What a handshake record made by `seal_next_message` holds. */
  lemma RecordOfMessage(f: Flight, rng: Rng, maxOut: nat) returns (todo: nat)
    requires f.Valid() && Fair(rng) && f.written < |f.messages| && !f.messages[f.written].isCcs
    requires var r := SealNextMessage(f, rng, maxOut).1; r.Complete? || r.Partial?
    ensures var (f', r) := SealNextMessage(f, rng, maxOut);
            var stored := StoredMessage(f.messages[f.written].data);
            && stored.Some? && f.offset + todo <= |stored.value.body|
            && r.record.typ == HANDSHAKE && r.record.pt == Fragment.Encode(Slice(stored.value, f.offset, todo))
            && (todo == 0 ==> f.offset == |stored.value.body|)
            && (r.Complete? <==> f.offset + todo == |stored.value.body|)
            && f'.offset == if r.Complete? then 0 else f.offset + todo
  {
    hide SealRecord, Seal1, StoredMessage;
    var whole := StoredMessage(f.messages[f.written].data).value;
    todo := Todo(|whole.body| - f.offset, maxOut, f.w.Overhead(f.Previous()));
  }

  /** Sealing changes no more of the write state than its counters. */
  lemma OnlyCountersMove(f: Flight, rng: Rng, typ: byte, pt: seq<byte>, maxOut: nat)
    requires f.Valid() && Fair(rng) && f.written < |f.messages|
    ensures var w := Seal1(f, rng, typ, pt, maxOut).0.w; w == f.w.(seqNum := w.seqNum, lastSeqNum := w.lastSeqNum)
  {
    hide Head, NumberBytes;
  }

  /** The epoch, number and cipher of the record are those of the message's epoch. */
  lemma RecordIngredients(f: Flight, rng: Rng, maxOut: nat)
    requires f.Valid() && Fair(rng) && f.written < |f.messages|
    ensures var (f', r) := SealNextMessage(f, rng, maxOut);
            && f'.w == f.w.(seqNum := f'.w.seqNum, lastSeqNum := f'.w.lastSeqNum)
            && (r.Complete? || r.Partial? ==>
                  && r.record.number == Number(f.w.UsedEpoch(f.Previous()), f.w.UsedSeqNum(f.Previous()))
                  && r.record.cipher == f.w.UsedCipher(f.Previous())
                  && (f.messages[f.written].isCcs ==> r.record.typ == CHANGE_CIPHER_SPEC && r.record.pt == [1])
                  && (!f.messages[f.written].isCcs ==> r.record.typ == HANDSHAKE))
  {
    hide Seal1, StoredMessage, Todo, Slice, Fragment.Encode;
    var m := f.messages[f.written];
    if m.isCcs {
      OnlyCountersMove(f, rng, CHANGE_CIPHER_SPEC, [1], maxOut);
    } else if StoredMessage(m.data).Some? {
      var whole, overhead := StoredMessage(m.data).value, f.w.Overhead(f.Previous());
      if f.offset <= |whole.body| && maxOut >= Fragment.HEADER_LENGTH + 1 + overhead {
        var todo := Todo(|whole.body| - f.offset, maxOut, overhead);
        OnlyCountersMove(f, rng, HANDSHAKE, Fragment.Encode(Slice(whole, f.offset, todo)), maxOut);
      }
    }
  }

  /** One call of `seal_next_message` emits the next piece. */
  lemma MessageCovers(f: Flight, rng: Rng, maxOut: nat)
    requires f.Valid() && Fair(rng) && f.written < |f.messages|
    ensures var (f', r) := SealNextMessage(f, rng, maxOut);
            && (r.Complete? ==> IsNextPiece(f.messages, At(f), r.record)
                                && After(f.messages, At(f), r.record) == Position(f.written + 1, 0) && f'.offset == 0)
            && (r.Partial? ==> IsNextPiece(f.messages, At(f), r.record)
                               && After(f.messages, At(f), r.record) == At(f'))
  {
    hide SealRecord, Seal1, Carried, StoredMessage;
    var r := SealNextMessage(f, rng, maxOut).1;
    if !f.messages[f.written].isCcs && (r.Complete? || r.Partial?) {
      var todo := RecordOfMessage(f, rng, maxOut);
      PieceCarried(r.record, StoredMessage(f.messages[f.written].data).value, f.offset, todo);
    }
  }

  lemma CoversCons(
    messages: seq<OutgoingMessage>, a: Position, s: Sealed, b: Position, records: seq<Sealed>, c: Position)
    requires IsNextPiece(messages, a, s) && After(messages, a, s) == b && Covers(messages, b, records, c)
    ensures Covers(messages, a, [s] + records, c)
  {
    assert ([s] + records)[1..] == records;
  }

  lemma {:induction false} PacketCovers(f: Flight, rng: Rng, maxOut: nat)
    requires f.Valid() && Fair(rng)
    ensures var (f', records) := FillPacket(f, rng, maxOut);
            records.Some? ==> Covers(f.messages, At(f), records.value, At(f'))
    decreases |f.messages| - f.written
  {
    hide SealNextMessage, IsNextPiece, After, PacketOf, AllValid;
    if f.written < |f.messages| {
      MessageCovers(f, rng, maxOut);
      var (f', r) := SealNextMessage(f, rng, maxOut);
      if r.Complete? {
        var next, room := f'.(written := f.written + 1), maxOut - |r.record.Bytes()|;
        PacketCovers(next, rng, room);
        var (last, rest) := FillPacket(next, rng, room);
        if rest.Some? {
          CoversCons(f.messages, At(f), r.record, At(next), rest.value, At(last));
        }
      } else if r.Partial? {
        CoversCons(f.messages, At(f), r.record, At(f'), [], At(f'));
        assert [r.record] + [] == [r.record];
      }
    }
  }

  ghost function Flatten(packets: seq<seq<Sealed>>): (records: seq<Sealed>)
  {
    if packets == [] then [] else packets[0] + Flatten(packets[1..])
  }

  /** Over a whole flush, the packets the transport took cover the flight exactly from
      where it started to where it stopped: nothing is skipped, repeated or reordered,
      and after a refused write it stopped at the start of the refused packet. */
  lemma {:induction false} FlushCovers(f: Flight, rng: Rng, mtu: nat, bio: nat -> int, k: nat)
    requires f.Valid() && Fair(rng)
    ensures var (f', packets, result) := Flush(f, rng, mtu, bio, k);
            !result.Failed? ==> Covers(f.messages, At(f), Flatten(packets), At(f'))
    decreases |f.messages| - f.written, BytesLeft(f)
  {
    if f.written < |f.messages| {
      var (f', packet) := SealNextPacket(f, rng, mtu);
      if packet.Some? && bio(k) > 0 {
        PacketMakesProgress(f, rng, mtu);
        PacketCovers(f, rng, mtu);
        FlushCovers(f', rng, mtu, bio, k + 1);
        var (last, packets, result) := Flush(f', rng, mtu, bio, k + 1);
        assert ([packet.value] + packets)[1..] == packets;
        if !result.Failed? {
          CoversJoin(f.messages, At(f), packet.value, At(f'), Flatten(packets), At(last));
        }
      }
    }
  }

  // ------------------------------------------------------------ the bytes of one message

  /** What a record contributes to the message with a sequence number. */
  ghost function Contribution(s: Sealed, seqNum: nat): (b: Option<seq<byte>>)
  {
    if Carried(s).Some? && Carried(s).value.seqNum == seqNum then Some(Carried(s).value.body) else None
  }

  /** The bodies of all fragments that carry a sequence number, in wire order. */
  ghost function BytesOnWire(records: seq<Sealed>, seqNum: nat): (s: seq<byte>)
  {
    if records == [] then []
    else
      var b := Contribution(records[0], seqNum);
      (if b.Some? then b.value else []) + BytesOnWire(records[1..], seqNum)
  }

  ghost function FragmentsOnWire(records: seq<Sealed>, seqNum: nat): (n: nat)
  {
    if records == [] then 0
    else (if Contribution(records[0], seqNum).Some? then 1 else 0) + FragmentsOnWire(records[1..], seqNum)
  }

  ghost predicate IsMessage(messages: seq<OutgoingMessage>, i: nat)
  {
    i < |messages| && !messages[i].isCcs && StoredMessage(messages[i].data).Some?
  }

  ghost function Whole(messages: seq<OutgoingMessage>, i: nat): (m: Fragment.Fragment)
    requires IsMessage(messages, i)
  {
    StoredMessage(messages[i].data).value
  }

  /** Message `i` of the flight is a handshake message and no other has its number. */
  ghost predicate OnlyOne(messages: seq<OutgoingMessage>, i: nat)
  {
    && IsMessage(messages, i)
    && forall j | j != i && IsMessage(messages, j) :: Whole(messages, j).seqNum != Whole(messages, i).seqNum
  }

  /** How much of message `i` lies before a position. */
  ghost function Before(messages: seq<OutgoingMessage>, i: nat, p: Position): (n: nat)
    requires IsMessage(messages, i)
  {
    if p.message < i then 0 else if p.message > i then |Whole(messages, i).body| else p.offset
  }

  lemma OnlyHandshakeCarries(s: Sealed)
    ensures s.typ != HANDSHAKE ==> Carried(s).None?
  {
  }

  lemma PieceContribution(messages: seq<OutgoingMessage>, from: Position, s: Sealed, i: nat)
    requires OnlyOne(messages, i) && IsNextPiece(messages, from, s)
    ensures var whole, to := Whole(messages, i), After(messages, from, s);
            var b := Contribution(s, whole.seqNum);
            && (b.Some? <==> from.message == i)
            && Before(messages, i, from) <= Before(messages, i, to) <= |whole.body|
            && whole.body[..Before(messages, i, from)] + (if b.Some? then b.value else [])
               == whole.body[..Before(messages, i, to)]
  {
    OnlyHandshakeCarries(s);
    hide Carried, StoredMessage;
    if !messages[from.message].isCcs {
      assert IsMessage(messages, from.message);
    }
    var body, a := Whole(messages, i).body, Before(messages, i, from);
    if from.message == i {
      var b := a + |Carried(s).value.body|;
      assert body[..a] + body[a..b] == body[..b];
    } else {
      assert body[..a] + [] == body[..a];
    }
  }

  /** The fragments of a message that lie between two positions of the flight, put side
      by side in wire order, are exactly the bytes of its body between them. */
  lemma {:induction false} FragmentsAreContiguous(
    messages: seq<OutgoingMessage>, from: Position, records: seq<Sealed>, to: Position, i: nat)
    requires OnlyOne(messages, i) && Covers(messages, from, records, to)
    requires Before(messages, i, from) <= |Whole(messages, i).body|
    ensures var whole := Whole(messages, i);
            && Before(messages, i, from) <= Before(messages, i, to) <= |whole.body|
            && whole.body[..Before(messages, i, from)] + BytesOnWire(records, whole.seqNum)
               == whole.body[..Before(messages, i, to)]
    decreases |records|
  {
    var whole := Whole(messages, i);
    hide IsNextPiece, After, Before, Contribution, Whole, OnlyOne;
    if records == [] {
      assert whole.body[..Before(messages, i, from)] + [] == whole.body[..Before(messages, i, from)];
    } else {
      PieceContribution(messages, from, records[0], i);
      FragmentsAreContiguous(messages, After(messages, from, records[0]), records[1..], to, i);
      var b := Contribution(records[0], whole.seqNum);
      var piece := if b.Some? then b.value else [];
      Associate(whole.body[..Before(messages, i, from)], piece, BytesOnWire(records[1..], whole.seqNum));
    }
  }

  lemma Associate(a: seq<byte>, b: seq<byte>, c: seq<byte>)
    ensures a + (b + c) == (a + b) + c
  {
  }

  lemma {:induction false} NoMoreFragments(
    messages: seq<OutgoingMessage>, from: Position, records: seq<Sealed>, to: Position, i: nat)
    requires OnlyOne(messages, i) && Covers(messages, from, records, to) && from.message > i
    ensures FragmentsOnWire(records, Whole(messages, i).seqNum) == 0
    decreases |records|
  {
    if records != [] {
      PieceContribution(messages, from, records[0], i);
      NoMoreFragments(messages, After(messages, from, records[0]), records[1..], to, i);
    }
  }

  lemma {:induction false} EmptyBodyOneFragment(
    messages: seq<OutgoingMessage>, from: Position, records: seq<Sealed>, to: Position, i: nat)
    requires OnlyOne(messages, i) && Whole(messages, i).body == []
    requires Covers(messages, from, records, to) && from.message <= i < to.message
    requires from.message == i ==> from.offset == 0
    ensures FragmentsOnWire(records, Whole(messages, i).seqNum) == 1
    decreases |records|
  {
    PieceContribution(messages, from, records[0], i);
    var next := After(messages, from, records[0]);
    if from.message == i {
      NoMoreFragments(messages, next, records[1..], to, i);
    } else {
      EmptyBodyOneFragment(messages, next, records[1..], to, i);
    }
  }

  /** A complete flush of a flight: each message's body is on the wire exactly once,
      and an empty body has exactly one fragment. */
  lemma FlushSendsEveryMessageOnce(f: Flight, rng: Rng, mtu: nat, bio: nat -> int, i: nat)
    requires f.Valid() && Fair(rng) && At(f) == Position(0, 0) && OnlyOne(f.messages, i)
    ensures var (f', packets, result) := Flush(f, rng, mtu, bio, 0);
            var whole := Whole(f.messages, i);
            result.Flushed? ==>
              && BytesOnWire(Flatten(packets), whole.seqNum) == whole.body
              && (whole.body == [] ==> FragmentsOnWire(Flatten(packets), whole.seqNum) == 1)
  {
    FlushCovers(f, rng, mtu, bio, 0);
    var (f', packets, result) := Flush(f, rng, mtu, bio, 0);
    if result.Flushed? {
      var whole := Whole(f.messages, i);
      FragmentsAreContiguous(f.messages, At(f), Flatten(packets), At(f'), i);
      assert whole.body[..0] + BytesOnWire(Flatten(packets), whole.seqNum)
          == BytesOnWire(Flatten(packets), whole.seqNum);
      assert whole.body[..|whole.body|] == whole.body;
      if whole.body == [] {
        EmptyBodyOneFragment(f.messages, At(f), Flatten(packets), At(f'), i);
      }
    }
  }
}

/** What a complete flush achieves: if its packets arrive, in whatever order and however
    often, the messages it carries become complete. */
module DeliveryComplete {
  import opened Bytes
  import opened Aead
  import opened ReplayWindow
  import opened DtlsRecord
  import opened RecordRuns
  import opened HandshakeWriter
  import opened FlightCoverage
  import opened Reassembly
  import opened HandshakeReader
  import opened Delivery
  import Fragment

  // ------------------------------------------------------------ what a flush seals

  /** Is a message sent in the epoch before the current one? */
  ghost predicate SentEarlier(messages: seq<OutgoingMessage>, w: WriteState, i: nat)
  {
    w.epoch == 1 && i < |messages| && messages[i].epoch == 0
  }

  /** The record has the version, the epoch and the next number of a write state. */
  ghost predicate NumberedBy(w: WriteState, previous: bool, s: Sealed)
    requires w.Valid() && (previous ==> w.epoch == 1)
  {
    && s.version == w.WireVersion() && w.UsedSeqNum(previous) + 1 < TWO_48
    && s.number == Number(w.UsedEpoch(previous), w.UsedSeqNum(previous))
  }

  /** The records take the flight from one position to another, each under the next number
      of its epoch. */
  ghost predicate Sent(messages: seq<OutgoingMessage>, w: WriteState, from: Position, records: seq<Sealed>,
        to: Position, w': WriteState)
    requires w.Valid()
    decreases |records|
  {
    if records == [] then from == to && w == w'
    else
      && IsNextPiece(messages, from, records[0])
      && var previous := SentEarlier(messages, w, from.message);
         && NumberedBy(w, previous, records[0])
         && Sent(messages, w.Advanced(previous), After(messages, from, records[0]), records[1..], to, w')
  }

  lemma MessageSent(f: Flight, rng: Rng, maxOut: nat)
    requires f.Valid() && Fair(rng) && f.written < |f.messages|
    ensures var (f', r) := SealNextMessage(f, rng, maxOut);
            r.Complete? || r.Partial? ==>
              NumberedBy(f.w, f.Previous(), r.record) && f'.w == f.w.Advanced(f.Previous())
  {
    hide StoredMessage, Todo, Slice, Fragment.Encode, Head, NumberBytes, Seal;
  }

  lemma SentCons(messages: seq<OutgoingMessage>, w: WriteState, a: Position, s: Sealed, b: Position,
        records: seq<Sealed>, c: Position, w': WriteState)
    requires w.Valid() && IsNextPiece(messages, a, s) && After(messages, a, s) == b
    requires NumberedBy(w, SentEarlier(messages, w, a.message), s)
    requires Sent(messages, w.Advanced(SentEarlier(messages, w, a.message)), b, records, c, w')
    ensures Sent(messages, w, a, [s] + records, c, w')
  {
    hide IsNextPiece, After, NumberedBy;
    assert ([s] + records)[1..] == records;
  }

  lemma {:induction false} SentJoin(messages: seq<OutgoingMessage>, w: WriteState, a: Position, left: seq<Sealed>,
        b: Position, w': WriteState, right: seq<Sealed>, c: Position, w'': WriteState)
    requires w.Valid() && w'.Valid() && Sent(messages, w, a, left, b, w') && Sent(messages, w', b, right, c, w'')
    ensures Sent(messages, w, a, left + right, c, w'')
    decreases |left|
  {
    hide IsNextPiece, After, NumberedBy;
    if left == [] {
      assert left + right == right;
    } else {
      assert (left + right)[1..] == left[1..] + right;
      var previous := SentEarlier(messages, w, a.message);
      SentJoin(messages, w.Advanced(previous), After(messages, a, left[0]), left[1..], b, w', right, c, w'');
    }
  }

  lemma {:induction false} PacketSent(f: Flight, rng: Rng, maxOut: nat)
    requires f.Valid() && Fair(rng)
    ensures var (f', records) := FillPacket(f, rng, maxOut);
            records.Some? ==> Sent(f.messages, f.w, At(f), records.value, At(f'), f'.w)
    decreases |f.messages| - f.written
  {
    hide SealNextMessage, IsNextPiece, After, NumberedBy, PacketOf, AllValid;
    if f.written < |f.messages| {
      MessageCovers(f, rng, maxOut);
      MessageSent(f, rng, maxOut);
      var (f', r) := SealNextMessage(f, rng, maxOut);
      if r.Complete? {
        var next, room := f'.(written := f.written + 1), maxOut - |r.record.Bytes()|;
        PacketSent(next, rng, room);
        var (last, rest) := FillPacket(next, rng, room);
        if rest.Some? {
          SentCons(f.messages, f.w, At(f), r.record, At(next), rest.value, At(last), last.w);
        }
      } else if r.Partial? {
        SentCons(f.messages, f.w, At(f), r.record, At(f'), [], At(f'), f'.w);
        assert [r.record] + [] == [r.record];
      }
    }
  }

  lemma {:induction false} FlushSent(f: Flight, rng: Rng, mtu: nat, bio: nat -> int, k: nat)
    requires f.Valid() && Fair(rng)
    ensures var (f', packets, result) := Flush(f, rng, mtu, bio, k);
            result.Flushed? ==> Sent(f.messages, f.w, At(f), Flatten(packets), At(f'), f'.w)
    decreases |f.messages| - f.written, BytesLeft(f)
  {
    hide Sent, FillPacket, BytesLeft;
    if f.written < |f.messages| {
      var (f', packet) := SealNextPacket(f, rng, mtu);
      if packet.Some? && bio(k) > 0 {
        PacketMakesProgress(f, rng, mtu);
        PacketSent(f, rng, mtu);
        FlushSent(f', rng, mtu, bio, k + 1);
        var (last, packets, result) := Flush(f', rng, mtu, bio, k + 1);
        assert ([packet.value] + packets)[1..] == packets;
        if result.Flushed? {
          SentJoin(f.messages, f.w, At(f), packet.value, At(f'), f'.w, Flatten(packets), At(last), last.w);
        }
      }
    } else {
      NothingSent(f.messages, f.w, At(f));
    }
  }

  lemma NothingSent(messages: seq<OutgoingMessage>, w: WriteState, p: Position)
    requires w.Valid()
    ensures Sent(messages, w, p, [], p, w)
  {
  }

  /** A piece of message `i` that holds byte `b` of its body; of an empty body, the piece. */
  ghost predicate Holds(messages: seq<OutgoingMessage>, w: WriteState, s: Sealed, i: nat, b: nat)
    requires IsMessage(messages, i)
  {
    && Carried(s).Some?
    && var f, whole := Carried(s).value, Whole(messages, i);
       && f.seqNum == whole.seqNum && f.msgLen == whole.msgLen && f.fragOff <= b
       && (b < f.fragOff + |f.body| || whole.body == [])
       && s.number / TWO_48 == w.UsedEpoch(SentEarlier(messages, w, i))
  }

  /** Every byte of every message has been sent, in the message's epoch. */
  lemma {:induction false} ByteSent(messages: seq<OutgoingMessage>, w: WriteState, from: Position,
        records: seq<Sealed>, to: Position, w': WriteState, i: nat, b: nat) returns (k: nat)
    requires w.Valid() && IsMessage(messages, i) && Sent(messages, w, from, records, to, w')
    requires from.message < i || (from.message == i && from.offset <= b)
    requires to.message > i && (b < |Whole(messages, i).body| || (b == 0 && Whole(messages, i).body == []))
    ensures k < |records| && Holds(messages, w, records[k], i, b)
    decreases |records|
  {
    hide Carried, StoredMessage;
    var previous := SentEarlier(messages, w, from.message);
    var next := After(messages, from, records[0]);
    if from.message == i && (next.message > i || b < next.offset) {
      k := 0;
    } else {
      k := ByteSent(messages, w.Advanced(previous), next, records[1..], to, w', i, b);
      k := k + 1;
    }
  }

  /** The next number of the first epoch. */
  function FirstEpochNext(w: WriteState): nat {
    if w.epoch == 1 then w.lastSeqNum else w.seqNum
  }

  lemma NumberTaken(w: WriteState, previous: bool, s: Sealed)
    requires w.Valid() && (previous ==> w.epoch == 1) && NumberedBy(w, previous, s)
    ensures w.Advanced(previous).Valid() && w.Advanced(previous).WireVersion() == s.version == w.WireVersion()
    ensures if s.number / TWO_48 == 0
            then s.number == FirstEpochNext(w) && FirstEpochNext(w.Advanced(previous)) == s.number + 1
            else FirstEpochNext(w.Advanced(previous)) == FirstEpochNext(w)
  {
  }

  lemma {:induction false} CountersAdvance(messages: seq<OutgoingMessage>, w: WriteState, from: Position,
        records: seq<Sealed>, to: Position, w': WriteState)
    requires w.Valid() && Sent(messages, w, from, records, to, w')
    ensures w'.Valid() && FirstEpochNext(w) <= FirstEpochNext(w')
    decreases |records|
  {
    hide IsNextPiece, After, NumberedBy, FirstEpochNext, WriteState.Advanced, WriteState.WireVersion, WriteState.Valid;
    if records != [] {
      var previous := SentEarlier(messages, w, from.message);
      NumberTaken(w, previous, records[0]);
      CountersAdvance(messages, w.Advanced(previous), After(messages, from, records[0]), records[1..], to, w');
    }
  }

  /** The numbers of the first epoch in a flush are the next ones, */
  lemma {:induction false} NumberSent(messages: seq<OutgoingMessage>, w: WriteState, from: Position,
        records: seq<Sealed>, to: Position, w': WriteState, s: Sealed)
    requires w.Valid() && Sent(messages, w, from, records, to, w') && s in records
    ensures s.version == w.WireVersion()
    ensures s.number / TWO_48 == 0 ==> FirstEpochNext(w) <= s.number < FirstEpochNext(w')
    decreases |records|
  {
    hide IsNextPiece, After, NumberedBy, FirstEpochNext, WriteState.Advanced, WriteState.WireVersion, WriteState.Valid;
    var previous := SentEarlier(messages, w, from.message);
    NumberTaken(w, previous, records[0]);
    var next := After(messages, from, records[0]);
    CountersAdvance(messages, w.Advanced(previous), next, records[1..], to, w');
    if s in records[1..] {
      NumberSent(messages, w.Advanced(previous), next, records[1..], to, w', s);
    }
  }

  /** each once. */
  lemma {:induction false} NumbersDiffer(messages: seq<OutgoingMessage>, w: WriteState, from: Position,
        records: seq<Sealed>, to: Position, w': WriteState, s: Sealed, t: Sealed)
    requires w.Valid() && Sent(messages, w, from, records, to, w') && s in records && t in records
    requires s.number == t.number && s.number / TWO_48 == 0
    ensures s == t
    decreases |records|
  {
    hide IsNextPiece, After, NumberedBy, FirstEpochNext, WriteState.Advanced, WriteState.WireVersion, WriteState.Valid;
    var previous := SentEarlier(messages, w, from.message);
    NumberTaken(w, previous, records[0]);
    var later, next := w.Advanced(previous), After(messages, from, records[0]);
    if s in records[1..] {
      NumberSent(messages, later, next, records[1..], to, w', s);
    }
    if t in records[1..] {
      NumberSent(messages, later, next, records[1..], to, w', t);
    }
    if s in records[1..] && t in records[1..] {
      NumbersDiffer(messages, later, next, records[1..], to, w', s, t);
    }
  }

  // ------------------------------------------------------------ one record arrives

  /** The ring has what the record carries, unless its message has been released. */
  ghost predicate Has(rc: Receiver, s: Sealed)
    requires |rc.slots| == HandshakeReader.MAX_FLIGHT
  {
    Carried(s).Some? && Carried(s).value.seqNum >= rc.readSeq ==>
      && var f := Carried(s).value;
         var slot := rc.slots[f.seqNum % HandshakeReader.MAX_FLIGHT];
         && slot.Some? && slot.value.seqNum == f.seqNum && slot.value.msgLen == f.msgLen
         && forall j | f.fragOff <= j < f.fragOff + |f.body| && j < f.msgLen :: j in slot.value.got
  }

  lemma AbsorbKeeps(a: Assembly, off: nat, body: seq<byte>)
    ensures var b := Absorb(a, off, body);
            b.msgLen == a.msgLen && b.seqNum == a.seqNum && forall j | j in a.got :: j in b.got
  {
  }

  /** Nothing that the ring has is lost when another fragment comes. */
  lemma FragmentKeeps(rc: Receiver, ctx: ReadContext, f: Fragment.Fragment, s: Sealed)
    requires rc.Valid() && f.Encodable() && Has(rc, s)
    ensures Has(ProcessFragment(rc, ctx, f).0, s)
  {
    hide Carried, Absorb;
    AbsorbKeeps(Slot(rc, f), f.fragOff, f.body);
  }

  lemma AbsorbHas(a: Assembly, off: nat, body: seq<byte>)
    ensures forall j | off <= j < off + |body| && j < a.msgLen :: j in Absorb(a, off, body).got
  {
  }

  /** A genuine fragment of a message that is not too far ahead does not fail, and the ring
      has it afterwards. */
  lemma FragmentArrives(log: seq<Message>, rc: Receiver, ctx: ReadContext, s: Sealed)
    requires RingOk(log, rc) && Carried(s).Some? && Genuine(log, Carried(s).value) && ctx.epoch == 0
    requires Carried(s).value.Encodable() && Carried(s).value.msgLen <= ctx.maxMessageLen
    requires Carried(s).value.seqNum < rc.readSeq + HandshakeReader.MAX_FLIGHT
    ensures var (next, outcome) := ProcessFragment(rc, ctx, Carried(s).value); outcome == Consumed && Has(next, s)
  {
    hide Carried, Absorb;
    var f := Carried(s).value;
    if f.seqNum >= rc.readSeq {
      SlotHoldsItsMessage(rc, f.seqNum);
      AbsorbKeeps(Slot(rc, f), f.fragOff, f.body);
      AbsorbHas(Slot(rc, f), f.fragOff, f.body);
    }
  }

  /** What a record must be like to get through to a receiver in the first epoch. */
  ghost predicate Deliverable(c: Setup, log: seq<Message>, readSeq: nat, s: Sealed) {
    && GenuineRecord(c, log, s) && (s.typ == CHANGE_CIPHER_SPEC || s.typ == HANDSHAKE)
    && s.version / 256 == 0xfe && |s.Body()| <= MAX_PLAIN_LENGTH
    && (s.number / TWO_48 == 0 && Carried(s).Some? ==>
          && Carried(s).value.seqNum < readSeq + HandshakeReader.MAX_FLIGHT
          && Carried(s).value.msgLen <= c.maxMessageLen)
  }

  /** Opening such a record uses up exactly it: it is taken if its number is new, and
      passed over otherwise. */
  lemma OpenDeliverable(c: Setup, log: seq<Message>, readSeq: nat, r: ReadState, s: Sealed, rest: seq<byte>)
    requires c.Valid() && ReaderOk(c, r) && r.epoch == 0 && Deliverable(c, log, readSeq, s)
    requires r.haveVersion ==> r.version == s.version
    ensures OpenRecord(r, s.Bytes() + rest) ==
      if s.number / TWO_48 == 0 && !r.window.ShouldDiscard(s.number)
      then Opened(r.(window := r.window.Record(s.number), warningAlerts := 0), Success(s.typ, s.pt),
                  |s.Bytes()|, Some(s.number))
      else Opened(r, Discard, |s.Bytes()|, None)
  {
    hide Carried, Genuine, Window.ShouldDiscard, Window.Record, NumberBytes;
    DecodeSealed(s, r.haveVersion, r.version, rest);
    if s.number / TWO_48 == 0 && !r.window.ShouldDiscard(s.number) {
      assert s.Body() == s.pt;
      OpenSealedRecord(r, s, rest);
    }
  }

  /** What the ring makes of a record that has been taken. */
  lemma RecordReceived(log: seq<Message>, rc: Receiver, ctx: ReadContext, s: Sealed)
    requires RingOk(log, rc) && ctx.epoch == 0 && !ctx.encrypted
    requires (s.typ == CHANGE_CIPHER_SPEC && s.pt == [1]) ||
             (s.typ == HANDSHAKE && Carried(s).Some? && Genuine(log, Carried(s).value))
    requires Carried(s).Some? ==>
      Carried(s).value.seqNum < rc.readSeq + HandshakeReader.MAX_FLIGHT && Carried(s).value.msgLen <= ctx.maxMessageLen
    ensures ContentOf(s.typ).Some?
    ensures var (next, outcome) := ProcessRecord(rc, ctx, ContentOf(s.typ).value, s.pt);
            && !outcome.Failed? && Has(next, s) && next.readSeq == rc.readSeq
            && forall t | Has(rc, t) :: Has(next, t)
  {
    if s.typ == HANDSHAKE {
      var f := Carried(s).value;
      Fragment.EncodeParse(s.pt);
      FragmentArrives(log, rc, ctx, s);
      forall t | Has(rc, t)
        ensures Has(ProcessFragment(rc, ctx, f).0, t)
      {
        FragmentKeeps(rc, ctx, f, t);
      }
      SequenceStays(rc, ctx, f);
      hide ProcessFragment, Genuine, Has, RingOk;
      var next := ProcessFragment(rc, ctx, f).0;
      assert ProcessFragments(next, ctx, []) == (next, Consumed);
    }
  }

  lemma SequenceStays(rc: Receiver, ctx: ReadContext, f: Fragment.Fragment)
    requires |rc.slots| == HandshakeReader.MAX_FLIGHT
    ensures ProcessFragment(rc, ctx, f).0.readSeq == rc.readSeq
  {
  }

  // ------------------------------------------------------------ a whole flush arrives

  /** Records of one flush: they can get through, and their numbers lie within a window. */
  ghost predicate Batch(c: Setup, log: seq<Message>, readSeq: nat, records: seq<Sealed>, low: nat, bound: nat) {
    && bound <= low + WINDOW_SIZE
    && (forall p | p in records ::
        Deliverable(c, log, readSeq, p) && (p.number / TWO_48 == 0 ==> low <= p.number < bound))
    && (forall p, q | p in records && q in records && p.number == q.number && p.number / TWO_48 == 0 :: p == q)
  }

  /** The receiver has what those of them carry whose numbers it has seen. */
  ghost predicate Ready(c: Setup, s: System, records: seq<Sealed>, low: nat) {
    && Inv(c, s) && !s.failed && s.reader.epoch == 0 && s.reader.window.maxSeqNum < low + WINDOW_SIZE
    && (forall p | p in records :: s.reader.haveVersion ==> s.reader.version == p.version)
    && (forall p | p in records && p.number / TWO_48 == 0 && p.number in s.reader.window.recorded :: Has(s.receiver, p))
  }

  /** One more record has been read. */
  ghost predicate OneRead(s: System, s': System) {
    && s.bufferRecords != [] && s'.bufferRecords == s.bufferRecords[1..] && |s'.buffer| < |s.buffer|
    && s'.log == s.log && s'.net == s.net && s'.flight == s.flight && s'.receiver.readSeq == s.receiver.readSeq
    && s.reader.window.recorded <= s'.reader.window.recorded
    && (s.bufferRecords[0].number / TWO_48 == 0 ==> s.bufferRecords[0].number in s'.reader.window.recorded)
  }

  lemma FirstOfPacket(records: seq<Sealed>)
    requires AllValid(records) && PacketOf(records) != []
    ensures records != [] && PacketOf(records) == records[0].Bytes() + PacketOf(records[1..])
    ensures 0 < |records[0].Bytes()| <= |PacketOf(records)|
    ensures |records[0].Bytes()| == |PacketOf(records)| ==> records[1..] == []
  {
    if |records| > 1 {
      assert PacketOf(records[1..]) == records[1].Bytes() + PacketOf(records[1..][1..]);
      assert |records[1].Bytes()| > 0;
    }
  }

  lemma PartsOfInv(c: Setup, s: System)
    requires Inv(c, s)
    ensures c.Valid() && s.flight.Valid() && s.reader.Valid() && s.receiver.Valid() && RingOk(s.log, s.receiver)
    ensures BufferOk(c, s.log, s.buffer, s.bufferRecords) && ReaderOk(c, s.reader)
    ensures s.reader.epoch == 0 ==> s.reader.cipher.None?
  {
  }

  /** What one turn of reading does. */
  lemma ReadStepIs(c: Setup, s: System)
    requires c.Valid() && s.flight.Valid() && s.reader.Valid() && s.receiver.Valid() && !s.failed && s.buffer != []
    ensures var o, t := OpenRecord(s.reader, s.buffer), Step(c, s, ReadHandshake);
            && t.reader == o.state && t.buffer == s.buffer[o.consumed..]
            && (s.bufferRecords != [] ==>
                  t.bufferRecords == if o.consumed == |s.buffer| then [] else s.bufferRecords[1..])
            && t.log == s.log && t.net == s.net && t.flight == s.flight
            && (o.result.Discard? ==> t.receiver == s.receiver && !t.failed)
            && (o.result.Success? && ContentOf(o.result.typ).Some? ==>
                  var ctx := ReadContext(o.state.epoch, o.state.cipher.Some?, c.maxMessageLen);
                  var (receiver, outcome) := ProcessRecord(s.receiver, ctx, ContentOf(o.result.typ).value,
                    o.result.body);
                  t.receiver == receiver && t.failed == outcome.Failed?)
  {
    hide OpenRecord, ProcessRecord, Flight.Valid, Receiver.Valid, ReadState.Valid;
  }

  lemma ReadsItself(c: Setup, s: System, records: seq<Sealed>, low: nat, bound: nat)
    requires Ready(c, s, records, low) && Batch(c, s.log, s.receiver.readSeq, records, low, bound)
    requires s.buffer != [] && forall p | p in s.bufferRecords :: p in records
    ensures s.bufferRecords != []
    ensures var p := s.bufferRecords[0];
            && p in records && Deliverable(c, s.log, s.receiver.readSeq, p)
            && OpenRecord(s.reader, s.buffer) ==
               (if p.number / TWO_48 == 0 && p.number !in s.reader.window.recorded
                then Opened(s.reader.(window := s.reader.window.Record(p.number), warningAlerts := 0),
                            Success(p.typ, p.pt), |p.Bytes()|, Some(p.number))
                else Opened(s.reader, Discard, |p.Bytes()|, None))
  {
    FirstOfPacket(s.bufferRecords);
    var p := s.bufferRecords[0];
    assert p in s.bufferRecords;
    hide OpenRecord, Carried, Genuine, SenderOk, NetworkOk, RingOk, TranscriptOk, Has, GenuineRecord, PacketOf, LogOk;
    OpenDeliverable(c, s.log, s.receiver.readSeq, s.reader, p, PacketOf(s.bufferRecords[1..]));
  }

  /** A record that is passed over. */
  lemma RecordPassedOver(c: Setup, s: System, records: seq<Sealed>, low: nat, bound: nat)
    requires Ready(c, s, records, low) && Batch(c, s.log, s.receiver.readSeq, records, low, bound)
    requires s.buffer != [] && forall p | p in s.bufferRecords :: p in records
    requires s.bufferRecords != [] && var p := s.bufferRecords[0];
             p.number / TWO_48 != 0 || p.number in s.reader.window.recorded
    ensures var t := Step(c, s, ReadHandshake); Ready(c, t, records, low) && OneRead(s, t)
  {
    hide OpenRecord, ProcessRecord, Has, Inv, Deliverable, Sealed.Bytes, Step, RingOk, PacketOf, ReaderOk;
    PartsOfInv(c, s);
    ReadsItself(c, s, records, low, bound);
    ReadHandshakeKeeps(c, s);
    FirstOfPacket(s.bufferRecords);
    ReadStepIs(c, s);
  }

  /** A record that is taken. */
  lemma RecordTaken(c: Setup, s: System, records: seq<Sealed>, low: nat, bound: nat)
    requires Ready(c, s, records, low) && Batch(c, s.log, s.receiver.readSeq, records, low, bound)
    requires s.buffer != [] && forall p | p in s.bufferRecords :: p in records
    requires s.bufferRecords != [] && var p := s.bufferRecords[0];
             p.number / TWO_48 == 0 && p.number !in s.reader.window.recorded
    ensures var t := Step(c, s, ReadHandshake); Ready(c, t, records, low) && OneRead(s, t)
  {
    hide OpenRecord, ProcessRecord, Has, Inv, Deliverable, Sealed.Bytes, Step, RingOk, PacketOf, ReaderOk, Carried,
      Genuine;
    var p := s.bufferRecords[0];
    PartsOfInv(c, s);
    ReadsItself(c, s, records, low, bound);
    ReadHandshakeKeeps(c, s);
    FirstOfPacket(s.bufferRecords);
    ReadStepIs(c, s);
    TypesOfDeliverable(c, s.log, s.receiver.readSeq, p);
    RecordReceived(s.log, s.receiver, ReadContext(0, false, c.maxMessageLen), p);
  }

  lemma RecordArrives(c: Setup, s: System, records: seq<Sealed>, low: nat, bound: nat)
    requires Ready(c, s, records, low) && Batch(c, s.log, s.receiver.readSeq, records, low, bound)
    requires s.buffer != [] && forall p | p in s.bufferRecords :: p in records
    ensures c.Valid() && s.flight.Valid() && s.reader.Valid() && s.receiver.Valid()
    ensures var t := Step(c, s, ReadHandshake); Ready(c, t, records, low) && OneRead(s, t)
  {
    hide Step, Inv, Batch, OneRead, OpenRecord, RingOk, PacketOf, ReaderOk, AllValid;
    PartsOfInv(c, s);
    ReadsItself(c, s, records, low, bound);
    var p := s.bufferRecords[0];
    if p.number / TWO_48 != 0 || p.number in s.reader.window.recorded {
      RecordPassedOver(c, s, records, low, bound);
    } else {
      RecordTaken(c, s, records, low, bound);
    }
  }

  lemma TypesOfDeliverable(c: Setup, log: seq<Message>, readSeq: nat, s: Sealed)
    requires Deliverable(c, log, readSeq, s)
    ensures ContentOf(s.typ).Some? && s.Valid()
    ensures (s.typ == CHANGE_CIPHER_SPEC && s.pt == [1]) ||
            (s.typ == HANDSHAKE && Carried(s).Some? && Genuine(log, Carried(s).value))
    ensures s.number / TWO_48 == 0 && Carried(s).Some? ==>
              && Carried(s).value.seqNum < readSeq + HandshakeReader.MAX_FLIGHT
              && Carried(s).value.msgLen <= c.maxMessageLen
  {
  }

  lemma BufferShrinks(c: Setup, s: System)
    requires Inv(c, s) && !s.failed && s.buffer != []
    ensures |Step(c, s, ReadHandshake).buffer| < |s.buffer|
  {
    hide OpenRecord, Inv, Step, PacketOf, Sealed.Bytes;
    PartsOfInv(c, s);
    FirstOfPacket(s.bufferRecords);
    OpenFirst(c, s.log, s.reader, s.bufferRecords);
    ReadStepIs(c, s);
  }

  /** The receiver reads the packet at hand to its end. */
  ghost function Drain(c: Setup, s: System): (t: System)
    requires Inv(c, s)
    ensures Inv(c, t)
    decreases |s.buffer|
  {
    if s.failed || s.buffer == [] then s
    else
      BufferShrinks(c, s);
      ReadHandshakeKeeps(c, s);
      Drain(c, Step(c, s, ReadHandshake))
  }

  /** Packets arrive one after the other, and each is read to its end. */
  ghost function ReceiveAll(c: Setup, s: System, arrivals: seq<nat>): (t: System)
    requires Inv(c, s)
    ensures Inv(c, t)
  {
    if arrivals == [] then s
    else
      var before := ReceiveAll(c, s, arrivals[..|arrivals| - 1]);
      var e := Event.Arrive(arrivals[|arrivals| - 1]);
      if !Delivery.Enabled(c, before, e) then before
      else
        StepKeeps(c, before, e);
        Drain(c, Step(c, before, e))
  }

  /** Only the receiver has moved on. */
  ghost predicate Onward(s: System, t: System) {
    && t.log == s.log && t.net == s.net && t.flight == s.flight && t.receiver.readSeq == s.receiver.readSeq
    && s.reader.window.recorded <= t.reader.window.recorded
  }

  ghost predicate Seen(s: System, records: seq<Sealed>) {
    forall p | p in records && p.number / TWO_48 == 0 :: p.number in s.reader.window.recorded
  }

  lemma {:induction false} DrainReads(c: Setup, s: System, records: seq<Sealed>, low: nat, bound: nat)
    requires Ready(c, s, records, low) && Batch(c, s.log, s.receiver.readSeq, records, low, bound)
    requires forall p | p in s.bufferRecords :: p in records
    requires s.buffer == [] ==> s.bufferRecords == []
    ensures var t := Drain(c, s);
            Ready(c, t, records, low) && t.buffer == [] && Onward(s, t) && Seen(t, s.bufferRecords)
    decreases |s.buffer|
  {
    hide Batch, Step, Inv, Has;
    if s.buffer != [] {
      RecordArrives(c, s, records, low, bound);
      var next := Step(c, s, ReadHandshake);
      EmptyBuffer(c, next);
      DrainReads(c, next, records, low, bound);
      assert s.bufferRecords == [s.bufferRecords[0]] + next.bufferRecords;
    }
  }

  lemma EmptyBuffer(c: Setup, s: System)
    requires Inv(c, s)
    ensures s.buffer == [] ==> s.bufferRecords == []
  {
    PartsOfInv(c, s);
    hide Inv;
    if s.bufferRecords != [] {
      assert PacketOf(s.bufferRecords) == s.bufferRecords[0].Bytes() + PacketOf(s.bufferRecords[1..]);
      assert s.bufferRecords[0] in s.bufferRecords;
      assert |s.bufferRecords[0].Bytes()| > 0;
    }
  }

  /** The packets that arrive hold records of the batch only. */
  ghost predicate FromBatch(s: System, records: seq<Sealed>, arrivals: seq<nat>) {
    forall k | k in arrivals :: k < |s.net| && AllValid(s.net[k]) && forall p | p in s.net[k] :: p in records
  }

  lemma PacketArrives(c: Setup, s: System, records: seq<Sealed>, low: nat, bound: nat, k: nat)
    requires Ready(c, s, records, low) && Batch(c, s.log, s.receiver.readSeq, records, low, bound)
    requires s.buffer == [] && k < |s.net| && AllValid(s.net[k]) && forall p | p in s.net[k] :: p in records
    ensures Delivery.Enabled(c, s, Event.Arrive(k)) && c.Valid() && s.reader.Valid() && s.receiver.Valid()
    ensures var t := Step(c, s, Event.Arrive(k));
            && Ready(c, t, records, low) && Onward(s, t) && t.bufferRecords == s.net[k]
            && t.receiver == s.receiver && t.reader == s.reader
  {
    PartsOfInv(c, s);
    StepKeeps(c, s, Event.Arrive(k));
    hide Inv, Has, PacketOf, Batch, RingOk, BufferOk, ReaderOk;
  }

  lemma {:induction false} ArrivalsRead(c: Setup, s: System, records: seq<Sealed>, low: nat, bound: nat,
        arrivals: seq<nat>)
    requires Ready(c, s, records, low) && Batch(c, s.log, s.receiver.readSeq, records, low, bound)
    requires s.buffer == [] && FromBatch(s, records, arrivals)
    ensures var t := ReceiveAll(c, s, arrivals);
            && Ready(c, t, records, low) && t.buffer == [] && Onward(s, t)
            && forall k | k in arrivals :: Seen(t, s.net[k])
  {
    hide Ready, Batch, Step, Inv, Drain, AllValid;
    ReadyParts(c, s, records, low);
    if arrivals != [] {
      var init, k := arrivals[..|arrivals| - 1], arrivals[|arrivals| - 1];
      assert k in arrivals;
      ArrivalsRead(c, s, records, low, bound, init);
      var before := ReceiveAll(c, s, init);
      PacketArrives(c, before, records, low, bound, k);
      ReadyParts(c, before, records, low);
      StepKeeps(c, before, Event.Arrive(k));
      var at := Step(c, before, Event.Arrive(k));
      EmptyBuffer(c, at);
      DrainReads(c, at, records, low, bound);
      assert arrivals == init + [k];
    }
  }

  lemma ReadyParts(c: Setup, s: System, records: seq<Sealed>, low: nat)
    requires Ready(c, s, records, low)
    ensures Inv(c, s) && !s.failed
  {
    hide Inv;
  }

  /** The message of the flight that a record is a piece of. */
  lemma {:induction false} PieceOf(messages: seq<OutgoingMessage>, w: WriteState, from: Position,
        records: seq<Sealed>, to: Position, w': WriteState, s: Sealed) returns (i: nat)
    requires w.Valid() && Sent(messages, w, from, records, to, w') && s in records
    ensures i < |messages| && s.number / TWO_48 == w.UsedEpoch(SentEarlier(messages, w, i))
    ensures if messages[i].isCcs then s.typ == CHANGE_CIPHER_SPEC && Carried(s).None?
            else
              && s.typ == HANDSHAKE && IsMessage(messages, i) && Carried(s).Some?
              && Carried(s).value.seqNum == Whole(messages, i).seqNum
              && Carried(s).value.msgLen == Whole(messages, i).msgLen
    decreases |records|
  {
    OnlyHandshakeCarries(s);
    hide Carried, StoredMessage;
    if s == records[0] {
      i := from.message;
    } else {
      var previous := SentEarlier(messages, w, from.message);
      i := PieceOf(messages, w.Advanced(previous), After(messages, from, records[0]), records[1..], to, w', s);
    }
  }

  lemma {:induction false} InPacket(packets: seq<seq<Sealed>>, s: Sealed) returns (k: nat)
    requires s in Flatten(packets)
    ensures k < |packets| && s in packets[k]
  {
    if s in packets[0] {
      k := 0;
    } else {
      k := InPacket(packets[1..], s);
      k := k + 1;
    }
  }

  lemma {:induction false} PacketInside(packets: seq<seq<Sealed>>, k: nat, s: Sealed)
    requires k < |packets| && s in packets[k]
    ensures s in Flatten(packets)
  {
    if k > 0 {
      PacketInside(packets[1..], k - 1, s);
    }
  }

  lemma {:induction false} PacketBounds(records: seq<Sealed>, s: Sealed)
    requires AllValid(records) && s in records
    ensures s.Valid() && |s.Body()| <= |PacketOf(records)|
  {
    if s != records[0] {
      PacketBounds(records[1..], s);
    }
  }

  /** Message `i` of a flight is sent in the first epoch. */
  ghost predicate InFirstEpoch(f: Flight, i: nat) {
    IsMessage(f.messages, i) && f.w.UsedEpoch(SentEarlier(f.messages, f.w, i)) == 0
  }

  /** The receiver is idle in the first epoch and at the sender's version; its window has
      room for the numbers from those of `f` to those of `last`, none of which it has seen;
      and no message of the flight is too far ahead or too long for it. */
  ghost predicate InReach(c: Setup, s: System, f: Flight, last: WriteState, mtu: nat) {
    && !s.failed && s.buffer == [] && s.reader.epoch == 0 && mtu <= MAX_PLAIN_LENGTH
    && f.w.WireVersion() / 256 == 0xfe && (s.reader.haveVersion ==> s.reader.version == f.w.WireVersion())
    && (forall n | n in s.reader.window.recorded :: n < FirstEpochNext(f.w))
    && s.reader.window.maxSeqNum < FirstEpochNext(f.w) + WINDOW_SIZE
    && FirstEpochNext(last) <= FirstEpochNext(f.w) + WINDOW_SIZE
    && (forall i | InFirstEpoch(f, i) ::
          && Whole(f.messages, i).seqNum < s.receiver.readSeq + HandshakeReader.MAX_FLIGHT
          && Whole(f.messages, i).msgLen <= c.maxMessageLen)
  }

  /** Every record of a complete flush can get through. */
  lemma RecordDeliverable(c: Setup, s: System, f: Flight, rng: Rng, mtu: nat, bio: nat -> int, p: Sealed)
    requires Inv(c, s) && f.Valid() && Fair(rng) && At(f) == Position(0, 0)
    requires var (f', packets, result) := Flush(f, rng, mtu, bio, 0);
             && result.Flushed? && InReach(c, s, f, f'.w, mtu) && NetworkOk(c, s.log, packets) && p in Flatten(packets)
    ensures Deliverable(c, s.log, s.receiver.readSeq, p)
    ensures p.number / TWO_48 == 0 ==>
      FirstEpochNext(f.w) <= p.number < FirstEpochNext(Flush(f, rng, mtu, bio, 0).0.w)
  {
    hide Flush, Inv, Carried, StoredMessage, Genuine, Sent, PacketOf, Sealed.Body;
    var (f', packets, _) := Flush(f, rng, mtu, bio, 0);
    FlushSent(f, rng, mtu, bio, 0);
    var k := InPacket(packets, p);
    assert packets[k] in packets;
    PacketBounds(packets[k], p);
    NumberSent(f.messages, f.w, At(f), Flatten(packets), At(f'), f'.w, p);
    var i := PieceOf(f.messages, f.w, At(f), Flatten(packets), At(f'), f'.w, p);
    assert GenuineRecord(c, s.log, p);
    if p.number / TWO_48 == 0 && Carried(p).Some? {
      assert InFirstEpoch(f, i);
    }
  }

  lemma FlushIsBatch(c: Setup, s: System, f: Flight, rng: Rng, mtu: nat, bio: nat -> int)
    requires Inv(c, s) && f.Valid() && Fair(rng) && At(f) == Position(0, 0)
    requires var (f', packets, result) := Flush(f, rng, mtu, bio, 0);
             result.Flushed? && InReach(c, s, f, f'.w, mtu) && NetworkOk(c, s.log, packets)
    ensures var (f', packets, _) := Flush(f, rng, mtu, bio, 0);
            Batch(c, s.log, s.receiver.readSeq, Flatten(packets), FirstEpochNext(f.w), FirstEpochNext(f'.w))
  {
    hide Flush, Inv, Deliverable, FirstEpochNext, Sent;
    var (f', packets, _) := Flush(f, rng, mtu, bio, 0);
    var records := Flatten(packets);
    FlushSent(f, rng, mtu, bio, 0);
    forall p | p in records
      ensures Deliverable(c, s.log, s.receiver.readSeq, p)
      ensures p.number / TWO_48 == 0 ==> FirstEpochNext(f.w) <= p.number < FirstEpochNext(f'.w)
    {
      RecordDeliverable(c, s, f, rng, mtu, bio, p);
    }
    forall p, q | p in records && q in records && p.number == q.number && p.number / TWO_48 == 0
      ensures p == q
    {
      NumbersDiffer(f.messages, f.w, At(f), records, At(f'), f'.w, p, q);
    }
  }

  /** The whole message with a number is in its slot, as the sender logged it. */
  ghost predicate Arrived(t: System, seqNum: nat) {
    && |t.receiver.slots| == HandshakeReader.MAX_FLIGHT && LogOk(t.log) && seqNum < |t.log|
    && var slot := t.receiver.slots[seqNum % HandshakeReader.MAX_FLIGHT];
       && slot.Some? && slot.value.Valid() && slot.value.seqNum == seqNum && slot.value.Complete()
       && Serialized(slot.value) == Wire(t.log[seqNum], seqNum)
  }

  lemma CompleteIsLogged(c: Setup, t: System, seqNum: nat)
    requires Inv(c, t)
    requires var slot := t.receiver.slots[seqNum % HandshakeReader.MAX_FLIGHT];
             slot.Some? && slot.value.seqNum == seqNum && slot.value.Complete()
    ensures Arrived(t, seqNum)
  {
    hide SenderOk, NetworkOk, BufferOk, ReaderOk, TranscriptOk;
    var a := t.receiver.slots[seqNum % HandshakeReader.MAX_FLIGHT].value;
    assert GenuineAssembly(t.log, a);
    assert a.Body() == t.log[seqNum].body;
  }

  /** When all records of a flush have been seen, a message of the first epoch is complete. */
  lemma MessageArrives(c: Setup, t: System, f: Flight, rng: Rng, mtu: nat, bio: nat -> int, i: nat)
    requires f.Valid() && Fair(rng) && At(f) == Position(0, 0) && Flush(f, rng, mtu, bio, 0).2.Flushed?
    requires var records := Flatten(Flush(f, rng, mtu, bio, 0).1);
             Ready(c, t, records, FirstEpochNext(f.w)) && Seen(t, records)
    requires InFirstEpoch(f, i) && Whole(f.messages, i).seqNum >= t.receiver.readSeq
    ensures Arrived(t, Whole(f.messages, i).seqNum)
  {
    var (f', packets, _) := Flush(f, rng, mtu, bio, 0);
    var records, whole := Flatten(packets), Whole(f.messages, i);
    FlushSent(f, rng, mtu, bio, 0);
    PartsOfInv(c, t);
    hide Flush, Inv, Sent, Carried, FirstEpochNext, StoredMessage, RingOk;
    var seqNum := whole.seqNum;
    var slot := t.receiver.slots[seqNum % HandshakeReader.MAX_FLIGHT];
    var k := ByteSent(f.messages, f.w, At(f), records, At(f'), f'.w, i, 0);
    assert records[k] in records && Has(t.receiver, records[k]);
    forall b: nat | b < |whole.body|
      ensures b in slot.value.got
    {
      var l := ByteSent(f.messages, f.w, At(f), records, At(f'), f'.w, i, b);
      assert records[l] in records && Has(t.receiver, records[l]);
    }
    CompleteIsLogged(c, t, seqNum);
  }

  function Rewound(f: Flight): Flight {
    f.(written := 0, offset := 0)
  }

  /** The sender retransmits its flight. */
  ghost function Retransmitted(c: Setup, s: System, rng: Rng, mtu: nat, bio: nat -> int): (t: System)
    requires Inv(c, s) && Fair(rng)
    ensures Inv(c, t) && Rewound(s.flight).Valid()
    ensures var (f', packets, _) := Flush(Rewound(s.flight), rng, mtu, bio, 0);
            t == s.(flight := f', net := s.net + packets)
  {
    PartsOfInv(c, s);
    WriteKeeps(c, s, Write(rng, mtu, bio, true));
    Step(c, s, Write(rng, mtu, bio, true))
  }

  /** What arrives makes the receiver ready. */
  lemma FlushMakesReady(c: Setup, s: System, rng: Rng, mtu: nat, bio: nat -> int)
    requires Inv(c, s) && Fair(rng)
    requires var f := Rewound(s.flight);
             var (f', packets, result) := Flush(f, rng, mtu, bio, 0);
             result.Flushed? && InReach(c, s, f, f'.w, mtu)
    ensures var f := Rewound(s.flight);
            var t, (f', packets, _) := Retransmitted(c, s, rng, mtu, bio), Flush(f, rng, mtu, bio, 0);
            && Ready(c, t, Flatten(packets), FirstEpochNext(f.w))
            && Batch(c, t.log, t.receiver.readSeq, Flatten(packets), FirstEpochNext(f.w), FirstEpochNext(f'.w))
            && NetworkOk(c, t.log, t.net)
  {
    PartsOfInv(c, s);
    hide Flush, Batch, Has, Inv, Deliverable, FirstEpochNext;
    var f := Rewound(s.flight);
    var (f', packets, _) := Flush(f, rng, mtu, bio, 0);
    var t := Retransmitted(c, s, rng, mtu, bio);
    NetworkOfInv(c, t);
    assert forall k | k in packets :: k in t.net;
    FlushIsBatch(c, s, f, rng, mtu, bio);
    forall p | p in Flatten(packets)
      ensures p.version == f.w.WireVersion()
      ensures p.number / TWO_48 == 0 ==> p.number >= FirstEpochNext(f.w)
    {
      FlushSent(f, rng, mtu, bio, 0);
      NumberSent(f.messages, f.w, At(f), Flatten(packets), At(f'), f'.w, p);
    }
  }

  lemma NetworkOfInv(c: Setup, s: System)
    requires Inv(c, s)
    ensures NetworkOk(c, s.log, s.net)
  {
  }

  /** Liveness to go with `TranscriptsAgree`: the sender flushes its flight from the start,
      and every packet of the flush arrives at a receiver within reach, in any order and any
      number. Then nothing fails, and every message of the first epoch that the receiver
      has not released is complete, header and body as the sender hashed them. (In the second
      epoch fragments of any message but the next one fail the connection.) */
  lemma CompleteFlushArrives(c: Setup, s: System, rng: Rng, mtu: nat, bio: nat -> int, arrivals: seq<nat>)
    requires Inv(c, s) && Fair(rng)
    requires var f := Rewound(s.flight);
             var (f', packets, result) := Flush(f, rng, mtu, bio, 0);
             && result.Flushed? && InReach(c, s, f, f'.w, mtu)
             && forall k: nat :: k in arrivals <==> |s.net| <= k < |s.net| + |packets|
    ensures var f, t := Rewound(s.flight), ReceiveAll(c, Retransmitted(c, s, rng, mtu, bio), arrivals);
            && !t.failed
            && forall i | InFirstEpoch(f, i) && Whole(f.messages, i).seqNum >= s.receiver.readSeq ::
                 Arrived(t, Whole(f.messages, i).seqNum)
  {
    PartsOfInv(c, s);
    hide Flush, Batch, Ready, Inv, FirstEpochNext, ReceiveAll, Seen, Arrived;
    var f := Rewound(s.flight);
    var (f', packets, _) := Flush(f, rng, mtu, bio, 0);
    var records, low, bound := Flatten(packets), FirstEpochNext(f.w), FirstEpochNext(f'.w);
    var s' := Retransmitted(c, s, rng, mtu, bio);
    FlushMakesReady(c, s, rng, mtu, bio);
    PacketsOfFlush(c, s, s', packets, arrivals);
    ArrivalsRead(c, s', records, low, bound, arrivals);
    var t := ReceiveAll(c, s', arrivals);
    ReadyParts(c, t, records, low);
    AllSeen(s, s', t, packets, arrivals);
    forall i | InFirstEpoch(f, i) && Whole(f.messages, i).seqNum >= s.receiver.readSeq
      ensures Arrived(t, Whole(f.messages, i).seqNum)
    {
      MessageArrives(c, t, f, rng, mtu, bio, i);
    }
  }

  lemma PacketsOfFlush(c: Setup, s: System, s': System, packets: seq<seq<Sealed>>, arrivals: seq<nat>)
    requires s'.net == s.net + packets && NetworkOk(c, s'.log, s'.net)
    requires forall k: nat :: k in arrivals <==> |s.net| <= k < |s.net| + |packets|
    ensures FromBatch(s', Flatten(packets), arrivals)
  {
    hide GenuineRecord;
    forall k | k in arrivals
      ensures k < |s'.net| && AllValid(s'.net[k]) && forall p | p in s'.net[k] :: p in Flatten(packets)
    {
      GenuineIsValid(c, s'.log, s'.net[k]);
      forall p | p in s'.net[k]
        ensures p in Flatten(packets)
      {
        PacketInside(packets, k - |s.net|, p);
      }
    }
  }

  lemma GenuineIsValid(c: Setup, log: seq<Message>, packet: seq<Sealed>)
    requires GenuinePacket(c, log, packet)
    ensures AllValid(packet)
  {
  }

  lemma AllSeen(s: System, s': System, t: System, packets: seq<seq<Sealed>>, arrivals: seq<nat>)
    requires s'.net == s.net + packets
    requires forall k: nat :: k in arrivals <==> |s.net| <= k < |s.net| + |packets|
    requires forall k | k in arrivals :: k < |s'.net| && Seen(t, s'.net[k])
    ensures Seen(t, Flatten(packets))
  {
    forall p | p in Flatten(packets) && p.number / TWO_48 == 0
      ensures p.number in t.reader.window.recorded
    {
      var k := InPacket(packets, p);
      assert s'.net[|s.net| + k] == packets[k];
      assert |s.net| + k in arrivals;
    }
  }
}

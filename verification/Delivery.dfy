/** Sender, network and receiver together. The network loses, repeats and reorders
    packets at will; the sender may rewind, retransmit and repack its flight at any MTU.
    Both transcripts agree nevertheless (section 4.2.6 of RFC 6347). */
module Delivery {
  import opened Bytes
  import opened Aead
  import opened DtlsRecord
  import opened RecordRuns
  import opened HandshakeWriter
  import opened FlightCoverage
  import opened Reassembly
  import opened HandshakeReader
  import Fragment

  /** A handshake message; its number is its place in the log. */
  datatype Message = Message(typ: byte, body: seq<byte>)

  datatype System = System(
    // the sender, and every message it has buffered and hashed so far
    flight: Flight,
    log: seq<Message>,
    // every packet the network was ever given; it may deliver any of them, any number of times
    net: seq<seq<Sealed>>,
    // the receiver: the unread part of the packet at hand (and the records it is made
    // of), its record layer, its ring, and the messages it has hashed so far
    buffer: seq<byte>,
    bufferRecords: seq<Sealed>,
    reader: ReadState,
    receiver: Receiver,
    consumed: seq<seq<byte>>,
    failed: bool)

  /** The keys of the second epoch and the receiver's bound on message lengths. */
  datatype Setup = Setup(keys: Cipher, maxMessageLen: nat)
  {
    ghost predicate Valid() {
      keys.Some? ==> keys.value.Valid()
    }

    function CipherOf(epoch: nat): Cipher {
      if epoch == 0 then None else keys
    }
  }

  datatype Event =
    | AddMessage(typ: byte, body: seq<byte>)
    | AddChangeCipherSpec
    | NextFlight
    | NextWriteKeys
    | SettleWriteVersion(version: nat)
    | Write(rng: Rng, mtu: nat, bio: nat -> int, fromStart: bool)
    | WriteOther(typ: byte, pt: seq<byte>, maxOut: nat, rng: Rng)
    | SettleReadVersion(version: nat)
    | Arrive(which: nat)
    | ReadHandshake
    | ReadChangeCipherSpec
    | NextReadKeys
    | TakeMessage
    | ReleaseMessage

  /** Message numbers are sixteen bits wide; the last one is never used. */
  const MAX_MESSAGES := 0xffff

  ghost predicate Enabled(c: Setup, s: System, e: Event)
    requires s.flight.Valid()
  {
    match e
    case AddMessage(typ, body) =>
      |body| < 0x100_0000 && |s.log| < MAX_MESSAGES && |s.flight.messages| < HandshakeWriter.MAX_FLIGHT
    case AddChangeCipherSpec => |s.flight.messages| < HandshakeWriter.MAX_FLIGHT
    case NextFlight => true
    case NextWriteKeys => s.flight.w.epoch == 0
    case SettleWriteVersion(version) => version < 0x1_0000
    case Write(rng, _, _, _) => Fair(rng)
    case WriteOther(typ, _, _, rng) => Fair(rng) && (typ == ALERT || typ == APPLICATION_DATA)
    case SettleReadVersion(version) => version < 0x1_0000
    case Arrive(which) => !s.failed && which < |s.net| && s.buffer == []
    case ReadHandshake => !s.failed && s.buffer != []
    case ReadChangeCipherSpec => !s.failed && s.buffer != []
    case NextReadKeys => !s.failed && s.reader.epoch == 0
    case TakeMessage =>
      !s.failed && !s.receiver.hasCurrent && |s.receiver.slots| == HandshakeReader.MAX_FLIGHT
      && s.receiver.CurrentComplete()
    case ReleaseMessage => !s.failed
  }

  ghost function Wire(m: Message, number: nat): (s: seq<byte>)
    requires number < 0x1_0000 && |m.body| < 0x100_0000
  {
    Serialize(m.typ, number, m.body)
  }

  function ContentOf(typ: byte): (c: Option<Content>)
  {
    if typ == CHANGE_CIPHER_SPEC then Some(Content.ChangeCipherSpec)
    else if typ == ALERT then Some(Content.Alert)
    else if typ == HANDSHAKE then Some(Content.Handshake)
    else if typ == APPLICATION_DATA then Some(Content.ApplicationData)
    else None
  }

  ghost function ContextAt(c: Setup, s: System): ReadContext {
    ReadContext(s.reader.epoch, s.reader.cipher.Some?, c.maxMessageLen)
  }

  /** The packet at hand after one record has been opened. */
  ghost function Consume(s: System, o: Opened): (r: System)
    requires o.consumed <= |s.buffer|
  {
    s.(buffer := s.buffer[o.consumed..],
       bufferRecords := if o.consumed == |s.buffer| || s.bufferRecords == [] then [] else s.bufferRecords[1..],
       reader := o.state)
  }

  /** An alert or application data in a packet of its own, if it can be sealed. */
  ghost function SealOther(w: WriteState, typ: byte, pt: seq<byte>, maxOut: nat, rng: Rng)
    : (r: (WriteState, seq<seq<Sealed>>))
    requires w.Valid() && Fair(rng)
    ensures r.0 == w.(seqNum := r.0.seqNum) && r.0.Valid()
  {
    var random := rng(Number(w.epoch, w.seqNum), NonceLen(w.cipher));
    var (next, out) := SealRecord(w, false, typ, pt, maxOut, random);
    (next, if out.None? then [] else [[SealedBy(w, false, typ, pt, random)]])
  }

  ghost function Step(c: Setup, s: System, e: Event): (r: System)
    requires c.Valid() && s.flight.Valid() && s.reader.Valid() && s.receiver.Valid() && Enabled(c, s, e)
    ensures r.flight.Valid() && r.reader.Valid() && r.receiver.Valid()
  {
    match e
    case AddMessage(typ, body) =>
      var data := Wire(Message(typ, body), s.flight.writeSeq);
      s.(flight := HandshakeWriter.AddOutgoing(s.flight, false, data).value, log := s.log + [Message(typ, body)])
    case AddChangeCipherSpec =>
      s.(flight := HandshakeWriter.AddOutgoing(s.flight, true, []).value)
    case NextFlight =>
      s.(flight := HandshakeWriter.ClearOutgoing(s.flight))
    case NextWriteKeys =>
      s.(flight := s.flight.(w := SetWriteState(s.flight.w, c.keys)))
    case Write(rng, mtu, bio, fromStart) =>
      var (f, packets, _) :=
        if fromStart then Retransmit(s.flight, rng, mtu, bio) else Flush(s.flight, rng, mtu, bio, 0);
      s.(flight := f, net := s.net + packets)
    case SettleWriteVersion(version) =>
      s.(flight := s.flight.(w := s.flight.w.(haveVersion := true, version := version)))
    case WriteOther(typ, pt, maxOut, rng) =>
      var (w, packet) := SealOther(s.flight.w, typ, pt, maxOut, rng);
      s.(flight := s.flight.(w := w), net := s.net + packet)
    case SettleReadVersion(version) => s.(reader := s.reader.(haveVersion := true, version := version))
    case Arrive(which) =>
      if AllValid(s.net[which]) then s.(buffer := PacketOf(s.net[which]), bufferRecords := s.net[which]) else s
    case ReadHandshake =>
      var o := OpenRecord(s.reader, s.buffer);
      var s' := Consume(s, o);
      (match o.result
       case Discard => s'
       case Success(typ, payload) =>
         var content := ContentOf(typ);
         var (receiver, outcome) :=
           if content.None? then (s.receiver, Outcome.Failed(UnexpectedRecord))
           else ProcessRecord(s.receiver, ContextAt(c, s'), content.value, payload);
         s'.(receiver := receiver, failed := outcome.Failed?)
       case _ => s'.(failed := true))
    case ReadChangeCipherSpec =>
      var o := OpenRecord(s.reader, s.buffer);
      var s' := Consume(s, o);
      var expected := o.result.Success?
        && (o.result.typ == HANDSHAKE || (o.result.typ == CHANGE_CIPHER_SPEC && o.result.body == [1]));
      s'.(failed := !(o.result.Discard? || expected))
    case NextReadKeys =>
      if Buffered(s.receiver) then s.(failed := true) else s.(reader := SetReadState(s.reader, c.keys))
    case TakeMessage =>
      s.(receiver := s.receiver.(hasCurrent := true), consumed := s.consumed + [Serialized(s.receiver.Front().value)])
    case ReleaseMessage =>
      s.(receiver := HandshakeReader.Release(s.receiver))
  }

  // ------------------------------------------------------------ the invariant

  /** The fragment is a piece of the message with its number. */
  ghost predicate Genuine(log: seq<Message>, f: Fragment.Fragment) {
    && f.seqNum < |log|
    && f.typ == log[f.seqNum].typ && f.msgLen == |log[f.seqNum].body|
    && f.fragOff + |f.body| <= f.msgLen
    && f.body == log[f.seqNum].body[f.fragOff..f.fragOff + |f.body|]
  }

  ghost predicate GenuineMessage(log: seq<Message>, m: OutgoingMessage) {
    m.isCcs || (StoredMessage(m.data).Some? && Genuine(log, StoredMessage(m.data).value))
  }

  ghost predicate GenuineRecord(c: Setup, log: seq<Message>, s: Sealed) {
    && s.Valid() && s.number / TWO_48 <= 1 && s.cipher == c.CipherOf(s.number / TWO_48)
    && ((s.typ == CHANGE_CIPHER_SPEC && s.pt == [1])
        || (s.typ == HANDSHAKE && Carried(s).Some? && Genuine(log, Carried(s).value))
        || s.typ == ALERT || s.typ == APPLICATION_DATA)
  }

  ghost predicate GenuinePacket(c: Setup, log: seq<Message>, packet: seq<Sealed>) {
    forall r | r in packet :: GenuineRecord(c, log, r)
  }

  /** What has been put together so far is part of the message with its number. */
  ghost predicate GenuineAssembly(log: seq<Message>, a: Assembly) {
    && a.seqNum < |log|
    && a.typ == log[a.seqNum].typ && a.msgLen == |log[a.seqNum].body|
    && forall i | i in a.got && i < a.msgLen :: a.got[i] == log[a.seqNum].body[i]
  }

  ghost predicate LogOk(log: seq<Message>) {
    |log| <= MAX_MESSAGES && forall m | m in log :: |m.body| < 0x100_0000
  }

  ghost predicate SenderOk(c: Setup, log: seq<Message>, f: Flight) {
    && f.Valid()
    && f.writeSeq == |log|
    && (forall m | m in f.messages :: GenuineMessage(log, m))
    && f.w.cipher == c.CipherOf(f.w.epoch)
  }

  ghost predicate NetworkOk(c: Setup, log: seq<Message>, net: seq<seq<Sealed>>) {
    forall p | p in net :: GenuinePacket(c, log, p)
  }

  ghost predicate BufferOk(c: Setup, log: seq<Message>, buffer: seq<byte>, records: seq<Sealed>) {
    GenuinePacket(c, log, records) && AllValid(records) && buffer == PacketOf(records)
  }

  ghost predicate ReaderOk(c: Setup, r: ReadState) {
    r.Valid() && r.epoch <= 1 && r.cipher == c.CipherOf(r.epoch)
  }

  ghost predicate RingOk(log: seq<Message>, rc: Receiver) {
    && rc.Valid()
    && forall i | 0 <= i < HandshakeReader.MAX_FLIGHT && rc.slots[i].Some? :: GenuineAssembly(log, rc.slots[i].value)
  }

  ghost predicate TranscriptOk(log: seq<Message>, rc: Receiver, consumed: seq<seq<byte>>)
    requires LogOk(log)
  {
    && |consumed| == rc.readSeq + (if rc.hasCurrent then 1 else 0)
    && |consumed| <= |log|
    && forall i | 0 <= i < |consumed| :: consumed[i] == Wire(log[i], i)
  }

  ghost predicate Inv(c: Setup, s: System) {
    && c.Valid() && LogOk(s.log)
    && SenderOk(c, s.log, s.flight)
    && NetworkOk(c, s.log, s.net)
    && BufferOk(c, s.log, s.buffer, s.bufferRecords)
    && ReaderOk(c, s.reader)
    && RingOk(s.log, s.receiver)
    && TranscriptOk(s.log, s.receiver, s.consumed)
  }

  // ------------------------------------------------------------ the sender's steps

  lemma StoredWire(m: Message, number: nat)
    requires number < 0x1_0000 && |m.body| < 0x100_0000
    ensures StoredMessage(Wire(m, number)) == Some(Fragment.Fragment(m.typ, |m.body|, number, 0, m.body))
  {
    var f := Fragment.Fragment(m.typ, |m.body|, number, 0, m.body);
    assert Wire(m, number) == Fragment.Encode(f) + [];
    Fragment.ParseEncode(f, []);
  }

  /** Nothing genuine stops being so when the log grows. */
  lemma LogGrows(c: Setup, log: seq<Message>, m: Message)
    ensures forall f | Genuine(log, f) :: Genuine(log + [m], f)
    ensures forall o | GenuineMessage(log, o) :: GenuineMessage(log + [m], o)
    ensures forall r | GenuineRecord(c, log, r) :: GenuineRecord(c, log + [m], r)
    ensures forall p | GenuinePacket(c, log, p) :: GenuinePacket(c, log + [m], p)
    ensures forall a | GenuineAssembly(log, a) :: GenuineAssembly(log + [m], a)
  {
  }

  lemma ReceiverSeesGrowth(c: Setup, s: System, m: Message)
    requires Inv(c, s) && LogOk(s.log + [m])
    ensures NetworkOk(c, s.log + [m], s.net) && BufferOk(c, s.log + [m], s.buffer, s.bufferRecords)
    ensures RingOk(s.log + [m], s.receiver) && TranscriptOk(s.log + [m], s.receiver, s.consumed)
  {
    LogGrows(c, s.log, m);
    hide Genuine, GenuineMessage, GenuineRecord, GenuinePacket, GenuineAssembly;
  }

  lemma NewMessageIsGenuine(log: seq<Message>, m: Message, epoch: nat)
    requires |log| < 0x1_0000 && |m.body| < 0x100_0000
    ensures GenuineMessage(log + [m], OutgoingMessage(false, Wire(m, |log|), epoch))
  {
    hide StoredMessage, Wire;
    StoredWire(m, |log|);
    assert (log + [m])[|log|] == m;
    assert m.body[0..|m.body|] == m.body;
  }

  lemma AddMessageKeeps(c: Setup, s: System, typ: byte, body: seq<byte>)
    requires Inv(c, s) && Enabled(c, s, AddMessage(typ, body))
    ensures Inv(c, Step(c, s, AddMessage(typ, body)))
  {
    hide GenuineMessage, NetworkOk, BufferOk, RingOk, TranscriptOk, Wire;
    var m := Message(typ, body);
    assert LogOk(s.log + [m]);
    ReceiverSeesGrowth(c, s, m);
    LogGrows(c, s.log, m);
    NewMessageIsGenuine(s.log, m, s.flight.w.epoch);
  }

  lemma SealedMessageIsGenuine(c: Setup, log: seq<Message>, f: Flight, rng: Rng, maxOut: nat)
    requires f.Valid() && Fair(rng) && f.written < |f.messages|
    requires GenuineMessage(log, f.messages[f.written]) && f.w.cipher == c.CipherOf(f.w.epoch)
    ensures var (f', r) := SealNextMessage(f, rng, maxOut);
            && f'.w.cipher == f.w.cipher && f'.w.epoch == f.w.epoch
            && (r.Complete? || r.Partial? ==> GenuineRecord(c, log, r.record))
  {
    hide SealNextMessage;
    MessageCovers(f, rng, maxOut);
    RecordIngredients(f, rng, maxOut);
  }

  ghost predicate FlightOk(c: Setup, log: seq<Message>, f: Flight) {
    && f.Valid() && f.w.cipher == c.CipherOf(f.w.epoch)
    && (forall m | m in f.messages :: GenuineMessage(log, m))
  }

  lemma {:induction false} PacketIsGenuine(c: Setup, log: seq<Message>, f: Flight, rng: Rng, maxOut: nat)
    requires FlightOk(c, log, f) && Fair(rng)
    ensures var (f', records) := FillPacket(f, rng, maxOut);
            FlightOk(c, log, f') && (records.Some? ==> GenuinePacket(c, log, records.value))
    decreases |f.messages| - f.written
  {
    hide SealNextMessage, GenuineMessage, GenuineRecord, PacketOf, AllValid;
    if f.written < |f.messages| {
      SealedMessageIsGenuine(c, log, f, rng, maxOut);
      var (f', r) := SealNextMessage(f, rng, maxOut);
      if r.Complete? {
        PacketIsGenuine(c, log, f'.(written := f.written + 1), rng, maxOut - |r.record.Bytes()|);
      }
    }
  }

  /** Every packet of a flush, taken or not, holds only pieces of logged messages. */
  lemma {:induction false} FlushIsGenuine(c: Setup, log: seq<Message>, f: Flight, rng: Rng, mtu: nat,
        bio: nat -> int, k: nat)
    requires FlightOk(c, log, f) && Fair(rng)
    ensures var (f', packets, _) := Flush(f, rng, mtu, bio, k);
            FlightOk(c, log, f') && NetworkOk(c, log, packets)
    decreases |f.messages| - f.written, BytesLeft(f)
  {
    if f.written < |f.messages| {
      PacketIsGenuine(c, log, f, rng, mtu);
      var (f', packet) := SealNextPacket(f, rng, mtu);
      if packet.Some? && bio(k) > 0 {
        PacketMakesProgress(f, rng, mtu);
        hide FillPacket, GenuineMessage, GenuinePacket, AllValid;
        FlushIsGenuine(c, log, f', rng, mtu, bio, k + 1);
      }
    }
  }

  lemma WriteKeeps(c: Setup, s: System, e: Event)
    requires Inv(c, s) && Enabled(c, s, e) && e.Write?
    ensures Inv(c, Step(c, s, e))
  {
    hide Flush, GenuineMessage, GenuinePacket, BufferOk, RingOk, TranscriptOk;
    FlushIsGenuine(
      c, s.log, if e.fromStart then s.flight.(written := 0, offset := 0) else s.flight, e.rng, e.mtu, e.bio, 0);
  }

  lemma OtherIsGenuine(c: Setup, log: seq<Message>, w: WriteState, typ: byte, pt: seq<byte>, maxOut: nat, rng: Rng)
    requires w.Valid() && Fair(rng) && w.cipher == c.CipherOf(w.epoch) && (typ == ALERT || typ == APPLICATION_DATA)
    ensures NetworkOk(c, log, SealOther(w, typ, pt, maxOut, rng).1)
  {
    hide SealRecord, Carried, Genuine;
    var random := rng(Number(w.epoch, w.seqNum), NonceLen(w.cipher));
    if SealRecord(w, false, typ, pt, maxOut, random).1.Some? {
      SealRecordBytes(w, false, typ, pt, maxOut, random);
    }
  }

  lemma WriteOtherKeeps(c: Setup, s: System, e: Event)
    requires Inv(c, s) && Enabled(c, s, e) && e.WriteOther?
    ensures Inv(c, Step(c, s, e))
  {
    hide SealOther, GenuineMessage, GenuinePacket, BufferOk, RingOk, TranscriptOk;
    OtherIsGenuine(c, s.log, s.flight.w, e.typ, e.pt, e.maxOut, e.rng);
  }

  // ------------------------------------------------------------ the receiver's steps

  /** Opening a packet of sealed records takes off its first record, or drops the rest
      of the packet; what comes out is what was sealed. */
  lemma OpenFirst(c: Setup, log: seq<Message>, r: ReadState, records: seq<Sealed>)
    requires c.Valid() && ReaderOk(c, r) && GenuinePacket(c, log, records) && AllValid(records) && records != []
    ensures var o := OpenRecord(r, PacketOf(records));
            && ReaderOk(c, o.state)
            && (o.consumed == |PacketOf(records)| || o.consumed == |records[0].Bytes()|)
            && (o.result.Success? ==> o.result.typ == records[0].typ && o.result.body == records[0].pt)
  {
    var s, rest := records[0], PacketOf(records[1..]);
    assert s.Valid() && GenuineRecord(c, log, s);
    assert PacketOf(records) == s.Bytes() + rest;
    OpenOwnRecord(r, s, rest);
    hide OpenRecord, GenuinePacket, AllValid;
  }

  lemma ConsumeKeepsBuffer(c: Setup, s: System)
    requires Inv(c, s) && s.buffer != []
    ensures s.bufferRecords != []
    ensures var o := OpenRecord(s.reader, s.buffer);
            var s' := Consume(s, o);
            && BufferOk(c, s.log, s'.buffer, s'.bufferRecords) && ReaderOk(c, s'.reader)
            && (o.result.Success? ==>
                  && GenuineRecord(c, s.log, s.bufferRecords[0])
                  && o.result.typ == s.bufferRecords[0].typ && o.result.body == s.bufferRecords[0].pt)
  {
    OpenFirst(c, s.log, s.reader, s.bufferRecords);
    hide OpenRecord, GenuineRecord;
    var o := OpenRecord(s.reader, s.buffer);
    var first, rest := s.bufferRecords[0].Bytes(), PacketOf(s.bufferRecords[1..]);
    assert s.buffer == first + rest;
    assert s.buffer[|first|..] == rest;
  }

  /** A genuine fragment leaves the ring genuine, and the window where it was. */
  lemma GenuineFragmentKeepsRing(log: seq<Message>, rc: Receiver, ctx: ReadContext, f: Fragment.Fragment)
    requires RingOk(log, rc) && Genuine(log, f) && f.Encodable()
    ensures var next := ProcessFragment(rc, ctx, f).0;
            RingOk(log, next) && next.readSeq == rc.readSeq && next.hasCurrent == rc.hasCurrent
  {
    var a := Slot(rc, f);
    if f.seqNum >= rc.readSeq && f.seqNum - rc.readSeq < HandshakeReader.MAX_FLIGHT {
      SlotHoldsItsMessage(rc, f.seqNum);
      assert GenuineAssembly(log, a);
      AbsorbIsGenuine(log, a, f);
    }
  }

  lemma AbsorbIsGenuine(log: seq<Message>, a: Assembly, f: Fragment.Fragment)
    requires GenuineAssembly(log, a) && Genuine(log, f) && a.seqNum == f.seqNum
    ensures GenuineAssembly(log, Absorb(a, f.fragOff, f.body))
  {
  }

  lemma GenuineRecordKeepsRing(c: Setup, log: seq<Message>, rc: Receiver, ctx: ReadContext, s: Sealed)
    requires RingOk(log, rc) && GenuineRecord(c, log, s)
    ensures ContentOf(s.typ).Some?
    ensures var next := ProcessRecord(rc, ctx, ContentOf(s.typ).value, s.pt).0;
            RingOk(log, next) && next.readSeq == rc.readSeq && next.hasCurrent == rc.hasCurrent
  {
    if s.typ == HANDSHAKE {
      var f := Carried(s).value;
      Fragment.EncodeParse(s.pt);
      GenuineFragmentKeepsRing(log, rc, ctx, f);
      hide ProcessFragment, Genuine;
      assert ProcessFragments(ProcessFragment(rc, ctx, f).0, ctx, []) == (ProcessFragment(rc, ctx, f).0, Consumed);
    }
  }

  lemma ReadHandshakeKeeps(c: Setup, s: System)
    requires Inv(c, s) && Enabled(c, s, ReadHandshake)
    ensures Inv(c, Step(c, s, ReadHandshake))
  {
    hide OpenRecord, ProcessRecord, GenuineRecord, SenderOk, NetworkOk, BufferOk, RingOk, Wire;
    ConsumeKeepsBuffer(c, s);
    var o := OpenRecord(s.reader, s.buffer);
    if o.result.Success? {
      GenuineRecordKeepsRing(c, s.log, s.receiver, ContextAt(c, Consume(s, o)), s.bufferRecords[0]);
    }
  }

  lemma ReadChangeCipherSpecKeeps(c: Setup, s: System)
    requires Inv(c, s) && Enabled(c, s, ReadChangeCipherSpec)
    ensures Inv(c, Step(c, s, ReadChangeCipherSpec))
  {
    hide OpenRecord, GenuineRecord, SenderOk, NetworkOk, BufferOk, ReaderOk, RingOk, TranscriptOk;
    ConsumeKeepsBuffer(c, s);
  }

  /** The front message is complete, so it is the logged message with that number. */
  lemma FrontIsLogged(log: seq<Message>, rc: Receiver)
    requires LogOk(log) && RingOk(log, rc) && rc.CurrentComplete()
    ensures rc.readSeq < |log|
    ensures Serialized(rc.Front().value) == Wire(log[rc.readSeq], rc.readSeq)
  {
    SlotHoldsItsMessage(rc, rc.readSeq);
    var a := rc.Front().value;
    assert GenuineAssembly(log, a);
    assert a.Body() == log[rc.readSeq].body;
  }

  lemma TakeKeeps(c: Setup, s: System)
    requires Inv(c, s) && Enabled(c, s, TakeMessage)
    ensures Inv(c, Step(c, s, TakeMessage))
  {
    FrontIsLogged(s.log, s.receiver);
    hide SenderOk, NetworkOk, BufferOk, ReaderOk, Wire, Serialized, GenuineAssembly;
  }

  lemma ReleaseKeeps(c: Setup, s: System)
    requires Inv(c, s) && Enabled(c, s, ReleaseMessage)
    ensures Inv(c, Step(c, s, ReleaseMessage))
  {
    hide SenderOk, NetworkOk, BufferOk, ReaderOk, Wire, GenuineAssembly;
  }

  lemma StepKeeps(c: Setup, s: System, e: Event)
    requires Inv(c, s) && Enabled(c, s, e)
    ensures Inv(c, Step(c, s, e))
  {
    match e {
      case AddMessage(typ, body) => AddMessageKeeps(c, s, typ, body);
      case Write(_, _, _, _) => WriteKeeps(c, s, e);
      case WriteOther(_, _, _, _) => WriteOtherKeeps(c, s, e);
      case ReadHandshake => ReadHandshakeKeeps(c, s);
      case ReadChangeCipherSpec => ReadChangeCipherSpecKeeps(c, s);
      case TakeMessage => TakeKeeps(c, s);
      case ReleaseMessage => ReleaseKeeps(c, s);
      case AddChangeCipherSpec =>
      case SettleWriteVersion(_) =>
      case SettleReadVersion(_) =>
      case NextFlight =>
      case NextWriteKeys =>
      case Arrive(_) =>
      case NextReadKeys =>
    }
  }

  // ------------------------------------------------------------ whole runs

  /** Two fresh connections, before or after the version is known. */
  ghost function Initial(c: Setup, writer: WriteState, reader: ReadState): (s: System)
  {
    System(Flight(writer, 0, [], 0, 0), [], [], [], [], reader, Receiver(0, EMPTY_RING, false), [], false)
  }

  ghost predicate FreshConnections(c: Setup, writer: WriteState, reader: ReadState) {
    && c.Valid() && writer.Valid() && reader.Valid()
    && writer.epoch == 0 && reader.epoch == 0 && reader.cipher.None?
  }

  /** A run takes the events that are enabled when their turn comes. */
  ghost function Run(c: Setup, s: System, events: seq<Event>): (r: System)
    requires Inv(c, s)
    ensures Inv(c, r)
  {
    if events == [] then s
    else
      var before := Run(c, s, events[..|events| - 1]);
      var e := events[|events| - 1];
      if !Enabled(c, before, e) then before
      else
        StepKeeps(c, before, e);
        Step(c, before, e)
  }

  /** What the sender has hashed: every message it buffered, in order. */
  ghost function SenderTranscript(s: System): (t: seq<seq<byte>>)
    requires LogOk(s.log)
  {
    seq(|s.log|, i requires 0 <= i < |s.log| => Wire(s.log[i], i))
  }

  /** End to end: on every schedule of writes, rewinds, retransmissions, losses,
      repetitions and reorderings, what the receiver has hashed is a prefix of what the
      sender has hashed, and a message found complete is the one the sender buffered
      under that number, header and body. */
  lemma TranscriptsAgree(c: Setup, writer: WriteState, reader: ReadState, events: seq<Event>)
    requires FreshConnections(c, writer, reader)
    ensures Inv(c, Initial(c, writer, reader))
    ensures var s := Run(c, Initial(c, writer, reader), events);
            && s.consumed <= SenderTranscript(s)
            && (s.receiver.CurrentComplete() ==>
                  s.receiver.readSeq < |s.log|
                  && Serialized(s.receiver.Front().value) == SenderTranscript(s)[s.receiver.readSeq])
  {
    assert PacketOf([]) == [];
    var s := Run(c, Initial(c, writer, reader), events);
    if s.receiver.CurrentComplete() {
      FrontIsLogged(s.log, s.receiver);
    }
  }

  /** A message arrives whole, in one fragment, and is handed out and released. */
  ghost function Deliver(rc: Receiver, ctx: ReadContext, m: Message, number: nat): (r: Receiver)
    requires rc.Valid() && number < 0x1_0000 && |m.body| < 0x100_0000
    ensures r.Valid()
  {
    var next := ProcessFragment(rc, ctx, Fragment.Fragment(m.typ, |m.body|, number, 0, m.body)).0;
    if next.CurrentComplete() then HandshakeReader.Release(next.(hasCurrent := true)) else next
  }

  /** The receiver after the first `k` messages of a log, none of which was lost. */
  ghost function DeliverAll(ctx: ReadContext, log: seq<Message>, k: nat): (r: Receiver)
    requires k <= |log| && forall m | m in log :: |m.body| < 0x100_0000
    ensures r.Valid()
  {
    if k == 0 then Receiver(0, EMPTY_RING, false)
    else Deliver(DeliverAll(ctx, log, k - 1), ctx, log[k - 1], (k - 1) % 0x1_0000)
  }

  lemma WholeIsComplete(m: Message, number: nat)
    ensures var a := Absorb(Fresh(m.typ, number, |m.body|), 0, m.body);
            a.Complete() && a.Body() == m.body && a.typ == m.typ && a.seqNum == number && a.msgLen == |m.body|
  {
    var b := Fresh(m.typ, number, |m.body|);
    if m.body != [] {
      assert 0 !in b.got;
    }
  }

  lemma DeliverOne(ctx: ReadContext, m: Message, n: nat)
    requires n < 0x1_0000 && |m.body| < 0x100_0000 && |m.body| <= ctx.maxMessageLen
    ensures var next := ProcessFragment(Receiver(n, EMPTY_RING, false), ctx,
        Fragment.Fragment(m.typ, |m.body|, n, 0, m.body));
            next.1 == Consumed && next.0.CurrentComplete() && Serialized(next.0.Front().value) == Wire(m, n)
    ensures Deliver(Receiver(n, EMPTY_RING, false), ctx, m, n) == Receiver(NextSeq(n), EMPTY_RING, false)
  {
    hide Absorb;
    WholeIsComplete(m, n);
    var i := n % HandshakeReader.MAX_FLIGHT;
    var a := Absorb(Fresh(m.typ, n, |m.body|), 0, m.body);
    assert EMPTY_RING[i := Some(a)][i := None] == EMPTY_RING;
  }

  lemma {:induction false} AllDelivered(ctx: ReadContext, log: seq<Message>, k: nat)
    requires k <= |log| && forall m | m in log :: |m.body| < 0x100_0000 && |m.body| <= ctx.maxMessageLen
    ensures DeliverAll(ctx, log, k) == Receiver(k % 0x1_0000, EMPTY_RING, false)
  {
    hide Deliver;
    if k > 0 {
      AllDelivered(ctx, log, k - 1);
      DeliverOne(ctx, log[k - 1], (k - 1) % 0x1_0000);
      NextModulo(k - 1);
    }
  }

  lemma NextModulo(n: nat)
    ensures NextSeq(n % 0x1_0000) == (n + 1) % 0x1_0000
  {
  }

  /** The bound on the number of messages is needed. A receiver that has been handed 65536
      messages, one after the other from a fresh start, expects number zero again, and takes
      a late copy of the very first message for the next one. */
  lemma AfterWrapAnOldMessageIsNew(ctx: ReadContext, log: seq<Message>)
    requires |log| == 0x1_0000
    requires forall m | m in log :: |m.body| < 0x100_0000 && |m.body| <= ctx.maxMessageLen
    ensures var first := log[0];
            var copy := Fragment.Fragment(first.typ, |first.body|, 0, 0, first.body);
            var (next, outcome) := ProcessFragment(DeliverAll(ctx, log, 0x1_0000), ctx, copy);
            && outcome == Consumed && next.readSeq == 0 && next.CurrentComplete()
            && Serialized(next.Front().value) == Wire(first, 0)
  {
    hide ProcessFragment, DeliverAll, Serialized, Wire;
    AllDelivered(ctx, log, 0x1_0000);
    DeliverOne(ctx, log[0], 0);
    KeepsNumber(ctx, log[0]);
  }

  lemma KeepsNumber(ctx: ReadContext, m: Message)
    requires |m.body| < 0x100_0000
    ensures ProcessFragment(Receiver(0, EMPTY_RING, false), ctx,
        Fragment.Fragment(m.typ, |m.body|, 0, 0, m.body)).0.readSeq == 0
  {
  }
}

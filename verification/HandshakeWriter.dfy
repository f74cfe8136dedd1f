/** The sending half of the DTLS handshake transport by value: a flight of messages is
    cut into records and the records are packed into packets of at most one MTU
    (section 4.1.1 of RFC 6347). */
module HandshakeWriter {
  import opened Bytes
  import opened Aead
  import opened DtlsRecord
  import opened RecordRuns
  import Fragment
  import Reassembly

  /** SSL_MAX_HANDSHAKE_FLIGHT */
  const MAX_FLIGHT := 7

  /** DTLS_OUTGOING_MESSAGE */
  datatype OutgoingMessage = OutgoingMessage(isCcs: bool, data: seq<byte>, epoch: nat)

  /** What the random number generator returns for a record number and a length. */
  type Rng = (nat, nat) -> seq<byte>

  ghost predicate Fair(rng: Rng) {
    forall number: nat, len: nat :: |rng(number, len)| == len
  }

  datatype Flight = Flight(
    w: WriteState, writeSeq: nat, messages: seq<OutgoingMessage>, written: nat, offset: nat)
  {
    ghost predicate Valid() {
      && w.Valid()
      && writeSeq < 0x1_0000
      && |messages| <= MAX_FLIGHT && written <= |messages|
      && (forall m | m in messages :: m.epoch <= w.epoch)
      && (offset != 0 ==> written < |messages| && !messages[written].isCcs)
    }

    /** A message of the first epoch is sent in that epoch even after the change. */
    ghost function Previous(): bool
      requires written < |messages|
    {
      w.epoch == 1 && messages[written].epoch == 0
    }

    ghost function Random(rng: Rng): seq<byte>
      requires w.Valid() && written < |messages|
    {
      rng(Number(w.UsedEpoch(Previous()), w.UsedSeqNum(Previous())), NonceLen(w.UsedCipher(Previous())))
    }
  }

  function NonceLen(c: Cipher): (n: nat)
  {
    if c.Some? then c.value.variableNonceLen else 0
  }

  /** `add_outgoing`: None when the flight is full. The handshake counter has sixteen bits. */
  ghost function AddOutgoing(f: Flight, isCcs: bool, data: seq<byte>): (r: Option<Flight>)
    requires f.Valid()
    ensures r.Some? ==> r.value.Valid()
  {
    if |f.messages| >= MAX_FLIGHT then None
    else Some(f.(writeSeq := if isCcs then f.writeSeq else (f.writeSeq + 1) % 0x1_0000,
                 messages := f.messages + [OutgoingMessage(isCcs, data, f.w.epoch)]))
  }

  /** `dtls_clear_outgoing_messages` */
  ghost function ClearOutgoing(f: Flight): (r: Flight)
    requires f.Valid()
    ensures r.Valid()
  {
    f.(messages := [], written := 0, offset := 0)
  }

  /** The results of `seal_next_message`. */
  datatype SealResult = SealError | NoProgress | Partial(record: Sealed) | Complete(record: Sealed)

  /** The checks on the stored message: one fragment, whole, and nothing after it. */
  function StoredMessage(data: seq<byte>): (f: Option<Fragment.Fragment>)
    ensures f.Some? ==> f.value.fragOff == 0 && f.value.msgLen == |f.value.body| < 0x100_0000
    ensures f.Some? ==> f.value.Encodable()
  {
    match Fragment.Parse(data)
    case Malformed => None
    case Parsed(f, rest) =>
      Fragment.EncodeParse(data);
      if f.fragOff != 0 || f.msgLen != |f.body| || rest != [] then None else Some(f)
  }

  ghost function Seal1(f: Flight, rng: Rng, typ: byte, pt: seq<byte>, maxOut: nat): (r: (Flight, Option<Sealed>))
    requires f.Valid() && Fair(rng) && f.written < |f.messages|
    ensures r.0.Valid() && r.0 == f.(w := r.0.w)
    ensures r.1.Some? ==> r.1.value.Valid() && 0 < |r.1.value.Bytes()| <= maxOut
    ensures r.1.Some? ==> r.1.value == SealedBy(f.w, f.Previous(), typ, pt, f.Random(rng))
  {
    var (w', out) := SealRecord(f.w, f.Previous(), typ, pt, maxOut, f.Random(rng));
    if out.Some? then
      SealRecordBytes(f.w, f.Previous(), typ, pt, maxOut, f.Random(rng));
      (f.(w := w'), Some(SealedBy(f.w, f.Previous(), typ, pt, f.Random(rng))))
    else (f.(w := w'), None)
  }

  /** How many body bytes of the message fit. */
  function Todo(left: nat, maxOut: nat, overhead: nat): (n: nat)
    requires maxOut >= Fragment.HEADER_LENGTH + 1 + overhead
    ensures n <= left && (left > 0 ==> n > 0)
  {
    if left > maxOut - Fragment.HEADER_LENGTH - overhead then maxOut - Fragment.HEADER_LENGTH - overhead else left
  }

  function Slice(m: Fragment.Fragment, offset: nat, todo: nat): (f: Fragment.Fragment)
    requires m.Encodable() && m.msgLen == |m.body| && offset + todo <= |m.body|
    ensures f.Encodable()
  {
    m.(fragOff := offset, body := m.body[offset..offset + todo])
  }

  /** `seal_next_message` */
  ghost function SealNextMessage(f: Flight, rng: Rng, maxOut: nat): (r: (Flight, SealResult))
    requires f.Valid() && Fair(rng) && f.written < |f.messages|
    ensures r.0.Valid() && r.0 == f.(w := r.0.w, offset := r.0.offset)
    ensures r.1.NoProgress? ==> r.0 == f
    ensures r.1.Complete? ==> r.0.offset == 0
    ensures r.1.Partial? || r.1.Complete? ==> r.1.record.Valid() && 0 < |r.1.record.Bytes()| <= maxOut
  {
    var overhead := f.w.Overhead(f.Previous());
    var prefix := f.w.PrefixLen(f.Previous());
    var m := f.messages[f.written];
    if m.isCcs then
      if maxOut < 1 + overhead then (f, NoProgress)
      else
        var (f', s) := Seal1(f, rng, CHANGE_CIPHER_SPEC, [1], maxOut);
        (f', if s.Some? then Complete(s.value) else SealError)
    else
      var stored := StoredMessage(m.data);
      if stored.None? || f.offset > |stored.value.body| then (f, SealError)
      else if maxOut < Fragment.HEADER_LENGTH + 1 + overhead || maxOut < prefix then (f, NoProgress)
      else
        var left := |stored.value.body| - f.offset;
        var todo := Todo(left, maxOut, overhead);
        if Fragment.HEADER_LENGTH + todo > maxOut - prefix then (f, SealError)
        else
          var (f', s) := Seal1(f, rng, HANDSHAKE, Fragment.Encode(Slice(stored.value, f.offset, todo)), maxOut);
          if s.None? then (f', SealError)
          else if todo == left then (f'.(offset := 0), Complete(s.value))
          else (f'.(offset := f.offset + todo), Partial(s.value))
  }

  /** The loop of `seal_next_packet`: the records of one packet, or None after an error. */
  ghost function FillPacket(f: Flight, rng: Rng, maxOut: nat): (r: (Flight, Option<seq<Sealed>>))
    requires f.Valid() && Fair(rng)
    ensures r.0.Valid() && r.0 == f.(w := r.0.w, written := r.0.written, offset := r.0.offset)
    ensures f.written <= r.0.written
    ensures r.1.Some? ==> AllValid(r.1.value) && |PacketOf(r.1.value)| <= maxOut
    decreases |f.messages| - f.written
  {
    if f.written == |f.messages| then (f, Some([]))
    else
      var (f', result) := SealNextMessage(f, rng, maxOut);
      match result
      case SealError => (f', None)
      case NoProgress => (f', Some([]))
      case Partial(s) => assert [s][1..] == []; (f', Some([s]))
      case Complete(s) =>
        var (last, rest) := FillPacket(f'.(written := f.written + 1), rng, maxOut - |s.Bytes()|);
        if rest.None? then (last, None)
        else
          assert ([s] + rest.value)[1..] == rest.value;
          (last, Some([s] + rest.value))
  }

  /** `seal_next_packet`: an MTU too small for any progress is an error. */
  ghost function SealNextPacket(f: Flight, rng: Rng, maxOut: nat): (r: (Flight, Option<seq<Sealed>>))
    requires f.Valid() && Fair(rng) && f.written < |f.messages|
    ensures r.0.Valid() && r.0 == f.(w := r.0.w, written := r.0.written, offset := r.0.offset)
    ensures r.1.Some? ==> AllValid(r.1.value) && 0 < |PacketOf(r.1.value)| <= maxOut
  {
    var (f', records) := FillPacket(f, rng, maxOut);
    if records.Some? && records.value != [] then
      assert PacketOf(records.value) == records.value[0].Bytes() + PacketOf(records.value[1..]);
      assert records.value[0].Valid();
      (f', records)
    else (f', None)
  }

  /** The body bytes of the next message still to be sent. */
  ghost function BytesLeft(f: Flight): (n: nat)
  {
    if f.written >= |f.messages| then 0
    else
      var stored := StoredMessage(f.messages[f.written].data);
      if stored.None? || f.offset > |stored.value.body| then 0 else |stored.value.body| - f.offset
  }

  lemma PartialLeavesLess(f: Flight, rng: Rng, maxOut: nat)
    requires f.Valid() && Fair(rng) && f.written < |f.messages|
    ensures var (f', result) := SealNextMessage(f, rng, maxOut); result.Partial? ==> BytesLeft(f') < BytesLeft(f)
  {
    hide Seal1;
  }

  /** A packet that is not refused leaves fewer messages, or fewer bytes of the same one. */
  lemma PacketMakesProgress(f: Flight, rng: Rng, maxOut: nat)
    requires f.Valid() && Fair(rng)
    ensures var (f', records) := FillPacket(f, rng, maxOut);
            records.Some? && records.value != [] ==>
              f'.written > f.written || (f'.written == f.written && BytesLeft(f') < BytesLeft(f))
  {
    if f.written < |f.messages| {
      PartialLeavesLess(f, rng, maxOut);
      hide SealNextMessage, BytesLeft;
    }
  }

  /** How a flush ends. `Blocked` carries what the transport returned. */
  datatype FlushResult = Flushed | Blocked(ret: int) | Failed

  /** The loop of `dtls1_flush_flight`: the packets the transport took, each as its
      records. `bio(k)` is what the transport returns for the k-th write. A packet
      that is not taken is given up and its messages are rewound; its record numbers
      are not. */
  ghost function Flush(f: Flight, rng: Rng, mtu: nat, bio: nat -> int, k: nat)
    : (r: (Flight, seq<seq<Sealed>>, FlushResult))
    requires f.Valid() && Fair(rng)
    ensures r.0.Valid() && r.0 == f.(w := r.0.w, written := r.0.written, offset := r.0.offset)
    ensures forall p | p in r.1 :: AllValid(p) && 0 < |PacketOf(p)| <= mtu
    ensures r.2.Flushed? ==> r.0.written == |f.messages|
    ensures r.2.Blocked? ==> r.2.ret <= 0
    decreases |f.messages| - f.written, BytesLeft(f)
  {
    if f.written == |f.messages| then (f, [], Flushed)
    else
      var (f', packet) := SealNextPacket(f, rng, mtu);
      if packet.None? then (f', [], Failed)
      else if bio(k) <= 0 then (f'.(written := f.written, offset := f.offset), [], Blocked(bio(k)))
      else
        PacketMakesProgress(f, rng, mtu);
        var (last, packets, result) := Flush(f', rng, mtu, bio, k + 1);
        (last, [packet.value] + packets, result)
  }

  /** `dtls1_retransmit_outgoing_messages` */
  ghost function Retransmit(f: Flight, rng: Rng, mtu: nat, bio: nat -> int)
    : (r: (Flight, seq<seq<Sealed>>, FlushResult))
    requires f.Valid() && Fair(rng)
  {
    Flush(f.(written := 0, offset := 0), rng, mtu, bio, 0)
  }
}

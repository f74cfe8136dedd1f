/** The outgoing flight as `dtls1_state_st` holds it: messages stay buffered for
    retransmission, and a cursor says how far they have been written. */
module FlightWriter {
  import opened Bytes
  import opened Aead
  import opened DtlsRecord
  import opened DtlsRecordLayer
  import opened RecordRuns
  import opened HandshakeWriter
  import Fragment
  import FlightCoverage

  /** The result codes of `seal_next_message`. */
  datatype SealCode = FailedToSeal | NoRoom | SealedPart | SealedAll

  ghost predicate Agrees(code: SealCode, bytes: seq<byte>, r: SealResult)
    requires r.Partial? || r.Complete? ==> r.record.Valid()
  {
    match r
    case SealError => code.FailedToSeal?
    case NoProgress => code.NoRoom?
    case Partial(s) => code.SealedPart? && bytes == s.Bytes()
    case Complete(s) => code.SealedAll? && bytes == s.Bytes()
  }

  class OutgoingFlight {
    const writer: RecordWriter
    const outgoing: array<OutgoingMessage>
    var count: nat
    var written: nat
    var offset: nat
    var writeSeq: nat

    ghost predicate Framed()
      reads this, outgoing, writer, writer.writeSequence, writer.lastWriteSequence
    {
      writer.Valid() && outgoing.Length == MAX_FLIGHT && count <= MAX_FLIGHT
    }

    ghost predicate Valid()
      reads this, outgoing, writer, writer.writeSequence, writer.lastWriteSequence
    {
      Framed() && Abs().Valid()
    }

    ghost function Abs(): Flight
      requires Framed()
      reads this, outgoing, writer, writer.writeSequence, writer.lastWriteSequence
    {
      Flight(writer.Abs(), writeSeq, outgoing[..count], written, offset)
    }

    constructor ()
      ensures Valid() && fresh(writer) && fresh(outgoing)
      ensures fresh(writer.writeSequence) && fresh(writer.lastWriteSequence)
      ensures Abs() == Flight(WriteState(false, 0, 0, 0, 0, None), 0, [], 0, 0)
    {
      writer := new RecordWriter();
      outgoing := new OutgoingMessage[MAX_FLIGHT](_ => OutgoingMessage(false, [], 0));
      count, written, offset, writeSeq := 0, 0, 0, 0;
    }

    /** `add_outgoing` */
    method AddOutgoing(isCcs: bool, data: seq<byte>) returns (ok: bool)
      requires Valid()
      modifies this, outgoing
      ensures Valid()
      ensures var r := HandshakeWriter.AddOutgoing(old(Abs()), isCcs, data);
              ok == r.Some? && Abs() == if r.Some? then r.value else old(Abs())
    {
      if count >= MAX_FLIGHT {
        return false;
      }
      if !isCcs {
        writeSeq := (writeSeq + 1) % 0x1_0000;
      }
      ghost var before := outgoing[..count];
      outgoing[count] := OutgoingMessage(isCcs, data, writer.epoch);
      count := count + 1;
      assert outgoing[..count] == before + [OutgoingMessage(isCcs, data, writer.epoch)];
      return true;
    }

    /** `dtls_clear_outgoing_messages` */
    method ClearOutgoing()
      requires Valid()
      modifies this
      ensures Valid() && Abs() == HandshakeWriter.ClearOutgoing(old(Abs()))
    {
      count, written, offset := 0, 0, 0;
    }

    /** Seals the payload of the next message in the epoch the message belongs to. */
    method SealPayload(rng: Rng, previous: bool, typ: byte, pt: seq<byte>, maxOut: nat) returns (out: Option<seq<byte>>)
      requires Valid() && Fair(rng) && written < count && previous == Abs().Previous()
      modifies writer.writeSequence, writer.lastWriteSequence
      ensures Valid()
      ensures var (f', s) := Seal1(old(Abs()), rng, typ, pt, maxOut);
              Abs() == f' && out == if s.Some? then Some(s.value.Bytes()) else None
    {
      var cipher := if previous then None else writer.cipher;
      var number := if previous then FromBe(writer.lastWriteSequence[2..])
                    else writer.epoch * TWO_48 + FromBe(writer.writeSequence[2..]);
      ghost var f := Abs();
      assert number == Number(f.w.UsedEpoch(previous), f.w.UsedSeqNum(previous));
      var random := rng(number, NonceLen(cipher));
      out := writer.SealRecord(previous, typ, pt, maxOut, random);
      if out.Some? {
        SealRecordBytes(f.w, previous, typ, pt, maxOut, random);
      }
    }

    /** The part of `seal_next_message` for a ChangeCipherSpec. */
    method SealCcs(rng: Rng, previous: bool, maxOut: nat) returns (code: SealCode, bytes: seq<byte>)
      requires Valid() && Fair(rng) && written < count && outgoing[written].isCcs && previous == Abs().Previous()
      modifies writer.writeSequence, writer.lastWriteSequence
      ensures Valid()
      ensures var (f', r) := HandshakeWriter.SealNextMessage(old(Abs()), rng, maxOut);
              Abs() == f' && Agrees(code, bytes, r)
    {
      hide Seal1, StoredMessage;
      var overhead := RT_HEADER_LENGTH + MaxOverhead(if previous then None else writer.cipher);
      if maxOut < 1 + overhead {
        return NoRoom, [];
      }
      var record := SealPayload(rng, previous, CHANGE_CIPHER_SPEC, [1], maxOut);
      if record.None? {
        return FailedToSeal, [];
      }
      return SealedAll, record.value;
    }

    /** The part of `seal_next_message` for a handshake message. */
    method SealFragment(rng: Rng, previous: bool, maxOut: nat) returns (code: SealCode, bytes: seq<byte>)
      requires Valid() && Fair(rng) && written < count && !outgoing[written].isCcs && previous == Abs().Previous()
      modifies `offset, writer.writeSequence, writer.lastWriteSequence
      ensures Valid()
      ensures var (f', r) := HandshakeWriter.SealNextMessage(old(Abs()), rng, maxOut);
              Abs() == f' && Agrees(code, bytes, r)
    {
      hide Seal1, StoredMessage, Todo, Slice, MaxOverhead, ExplicitNonceLen;
      var cipher := if previous then None else writer.cipher;
      var overhead := RT_HEADER_LENGTH + MaxOverhead(cipher);
      var prefix := RT_HEADER_LENGTH + ExplicitNonceLen(cipher);
      var stored := StoredMessage(outgoing[written].data);
      if stored.None? || offset > |stored.value.body| {
        return FailedToSeal, [];
      }
      if maxOut < Fragment.HEADER_LENGTH + 1 + overhead || maxOut < prefix {
        return NoRoom, [];
      }
      var left := |stored.value.body| - offset;
      var todo := Todo(left, maxOut, overhead);
      if Fragment.HEADER_LENGTH + todo > maxOut - prefix {
        return FailedToSeal, [];
      }
      var record := SealPayload(rng, previous, HANDSHAKE, Fragment.Encode(Slice(stored.value, offset, todo)), maxOut);
      if record.None? {
        return FailedToSeal, [];
      }
      if todo == left {
        offset := 0;
        return SealedAll, record.value;
      }
      offset := offset + todo;
      return SealedPart, record.value;
    }

    /** `seal_next_message` */
    method SealNextMessage(rng: Rng, maxOut: nat) returns (code: SealCode, bytes: seq<byte>)
      requires Valid() && Fair(rng) && written < count
      modifies `offset, writer.writeSequence, writer.lastWriteSequence
      ensures Valid()
      ensures var (f', r) := HandshakeWriter.SealNextMessage(old(Abs()), rng, maxOut);
              Abs() == f' && Agrees(code, bytes, r)
    {
      var previous := writer.epoch == 1 && outgoing[written].epoch == 0;
      if outgoing[written].isCcs {
        code, bytes := SealCcs(rng, previous, maxOut);
      } else {
        code, bytes := SealFragment(rng, previous, maxOut);
      }
    }

    /** One round of the loop in `seal_next_packet`. */
    method FillStep(rng: Rng, room: nat) returns (code: SealCode, bytes: seq<byte>, ghost s: seq<Sealed>)
      requires Valid() && Fair(rng) && written < count
      modifies `written, `offset, writer.writeSequence, writer.lastWriteSequence
      ensures Valid() && AllValid(s) && |bytes| <= room
      ensures code.SealedAll? || code.SealedPart? ==> |s| == 1 && bytes == s[0].Bytes() != []
      ensures FillPacket(old(Abs()), rng, room) ==
              match code
              case FailedToSeal => (Abs(), None)
              case NoRoom => (Abs(), Some([]))
              case SealedPart => (Abs(), Some(s))
              case SealedAll => Prefixed(s, FillPacket(Abs(), rng, room - |bytes|))
      ensures count == old(count) && (code.SealedAll? ==> written == old(written) + 1)
      ensures !code.SealedAll? ==> written == old(written)
    {
      hide HandshakeWriter.SealNextMessage, FillPacket, Prefixed;
      FillTurn(Abs(), rng, room);
      ghost var r := HandshakeWriter.SealNextMessage(Abs(), rng, room).1;
      code, bytes := SealNextMessage(rng, room);
      s := if r.Complete? || r.Partial? then [r.record] else [];
      if code.SealedAll? {
        written := written + 1;
      } else if !code.SealedPart? {
        bytes := [];
      }
    }

    /** `seal_next_packet` */
    method SealNextPacket(rng: Rng, maxOut: nat) returns (packet: Option<seq<byte>>)
      requires Valid() && Fair(rng) && written < count
      modifies `written, `offset, writer.writeSequence, writer.lastWriteSequence
      ensures Valid()
      ensures var (f', records) := HandshakeWriter.SealNextPacket(old(Abs()), rng, maxOut);
              Abs() == f' && packet == if records.Some? then Some(PacketOf(records.value)) else None
    {
      hide FillPacket;
      var out: seq<byte> := [];
      var room: nat := maxOut;
      ghost var sealed: seq<Sealed> := [];
      PrefixedNone(FillPacket(Abs(), rng, room));
      while written < count
        invariant Valid()
        invariant AllValid(sealed) && out == PacketOf(sealed)
        invariant sealed != [] ==> out != []
        invariant FillPacket(old(Abs()), rng, maxOut) == Prefixed(sealed, FillPacket(Abs(), rng, room))
        decreases count - written
      {
        var code, bytes, s := FillStep(rng, room);
        if code.FailedToSeal? {
          return None;
        }
        if !code.NoRoom? {
          out, room := out + bytes, room - |bytes|;
          assert s == [s[0]];
          PacketOfAppend(sealed, s[0]);
          if code.SealedAll? {
            PrefixedMore(sealed, s[0], FillPacket(Abs(), rng, room));
          }
          sealed := sealed + s;
        }
        if !code.SealedAll? {
          assert sealed + [] == sealed;
          return if out == [] then None else Some(out);
        }
      }
      EndOfFlight(Abs(), rng, room);
      assert sealed + [] == sealed;
      return if out == [] then None else Some(out);
    }

    /** One packet of `dtls1_flush_flight`: sealed, handed to the transport, and rewound
        if the transport does not take it. */
    method FlushStep(rng: Rng, mtu: nat, bio: nat -> int, k: nat)
      returns (packet: Option<seq<byte>>, ghost sent: seq<Sealed>)
      requires Valid() && Fair(rng) && written < count
      modifies `written, `offset, writer.writeSequence, writer.lastWriteSequence
      ensures Valid()
      ensures packet.None? ==> Flush(old(Abs()), rng, mtu, bio, k) == (Abs(), [], Failed)
      ensures packet.Some? && bio(k) <= 0 ==>
                Flush(old(Abs()), rng, mtu, bio, k) == (Abs(), [], HandshakeWriter.Blocked(bio(k)))
      ensures packet.Some? && bio(k) > 0 ==>
                && AllValid(sent) && packet.value == PacketOf(sent)
                && Flush(old(Abs()), rng, mtu, bio, k) == Delivered([sent], Flush(Abs(), rng, mtu, bio, k + 1))
                && (written > old(written) || (written == old(written) && BytesLeft(Abs()) < old(BytesLeft(Abs()))))
    {
      hide FillPacket;
      var oldWritten, oldOffset := written, offset;
      ghost var f := Abs();
      ghost var r := HandshakeWriter.SealNextPacket(f, rng, mtu);
      packet := SealNextPacket(rng, mtu);
      PacketMakesProgress(f, rng, mtu);
      sent := if r.1.Some? then r.1.value else [];
      if packet.Some? && bio(k) <= 0 {
        written, offset := oldWritten, oldOffset;
      }
    }

    /** `dtls1_flush_flight`. `bio(k)` is what the transport returns for the k-th write
        and `flushed` whether its own flush succeeds; `wire` lists the packets it took. */
    method FlushFlight(rng: Rng, mtu: nat, bio: nat -> int, flushed: bool) returns (ret: int, wire: seq<seq<byte>>)
      requires Valid() && Fair(rng)
      modifies `written, `offset, writer.writeSequence, writer.lastWriteSequence
      ensures Valid()
      ensures var (f', packets, result) := Flush(old(Abs()), rng, mtu, bio, 0);
              && Abs() == f' && wire == OnTheWire(packets)
              && ret == ReturnCode(result, flushed)
    {
      hide Flush;
      wire := [];
      ghost var packets: seq<seq<Sealed>> := [];
      DeliveredNone(Flush(Abs(), rng, mtu, bio, 0));
      while written < count
        invariant Valid()
        invariant forall i | 0 <= i < |packets| :: AllValid(packets[i])
        invariant wire == OnTheWire(packets)
        invariant Flush(old(Abs()), rng, mtu, bio, 0) == Delivered(packets, Flush(Abs(), rng, mtu, bio, |wire|))
        decreases count - written, BytesLeft(Abs())
      {
        var packet, sent := FlushStep(rng, mtu, bio, |wire|);
        if packet.None? {
          assert packets + [] == packets;
          return -1, wire;
        }
        if bio(|wire|) <= 0 {
          assert packets + [] == packets;
          return bio(|wire|), wire;
        }
        DeliveredMore(packets, sent, Flush(Abs(), rng, mtu, bio, |wire| + 1));
        packets := packets + [sent];
        wire := wire + [packet.value];
      }
      NothingToFlush(Abs(), rng, mtu, bio, |wire|);
      assert packets + [] == packets;
      ret := if flushed then 1 else -1;
    }

    /** `dtls1_retransmit_outgoing_messages` */
    method RetransmitOutgoingMessages(rng: Rng, mtu: nat, bio: nat -> int, flushed: bool)
      returns (ret: int, wire: seq<seq<byte>>)
      requires Valid() && Fair(rng)
      modifies `written, `offset, writer.writeSequence, writer.lastWriteSequence
      ensures Valid()
      ensures var (f', packets, result) := Retransmit(old(Abs()), rng, mtu, bio);
              && Abs() == f' && wire == OnTheWire(packets)
              && ret == ReturnCode(result, flushed)
    {
      hide Flush;
      written, offset := 0, 0;
      ret, wire := FlushFlight(rng, mtu, bio, flushed);
    }
  }

  /** The packets as the transport sees them. */
  ghost function OnTheWire(packets: seq<seq<Sealed>>): (w: seq<seq<byte>>)
    requires forall i | 0 <= i < |packets| :: AllValid(packets[i])
  {
    seq(|packets|, i requires 0 <= i < |packets| => PacketOf(packets[i]))
  }

  ghost function ReturnCode(result: FlushResult, flushed: bool): int
  {
    match result
    case Flushed => if flushed then 1 else -1
    case Blocked(ret) => ret
    case Failed => -1
  }

  ghost function Delivered(sent: seq<seq<Sealed>>, r: (Flight, seq<seq<Sealed>>, FlushResult))
    : (d: (Flight, seq<seq<Sealed>>, FlushResult))
  {
    (r.0, sent + r.1, r.2)
  }

  lemma DeliveredNone(r: (Flight, seq<seq<Sealed>>, FlushResult))
    ensures Delivered([], r) == r
  {
    assert [] + r.1 == r.1;
  }

  lemma NothingToFlush(f: Flight, rng: Rng, mtu: nat, bio: nat -> int, k: nat)
    requires f.Valid() && Fair(rng) && f.written == |f.messages|
    ensures Flush(f, rng, mtu, bio, k) == (f, [], Flushed)
  {
  }

  lemma DeliveredMore(packets: seq<seq<Sealed>>, p: seq<Sealed>, r: (Flight, seq<seq<Sealed>>, FlushResult))
    ensures Delivered(packets, Delivered([p], r)) == Delivered(packets + [p], r)
  {
    assert packets + ([p] + r.1) == (packets + [p]) + r.1;
  }

  /** One round of the packet that is being filled. */
  lemma FillTurn(f: Flight, rng: Rng, room: nat)
    requires f.Valid() && Fair(rng) && f.written < |f.messages|
    ensures var (f', result) := HandshakeWriter.SealNextMessage(f, rng, room);
            FillPacket(f, rng, room) ==
              match result
              case SealError => (f', None)
              case NoProgress => (f', Some([]))
              case Partial(s) => (f', Some([s]))
              case Complete(s) =>
                Prefixed([s], FillPacket(f'.(written := f.written + 1), rng, room - |s.Bytes()|))
  {
    hide HandshakeWriter.SealNextMessage, PacketOf, AllValid;
  }

  lemma EndOfFlight(f: Flight, rng: Rng, room: nat)
    requires f.Valid() && Fair(rng) && f.written == |f.messages|
    ensures FillPacket(f, rng, room) == (f, Some([]))
  {
  }

  lemma PrefixedNone(r: (Flight, Option<seq<Sealed>>))
    ensures Prefixed([], r) == r
  {
    if r.1.Some? {
      assert [] + r.1.value == r.1.value;
    }
  }

  lemma PrefixedMore(sealed: seq<Sealed>, s: Sealed, r: (Flight, Option<seq<Sealed>>))
    ensures Prefixed(sealed, Prefixed([s], r)) == Prefixed(sealed + [s], r)
  {
    if r.1.Some? {
      assert sealed + ([s] + r.1.value) == (sealed + [s]) + r.1.value;
    }
  }

  ghost function Prefixed(sealed: seq<Sealed>, r: (Flight, Option<seq<Sealed>>)): (p: (Flight, Option<seq<Sealed>>))
  {
    (r.0, if r.1.None? then None else Some(sealed + r.1.value))
  }
}

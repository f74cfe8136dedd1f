/** Records that come out of order but are allowed to: application data that overtakes the
    Finished, and a ChangeCipherSpec before its time. They change nothing. */
module StrayRecords {
  import opened Bytes
  import opened Aead
  import opened DtlsRecord
  import opened RecordRuns
  import opened Reassembly
  import opened HandshakeReader
  import opened Delivery

  /** Application data once the connection is encrypted, a ChangeCipherSpec before that. */
  predicate Stray(encrypted: bool, content: Content) {
    if encrypted then content.ApplicationData? else content.ChangeCipherSpec?
  }

  /** Every record that is not handshake is either stray or ends the connection. */
  lemma OtherRecords(rc: Receiver, ctx: ReadContext, content: Content, payload: seq<byte>)
    requires |rc.slots| == HandshakeReader.MAX_FLIGHT && !content.Handshake?
    ensures ProcessRecord(rc, ctx, content, payload) ==
      if Stray(ctx.encrypted, content) then (rc, PassedOver) else (rc, Failed(UnexpectedRecord))
  {
  }

  /** The records without the stray ones. */
  function Heard(encrypted: bool, records: seq<Record>): seq<Record> {
    if records == [] then []
    else
      (if Stray(encrypted, records[0].content) then [] else [records[0]]) + Heard(encrypted, records[1..])
  }

  /** Wherever stray records come, the same messages are put together and handed out, and the
      same failures found, as without them; only more records are read. */
  lemma {:induction false} StrayRecordsChangeNothing(rc: Receiver, ctx: ReadContext, records: seq<Record>)
    requires |rc.slots| == HandshakeReader.MAX_FLIGHT
    ensures SameReading(ctx.encrypted, records, ReadUntilComplete(rc, ctx, records),
                        ReadUntilComplete(rc, ctx, Heard(ctx.encrypted, records)))
    decreases |records|
  {
    hide ProcessRecord, ReadUntilComplete, Heard;
    HeardNext(ctx.encrypted, records);
    var heard := Heard(ctx.encrypted, records);
    ReadEnds(rc, ctx, records);
    ReadEnds(rc, ctx, heard);
    if !rc.CurrentComplete() && records != [] {
      var r, rest := records[0], records[1..];
      var (next, outcome) := ProcessRecord(rc, ctx, r.content, r.payload);
      ReadNext(rc, ctx, records);
      HeardFirst(ctx.encrypted, records, ReadUntilComplete(rc, ctx, records).2);
      if Stray(ctx.encrypted, r.content) {
        OtherRecords(rc, ctx, r.content, r.payload);
        StrayRecordsChangeNothing(rc, ctx, rest);
      } else {
        ReadNext(rc, ctx, heard);
        if !outcome.Failed? {
          StrayRecordsChangeNothing(next, ctx, rest);
        } else {
          HeardNext(ctx.encrypted, rest[..0]);
        }
      }
    } else {
      HeardNext(ctx.encrypted, records[..0]);
    }
  }

  /** The same receiver and result, and the same number of records that are not stray. */
  ghost predicate SameReading(encrypted: bool, records: seq<Record>, read: (Receiver, GetResult, nat),
        heard: (Receiver, GetResult, nat))
  {
    && read.0 == heard.0 && read.1 == heard.1 && read.2 <= |records|
    && |Heard(encrypted, records[..read.2])| == heard.2
  }

  lemma HeardNext(encrypted: bool, records: seq<Record>)
    ensures var heard := Heard(encrypted, records);
            if records == [] then heard == []
            else if Stray(encrypted, records[0].content) then heard == Heard(encrypted, records[1..])
            else heard != [] && heard[0] == records[0] && heard[1..] == Heard(encrypted, records[1..])
  {
  }

  lemma HeardFirst(encrypted: bool, records: seq<Record>, n: nat)
    requires records != []
    ensures 0 < n <= |records| ==>
      |Heard(encrypted, records[..n])| ==
        (if Stray(encrypted, records[0].content) then 0 else 1) + |Heard(encrypted, records[1..][..n - 1])|
  {
    if 0 < n <= |records| {
      assert records[..n][1..] == records[1..][..n - 1];
    }
  }

  lemma ReadEnds(rc: Receiver, ctx: ReadContext, records: seq<Record>)
    requires |rc.slots| == HandshakeReader.MAX_FLIGHT
    ensures rc.CurrentComplete() ==> ReadUntilComplete(rc, ctx, records) == (rc.(hasCurrent := true), Ready, 0)
    ensures !rc.CurrentComplete() && records == [] ==> ReadUntilComplete(rc, ctx, records) == (rc, GetResult.Blocked, 0)
  {
  }

  lemma ReadNext(rc: Receiver, ctx: ReadContext, records: seq<Record>)
    requires |rc.slots| == HandshakeReader.MAX_FLIGHT && !rc.CurrentComplete() && records != []
    ensures var (next, outcome) := ProcessRecord(rc, ctx, records[0].content, records[0].payload);
            ReadUntilComplete(rc, ctx, records) ==
              if outcome.Failed? then (next, Fatal(outcome.failure), 1)
              else Counted(ReadUntilComplete(next, ctx, records[1..]), 1)
  {
    hide ProcessRecord;
  }

  // ------------------------------------------------------------ in the whole system

  /** What comes of opening a record that the peer sealed and that is no alert. */
  lemma OwnRecordResult(r: ReadState, s: Sealed, rest: seq<byte>)
    requires r.Valid() && s.Valid() && (s.number / TWO_48 == r.epoch ==> s.cipher == r.cipher)
    requires s.typ != ALERT && |s.pt| <= MAX_PLAIN_LENGTH
    ensures var result := OpenRecord(r, s.Bytes() + rest).result;
            || result.Discard?
            || (result == Success(s.typ, s.pt) && s.number / TWO_48 == r.epoch)
  {
    var input := s.Bytes() + rest;
    DecodeSealed(s, r.haveVersion, r.version, rest);
    if s.number / TWO_48 == r.epoch {
      OpenSealed(s.cipher, |s.pt| + MaxOverhead(s.cipher), s.typ, s.version, NumberBytes(s.number), s.pt, s.random);
    }
    hide Decode, Seal, Open, NumberBytes, Window.Record, Window.ShouldDiscard;
  }

  lemma HeadResult(c: Setup, s: System)
    requires Inv(c, s) && s.buffer != [] && s.bufferRecords != []
    requires s.bufferRecords[0].typ != ALERT && |s.bufferRecords[0].pt| <= MAX_PLAIN_LENGTH
    ensures var first, result := s.bufferRecords[0], OpenRecord(s.reader, s.buffer).result;
            || result.Discard?
            || (result == Success(first.typ, first.pt) && first.number / TWO_48 == s.reader.epoch)
  {
    var first, rest := s.bufferRecords[0], PacketOf(s.bufferRecords[1..]);
    assert GenuineRecord(c, s.log, first);
    assert s.buffer == first.Bytes() + rest;
    OwnRecordResult(s.reader, first, rest);
  }

  /** A genuine record of application data of the second epoch, or a ChangeCipherSpec of the
      first, never ends the connection and leaves the ring of messages alone, whatever epoch
      the receiver is in when it arrives. */
  lemma StrayNeverFails(c: Setup, s: System)
    requires Inv(c, s) && Delivery.Enabled(c, s, ReadHandshake) && s.bufferRecords != [] && c.keys.Some?
    requires var first := s.bufferRecords[0];
             && |first.pt| <= MAX_PLAIN_LENGTH
             && first.typ == (if first.number / TWO_48 == 1 then APPLICATION_DATA else CHANGE_CIPHER_SPEC)
    ensures var s' := Step(c, s, ReadHandshake);
            !s'.failed && s'.receiver == s.receiver && s'.consumed == s.consumed
  {
    hide OpenRecord, ProcessRecord, GenuinePacket, SenderOk, NetworkOk, BufferOk, TranscriptOk;
    ConsumeKeepsBuffer(c, s);
    var first := s.bufferRecords[0];
    HeadResult(c, s);
    var o := OpenRecord(s.reader, s.buffer);
    if o.result.Success? {
      OtherRecords(s.receiver, ContextAt(c, Consume(s, o)), ContentOf(first.typ).value, first.pt);
    }
  }

  /** In the other epoch such a record ends the connection as soon as it is opened. */
  lemma MisplacedFails(c: Setup, s: System)
    requires Inv(c, s) && Delivery.Enabled(c, s, ReadHandshake) && s.bufferRecords != [] && c.keys.Some?
    requires var first := s.bufferRecords[0];
             && |first.pt| <= MAX_PLAIN_LENGTH
             && first.typ == (if first.number / TWO_48 == 1 then CHANGE_CIPHER_SPEC else APPLICATION_DATA)
    ensures Step(c, s, ReadHandshake).failed <==> OpenRecord(s.reader, s.buffer).result.Success?
  {
    hide OpenRecord, ProcessRecord, GenuinePacket, SenderOk, NetworkOk, BufferOk, TranscriptOk;
    ConsumeKeepsBuffer(c, s);
    var first := s.bufferRecords[0];
    HeadResult(c, s);
    var o := OpenRecord(s.reader, s.buffer);
    if o.result.Success? {
      OtherRecords(s.receiver, ContextAt(c, Consume(s, o)), ContentOf(first.typ).value, first.pt);
    }
  }
}

/** The seven-slot ring of `dtls1_state_st` that holds the receiver's messages. */
module ReaderRing {
  import opened Bytes
  import Fragment
  import opened Reassembly
  import opened HandshakeReader

  class HandshakeRing {
    const incoming: array<HmFragment?>
    var readSeq: nat
    /** `init_msg` is non-null: the message at the front has been handed out. */
    var hasCurrent: bool
    ghost var slots: seq<Option<Assembly>>
    ghost var Repr: set<object>

    ghost predicate Valid()
      reads this, Repr
      ensures Valid() ==> this in Repr && incoming in Repr && |slots| == MAX_FLIGHT
    {
      && this in Repr && incoming in Repr
      && incoming.Length == |slots| == MAX_FLIGHT
      && (forall i | 0 <= i < MAX_FLIGHT && incoming[i] != null ::
            && incoming[i] in Repr && incoming[i].Repr <= Repr
            && this !in incoming[i].Repr && incoming !in incoming[i].Repr
            && incoming[i].Valid())
      && (forall i, j | 0 <= i < j < MAX_FLIGHT && incoming[i] != null && incoming[j] != null ::
            incoming[i].Repr !! incoming[j].Repr)
      && (forall i | 0 <= i < MAX_FLIGHT ::
            slots[i] == if incoming[i] == null then None else Some(incoming[i].Abs()))
    }

    ghost function Abs(): Receiver
      reads this
    {
      Receiver(readSeq, slots, hasCurrent)
    }

    constructor ()
      ensures Valid() && fresh(Repr)
      ensures Abs() == Receiver(0, EMPTY_RING, false)
    {
      incoming := new HmFragment?[MAX_FLIGHT](_ => null);
      readSeq := 0;
      hasCurrent := false;
      slots := EMPTY_RING;
      Repr := {this, incoming};
    }

    /** Puts a new message into an empty slot. */
    method AddMessage(idx: nat, typ: byte, seqNum: nat, msgLen: nat)
      requires Valid() && idx < MAX_FLIGHT && incoming[idx] == null
      requires msgLen < 0x100_0000 && seqNum < 0x1_0000
      modifies this, incoming
      ensures Valid() && fresh(Repr - old(Repr)) && incoming[idx] != null
      ensures Abs() == old(Abs()).(slots := old(slots)[idx := Some(Fresh(typ, seqNum, msgLen))])
    {
      var frag := new HmFragment(typ, seqNum, msgLen);
      incoming[idx] := frag;
      Repr := Repr + frag.Repr;
      slots := slots[idx := Some(frag.Abs())];
    }

    /** `dtls1_get_incoming_message`: finds the message a fragment belongs to, or adds
        it when this is its first fragment. */
    method GetIncomingMessage(f: Fragment.Fragment) returns (outcome: Outcome)
      requires Valid() && Abs().Valid() && f.Encodable() && readSeq <= f.seqNum
      modifies this, incoming
      ensures Valid() && fresh(Repr - old(Repr))
      ensures outcome == if f.seqNum - readSeq >= MAX_FLIGHT then Failed(TooFarAhead)
                         else if Slot(old(Abs()), f).typ != f.typ || Slot(old(Abs()), f).msgLen != f.msgLen
                         then Failed(FragmentMismatch) else Consumed
      ensures Abs() == if outcome.Failed? then old(Abs())
                       else old(Abs()).(slots := old(slots)[f.seqNum % MAX_FLIGHT := Some(Slot(old(Abs()), f))])
    {
      if f.seqNum - readSeq >= MAX_FLIGHT {
        return Failed(TooFarAhead);
      }
      var idx := f.seqNum % MAX_FLIGHT;
      var frag := incoming[idx];
      if frag != null {
        SlotHoldsItsMessage(Abs(), f.seqNum);
        assert frag.seqNum == f.seqNum;
        if frag.typ != f.typ || frag.msgLen != f.msgLen {
          return Failed(FragmentMismatch);
        }
        return Consumed;
      }
      AddMessage(idx, f.typ, f.seqNum, f.msgLen);
      return Consumed;
    }

    /** Copies a fragment's bytes into the message in slot `idx`. */
    method Fill(idx: nat, start: nat, body: seq<byte>) returns (pastEnd: bool)
      requires Valid() && idx < MAX_FLIGHT
      requires slots[idx].Some? && start + |body| <= slots[idx].value.msgLen
      modifies Repr
      ensures Valid() && Repr == old(Repr)
      ensures Abs() == old(Abs()).(slots := old(slots)[idx := Some(Absorb(old(slots)[idx].value, start, body))])
      ensures pastEnd <==>
        !old(slots)[idx].value.Complete() && start == old(slots)[idx].value.msgLen && start % 8 == 0
    {
      var m := incoming[idx];
      pastEnd := m.Receive(start, body);
      slots := slots[idx := Some(m.Abs())];
    }

    /** The loop body of `dtls1_process_handshake_record`. */
    method ProcessFragment(ctx: ReadContext, f: Fragment.Fragment) returns (outcome: Outcome, pastEnd: bool)
      requires Valid() && Abs().Valid() && f.Encodable()
      modifies Repr
      ensures Valid() && fresh(Repr - old(Repr))
      ensures (Abs(), outcome) == HandshakeReader.ProcessFragment(old(Abs()), ctx, f)
      ensures pastEnd <==> MarksPastEnd(old(Abs()), ctx, f)
    {
      if f.fragOff > f.msgLen || f.fragOff + |f.body| > f.msgLen || f.msgLen > ctx.maxMessageLen {
        return Failed(ExcessiveMessageSize), false;
      }
      if ctx.epoch == 1 && f.seqNum != readSeq {
        return Failed(UnexpectedRecord), false;
      }
      if f.seqNum < readSeq || f.seqNum > readSeq + MAX_FLIGHT {
        return Consumed, false;
      }
      outcome := GetIncomingMessage(f);
      if outcome.Failed? {
        return outcome, false;
      }
      var idx := f.seqNum % MAX_FLIGHT;
      pastEnd := Fill(idx, f.fragOff, f.body);
      ghost var a := Slot(old(Abs()), f);
      assert old(slots)[idx := Some(a)][idx := Some(Absorb(a, f.fragOff, f.body))]
          == old(slots)[idx := Some(Absorb(a, f.fragOff, f.body))];
    }

    /** `dtls1_process_handshake_record` on a record that has been opened. */
    method ProcessHandshakeRecord(ctx: ReadContext, content: Content, payload: seq<byte>)
      returns (outcome: Outcome, pastEnd: bool)
      requires Valid() && Abs().Valid()
      modifies Repr
      ensures Valid() && fresh(Repr - old(Repr))
      ensures (Abs(), outcome) == ProcessRecord(old(Abs()), ctx, content, payload)
      ensures pastEnd <==> RecordMarksPastEnd(old(Abs()), ctx, content, payload)
    {
      pastEnd := false;
      if (content.ApplicationData? && ctx.encrypted) || (content.ChangeCipherSpec? && !ctx.encrypted) {
        return PassedOver, false;
      }
      if !content.Handshake? {
        return Failed(UnexpectedRecord), false;
      }
      var cbs := payload;
      while cbs != []
        invariant Valid() && Abs().Valid() && fresh(Repr - old(Repr))
        invariant ProcessFragments(Abs(), ctx, cbs) == ProcessFragments(old(Abs()), ctx, payload)
        invariant AnyMarksPastEnd(old(Abs()), ctx, payload) <==> pastEnd || AnyMarksPastEnd(Abs(), ctx, cbs)
        decreases |cbs|
      {
        match Fragment.Parse(cbs) {
          case Malformed =>
            return Failed(BadHandshakeRecord), pastEnd;
          case Parsed(f, rest) =>
            Fragment.EncodeParse(cbs);
            var result, past := ProcessFragment(ctx, f);
            pastEnd := pastEnd || past;
            if result.Failed? {
              return result, pastEnd;
            }
            cbs := rest;
        }
      }
      return Consumed, pastEnd;
    }

    /** `dtls1_release_current_message` */
    method ReleaseCurrentMessage()
      requires Valid()
      modifies this, incoming
      ensures Valid() && Repr == old(Repr)
      ensures Abs() == Release(old(Abs()))
    {
      if hasCurrent {
        incoming[readSeq % MAX_FLIGHT] := null;
        slots := slots[readSeq % MAX_FLIGHT := None];
        readSeq := NextSeq(readSeq);
        hasCurrent := false;
      }
    }

    /** The message at the front, header and body, as `dtls1_get_current_message` returns it. */
    method CurrentMessage() returns (bytes: seq<byte>)
      requires Valid() && Abs().Valid() && Abs().CurrentComplete()
      ensures bytes == Serialized(Abs().Front().value)
    {
      var frag := incoming[readSeq % MAX_FLIGHT];
      bytes := frag.data[..];
    }

    /** `dtls1_is_current_message_complete` */
    method IsCurrentMessageComplete() returns (complete: bool)
      requires Valid()
      ensures complete == Abs().CurrentComplete()
    {
      var frag := incoming[readSeq % MAX_FLIGHT];
      complete := frag != null && frag.reassembly == null;
    }

    /** The end of `dtls1_get_message`: the complete message becomes the current one. */
    method MarkCurrent()
      requires Valid()
      modifies this
      ensures Valid() && Repr == old(Repr)
      ensures Abs() == old(Abs()).(hasCurrent := true)
    {
      hasCurrent := true;
    }

    /** The loop of `dtls1_get_message`: reads records until the message at the front
        is complete. `records` is what the record layer will deliver; `used` of them
        are read. */
    method ReadRecords(ctx: ReadContext, records: seq<Record>) returns (result: GetResult, used: nat, pastEnd: bool)
      requires Valid() && Abs().Valid()
      modifies Repr
      ensures Valid() && fresh(Repr - old(Repr))
      ensures (Abs(), result, used) == ReadUntilComplete(old(Abs()), ctx, records)
      ensures pastEnd <==> ReadingMarksPastEnd(old(Abs()), ctx, records)
    {
      hide Valid, ProcessRecord, Receiver.CurrentComplete, Receiver.Valid, RecordMarksPastEnd;
      var rest := records;
      used, pastEnd := 0, false;
      var complete := IsCurrentMessageComplete();
      while !complete
        invariant Valid() && Abs().Valid() && fresh(Repr - old(Repr))
        invariant complete == Abs().CurrentComplete()
        invariant ReadUntilComplete(old(Abs()), ctx, records)
               == Counted(ReadUntilComplete(Abs(), ctx, rest), used)
        invariant ReadingMarksPastEnd(old(Abs()), ctx, records) <==> pastEnd || ReadingMarksPastEnd(Abs(), ctx, rest)
        decreases |rest|, !complete
      {
        if rest == [] {
          return Blocked, used, pastEnd;
        }
        var outcome, past := ProcessHandshakeRecord(ctx, rest[0].content, rest[0].payload);
        rest := rest[1..];
        used, pastEnd := used + 1, pastEnd || past;
        if outcome.Failed? {
          return Fatal(outcome.failure), used, pastEnd;
        }
        complete := IsCurrentMessageComplete();
      }
      MarkCurrent();
      return Ready, used, pastEnd;
    }

    /** `dtls1_get_message`: gives up the message handed out last, unless it is to be
        used again, then reads the next one. */
    method GetMessage(ctx: ReadContext, reuse: bool, records: seq<Record>)
      returns (result: GetResult, used: nat, pastEnd: bool)
      requires Valid() && Abs().Valid() && (reuse ==> hasCurrent)
      modifies Repr
      ensures Valid() && fresh(Repr - old(Repr))
      ensures (Abs(), result, used) ==
              ReadUntilComplete(if reuse then old(Abs()) else Release(old(Abs())), ctx, records)
      ensures pastEnd <==>
        ReadingMarksPastEnd(if reuse then old(Abs()) else Release(old(Abs())), ctx, records)
    {
      if !reuse {
        ReleaseCurrentMessage();
      }
      result, used, pastEnd := ReadRecords(ctx, records);
    }

    /** `dtls_has_incoming_messages`: is anything held besides the current message? */
    method HasIncomingMessages() returns (found: bool)
      requires Valid()
      ensures found <==> Buffered(Abs())
    {
      for i := 0 to MAX_FLIGHT
        invariant forall j | 0 <= j < i && slots[j].Some? :: hasCurrent && j == readSeq % MAX_FLIGHT
      {
        if hasCurrent && i == readSeq % MAX_FLIGHT {
          continue;
        }
        if incoming[i] != null {
          assert slots[i].Some?;
          return true;
        }
      }
      return false;
    }
  }
}

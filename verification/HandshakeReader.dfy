/** The receiving half of the DTLS handshake transport: a ring of messages under
    reassembly, indexed by sequence number modulo the longest flight. */
module HandshakeReader {
  import opened Bytes
  import Fragment
  import opened Reassembly

  /** SSL_MAX_HANDSHAKE_FLIGHT */
  const MAX_FLIGHT := 7

  datatype Content = ChangeCipherSpec | Alert | Handshake | ApplicationData

  datatype Failure =
    | UnexpectedRecord
    | BadHandshakeRecord
    | ExcessiveMessageSize
    | FragmentMismatch
    | TooFarAhead

  /** What became of a record: it was consumed, it was passed over and another one
      must be read, or the connection failed. */
  datatype Outcome = Consumed | PassedOver | Failed(failure: Failure)

  /** The configuration `dtls1_process_handshake_record` consults but does not change. */
  datatype ReadContext = ReadContext(epoch: nat, encrypted: bool, maxMessageLen: nat)

  /** The receiver by value: the ring of messages under reassembly, the number of
      the message at its front, and whether that message has been handed out. */
  datatype Receiver = Receiver(readSeq: nat, slots: seq<Option<Assembly>>, hasCurrent: bool)
  {
    /** Every occupied slot holds the one message of the window that belongs there. */
    ghost predicate Valid() {
      && readSeq < 0x1_0000
      && |slots| == MAX_FLIGHT
      && (forall i | 0 <= i < MAX_FLIGHT && slots[i].Some? ::
            && slots[i].value.Valid()
            && slots[i].value.seqNum % MAX_FLIGHT == i
            && readSeq <= slots[i].value.seqNum < readSeq + MAX_FLIGHT)
      && (hasCurrent ==> CurrentComplete())
    }

    ghost function Front(): Option<Assembly>
      requires |slots| == MAX_FLIGHT
    {
      slots[readSeq % MAX_FLIGHT]
    }

    /** `dtls1_is_current_message_complete` */
    ghost predicate CurrentComplete()
      requires |slots| == MAX_FLIGHT
    {
      Front().Some? && Front().value.Complete()
    }
  }

  const EMPTY_RING: seq<Option<Assembly>> := [None, None, None, None, None, None, None]

  /** The assertion in `dtls1_get_incoming_message`: the message found in the slot of
      a sequence number of the window is the message with that number. */
  lemma SlotHoldsItsMessage(rc: Receiver, s: nat)
    requires rc.Valid() && rc.readSeq <= s < rc.readSeq + MAX_FLIGHT
    ensures rc.slots[s % MAX_FLIGHT].Some? ==> rc.slots[s % MAX_FLIGHT].value.seqNum == s
  {
  }

  ghost function Slot(rc: Receiver, f: Fragment.Fragment): (a: Assembly)
    requires |rc.slots| == MAX_FLIGHT
  {
    match rc.slots[f.seqNum % MAX_FLIGHT]
    case Some(a) => a
    case None => Fresh(f.typ, f.seqNum, f.msgLen)
  }

  /** One fragment, in the order of the checks in `dtls1_process_handshake_record`
      and `dtls1_get_incoming_message`. */
  ghost function ProcessFragment(rc: Receiver, ctx: ReadContext, f: Fragment.Fragment): (r: (Receiver, Outcome))
    requires |rc.slots| == MAX_FLIGHT
    ensures |r.0.slots| == MAX_FLIGHT
    ensures rc.Valid() && f.Encodable() ==> r.0.Valid()
  {
    if f.fragOff + |f.body| > f.msgLen || f.msgLen > ctx.maxMessageLen then
      (rc, Failed(ExcessiveMessageSize))
    else if ctx.epoch == 1 && f.seqNum != rc.readSeq then
      (rc, Failed(UnexpectedRecord))
    else if f.seqNum < rc.readSeq || f.seqNum > rc.readSeq + MAX_FLIGHT then
      (rc, Consumed)
    else if f.seqNum - rc.readSeq >= MAX_FLIGHT then
      (rc, Failed(TooFarAhead))
    else
      var a := Slot(rc, f);
      if a.typ != f.typ || a.msgLen != f.msgLen then (rc, Failed(FragmentMismatch))
      else
        (rc.(slots := rc.slots[f.seqNum % MAX_FLIGHT := Some(Absorb(a, f.fragOff, f.body))]), Consumed)
  }

  /** Does the fragment make the marking look at a mask byte that does not exist? It passes
      all checks, its message is still being put together, and it names the empty range at
      the end of a message whose length is a multiple of eight. */
  ghost predicate MarksPastEnd(rc: Receiver, ctx: ReadContext, f: Fragment.Fragment)
    requires |rc.slots| == MAX_FLIGHT
  {
    && f.fragOff + |f.body| <= f.msgLen <= ctx.maxMessageLen
    && (ctx.epoch == 1 ==> f.seqNum == rc.readSeq)
    && rc.readSeq <= f.seqNum < rc.readSeq + MAX_FLIGHT
    && Slot(rc, f).typ == f.typ && Slot(rc, f).msgLen == f.msgLen
    && !Slot(rc, f).Complete() && f.fragOff == f.msgLen && f.msgLen % 8 == 0
  }

  /** Does one of the fragments of a record? */
  ghost predicate AnyMarksPastEnd(rc: Receiver, ctx: ReadContext, payload: seq<byte>)
    requires |rc.slots| == MAX_FLIGHT
    decreases |payload|
  {
    match Fragment.Parse(payload)
    case Malformed => false
    case Parsed(f, rest) =>
      Fragment.EncodeParse(payload);
      var (next, outcome) := ProcessFragment(rc, ctx, f);
      MarksPastEnd(rc, ctx, f) || (!outcome.Failed? && AnyMarksPastEnd(next, ctx, rest))
  }

  /** The fragments of one record, in order, stopping at the first failure. */
  ghost function ProcessFragments(rc: Receiver, ctx: ReadContext, payload: seq<byte>): (r: (Receiver, Outcome))
    requires |rc.slots| == MAX_FLIGHT
    ensures |r.0.slots| == MAX_FLIGHT
    ensures rc.Valid() ==> r.0.Valid()
    decreases |payload|
  {
    if payload == [] then (rc, Consumed)
    else match Fragment.Parse(payload)
      case Malformed => (rc, Failed(BadHandshakeRecord))
      case Parsed(f, rest) =>
        Fragment.EncodeParse(payload);
        var (next, outcome) := ProcessFragment(rc, ctx, f);
        if outcome.Failed? then (next, outcome) else ProcessFragments(next, ctx, rest)
  }

  /** One opened record. */
  ghost function ProcessRecord(rc: Receiver, ctx: ReadContext, content: Content, payload: seq<byte>)
    : (r: (Receiver, Outcome))
    requires |rc.slots| == MAX_FLIGHT
    ensures |r.0.slots| == MAX_FLIGHT
    ensures rc.Valid() ==> r.0.Valid()
  {
    if (content.ApplicationData? && ctx.encrypted) || (content.ChangeCipherSpec? && !ctx.encrypted) then
      (rc, PassedOver)
    else if !content.Handshake? then (rc, Failed(UnexpectedRecord))
    else ProcessFragments(rc, ctx, payload)
  }

  ghost predicate RecordMarksPastEnd(rc: Receiver, ctx: ReadContext, content: Content, payload: seq<byte>)
    requires |rc.slots| == MAX_FLIGHT
  {
    content.Handshake? && AnyMarksPastEnd(rc, ctx, payload)
  }

  lemma FirstFragmentMarksPastEnd(typ: byte, ctx: ReadContext)
    requires ctx.maxMessageLen >= 8
    ensures var start, f := Receiver(0, EMPTY_RING, false), Fragment.Fragment(typ, 8, 0, 8, []);
            && MarksPastEnd(start, ctx, f)
            && ProcessFragment(start, ctx, f) == (start.(slots := EMPTY_RING[0 := Some(Fresh(typ, 0, 8))]), Consumed)
  {
    var a := Fresh(typ, 0, 8);
    assert 0 !in a.got;
    assert Overlay(a.got, 8, []) == a.got;
  }

  /** Such a record exists: the first record of a connection may hold the first fragment of
      a message of eight bytes, at offset eight and empty. It is consumed like any other. */
  lemma FirstRecordMarksPastEnd(typ: byte, ctx: ReadContext)
    requires ctx.maxMessageLen >= 8
    ensures var start, payload := Receiver(0, EMPTY_RING, false), Fragment.Header(typ, 8, 0, 8, 0);
            && start.Valid() && RecordMarksPastEnd(start, ctx, Handshake, payload)
            && ProcessRecord(start, ctx, Handshake, payload) ==
               (start.(slots := EMPTY_RING[0 := Some(Fresh(typ, 0, 8))]), Consumed)
  {
    hide ProcessFragment, MarksPastEnd, Fragment.Parse;
    var start, f := Receiver(0, EMPTY_RING, false), Fragment.Fragment(typ, 8, 0, 8, []);
    var payload := Fragment.Header(typ, 8, 0, 8, 0);
    FirstFragmentMarksPastEnd(typ, ctx);
    Fragment.ParseEncode(f, []);
    assert payload + [] + [] == payload;
    assert Fragment.Parse(payload) == Fragment.Parsed(f, []);
    var next := ProcessFragment(start, ctx, f).0;
    assert ProcessFragments(next, ctx, []) == (next, Consumed);
  }

  /** The increment of a sixteen-bit sequence number. */
  function NextSeq(s: nat): (n: nat)
  {
    if s == 0xffff then 0 else s + 1
  }

  /** `dtls1_release_current_message`. When the sixteen-bit number wraps, the ring is
      empty, since nothing can come after message 65535. */
  ghost function Release(rc: Receiver): (r: Receiver)
    requires |rc.slots| == MAX_FLIGHT
    ensures |r.slots| == MAX_FLIGHT
    ensures rc.Valid() ==> r.Valid() && !r.hasCurrent
    ensures rc.Valid() && rc.hasCurrent && rc.readSeq == 0xffff ==> r == Receiver(0, EMPTY_RING, false)
  {
    if !rc.hasCurrent then rc
    else
      var r := Receiver(NextSeq(rc.readSeq), rc.slots[rc.readSeq % MAX_FLIGHT := None], false);
      assert rc.Valid() && rc.readSeq == 0xffff ==>
        forall i | 0 <= i < MAX_FLIGHT :: r.slots[i] == EMPTY_RING[i];
      r
  }

  datatype Record = Record(content: Content, payload: seq<byte>)

  datatype GetResult = Ready | Blocked | Fatal(failure: Failure)

  /** The bytes of a complete message as they enter the transcript. */
  ghost function Serialized(a: Assembly): (s: seq<byte>)
    requires a.Valid() && a.Complete()
  {
    Serialize(a.typ, a.seqNum, a.Body())
  }

  /** The loop of `dtls1_get_message`, and how many records it reads. */
  ghost function ReadUntilComplete(rc: Receiver, ctx: ReadContext, records: seq<Record>)
    : (r: (Receiver, GetResult, nat))
    requires |rc.slots| == MAX_FLIGHT
    ensures rc.Valid() ==> r.0.Valid()
    ensures |r.0.slots| == MAX_FLIGHT && (r.1.Ready? ==> r.0.hasCurrent && r.0.CurrentComplete())
    decreases |records|
  {
    if rc.CurrentComplete() then
      (rc.(hasCurrent := true), Ready, 0)
    else if records == [] then (rc, Blocked, 0)
    else
      var (next, outcome) := ProcessRecord(rc, ctx, records[0].content, records[0].payload);
      if outcome.Failed? then (next, Fatal(outcome.failure), 1)
      else
        var (last, result, used) := ReadUntilComplete(next, ctx, records[1..]);
        (last, result, used + 1)
  }

  /** Does one of the records that are read? */
  ghost predicate ReadingMarksPastEnd(rc: Receiver, ctx: ReadContext, records: seq<Record>)
    requires |rc.slots| == MAX_FLIGHT
    decreases |records|
  {
    && !rc.CurrentComplete() && records != []
    && var (next, outcome) := ProcessRecord(rc, ctx, records[0].content, records[0].payload);
       || RecordMarksPastEnd(rc, ctx, records[0].content, records[0].payload)
       || (!outcome.Failed? && ReadingMarksPastEnd(next, ctx, records[1..]))
  }

  ghost function Counted(r: (Receiver, GetResult, nat), n: nat): (c: (Receiver, GetResult, nat))
  {
    (r.0, r.1, r.2 + n)
  }

  /** `dtls_has_incoming_messages` */
  ghost predicate Buffered(rc: Receiver)
    requires |rc.slots| == MAX_FLIGHT
  {
    exists i | 0 <= i < MAX_FLIGHT :: rc.slots[i].Some? && !(rc.hasCurrent && i == rc.readSeq % MAX_FLIGHT)
  }

  /** Other messages have come in exactly if the ring is not empty once the current one is
      released: that is what must not be when the read state changes. */
  lemma BufferedExactly(rc: Receiver)
    requires rc.Valid()
    ensures Buffered(rc) <==> Release(rc).slots != EMPTY_RING
  {
    var r := Release(rc);
    if !Buffered(rc) {
      assert forall i | 0 <= i < MAX_FLIGHT :: r.slots[i] == EMPTY_RING[i];
    } else {
      var i :| 0 <= i < MAX_FLIGHT && rc.slots[i].Some? && !(rc.hasCurrent && i == rc.readSeq % MAX_FLIGHT);
      assert r.slots[i] == rc.slots[i] && EMPTY_RING[i] == None;
    }
  }
}

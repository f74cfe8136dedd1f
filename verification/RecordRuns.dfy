/** What holds of the record layer over whole runs. */
module RecordRuns {
  import opened Bytes
  import opened Aead
  import opened DtlsRecord

  // ---------------------------------------------------------------- one record

  /** A record that has been sealed, with everything that went into it. */
  datatype Sealed = Sealed(
    typ: byte, version: nat, number: nat, cipher: Cipher, pt: seq<byte>, random: seq<byte>)
  {
    ghost predicate Valid() {
      && version < 0x1_0000 && number < 0x1_0000 * TWO_48
      && (cipher.Some? ==> cipher.value.Valid() && |random| == cipher.value.variableNonceLen)
      && |Body()| < 0x1_0000
    }

    ghost function Body(): seq<byte>
      requires version < 0x1_0000 && number < 0x1_0000 * TWO_48
      requires cipher.Some? ==> cipher.value.Valid() && |random| == cipher.value.variableNonceLen
    {
      Seal(cipher, |pt| + MaxOverhead(cipher), typ, version, NumberBytes(number), pt, random).value
    }

    ghost function Bytes(): seq<byte>
      requires Valid()
    {
      Head(typ, version, number, |Body()|) + Body()
    }
  }

  /** What `dtls_seal_record` was given. */
  ghost function SealedBy(w: WriteState, previous: bool, typ: byte, pt: seq<byte>, random: seq<byte>): (s: Sealed)
    requires w.Valid() && (previous ==> w.epoch == 1)
  {
    Sealed(typ, w.WireVersion(), Number(w.UsedEpoch(previous), w.UsedSeqNum(previous)), w.UsedCipher(previous), pt,
      random)
  }

  /** A record that `dtls_seal_record` produces is the record with these ingredients. */
  lemma SealRecordBytes(w: WriteState, previous: bool, typ: byte, pt: seq<byte>, maxOut: nat, random: seq<byte>)
    requires w.Valid() && (previous ==> w.epoch == 1)
    requires w.UsedCipher(previous).Some? ==> |random| == w.UsedCipher(previous).value.variableNonceLen
    requires SealRecord(w, previous, typ, pt, maxOut, random).1.Some?
    ensures var s := SealedBy(w, previous, typ, pt, random);
            s.Valid() && SealRecord(w, previous, typ, pt, maxOut, random).1.value == s.Bytes()
  {
  }

  /** Decoding finds the parts of a sealed record whatever follows it in the packet. */
  lemma DecodeSealed(s: Sealed, haveVersion: bool, expected: nat, rest: seq<byte>)
    requires s.Valid()
    ensures Decode(haveVersion, expected, s.Bytes() + rest) ==
            if (haveVersion && s.version != expected) || s.version / 256 != 0xfe || |s.Body()| > MAX_ENCRYPTED_LENGTH
            then None else Some(RawRecord(s.typ, s.version, s.number, s.Body()))
  {
    var input := s.Bytes() + rest;
    var head := Head(s.typ, s.version, s.number, |s.Body()|);
    assert input == head + (s.Body() + rest);
    assert input[3..11] == NumberBytes(s.number);
    NumberRoundTrip(s.number);
    assert input[RT_HEADER_LENGTH..RT_HEADER_LENGTH + |s.Body()|] == s.Body();
  }

  /** The record was sealed for this reader and has not been seen. */
  ghost predicate Acceptable(r: ReadState, s: Sealed)
    requires s.Valid()
  {
    && (r.haveVersion ==> s.version == r.version)
    && s.version / 256 == 0xfe
    && |s.Body()| <= MAX_ENCRYPTED_LENGTH && |s.pt| <= MAX_PLAIN_LENGTH
    && s.number / TWO_48 == r.epoch && !r.window.ShouldDiscard(s.number)
    && s.cipher == r.cipher && s.typ != ALERT
  }

  /** Opening the first record of a packet: an acceptable record comes back as it was
      sealed and exactly its bytes are used up. */
  lemma OpenSealedRecord(r: ReadState, s: Sealed, rest: seq<byte>)
    requires r.Valid() && s.Valid() && Acceptable(r, s)
    ensures OpenRecord(r, s.Bytes() + rest) ==
            Opened(r.(window := r.window.Record(s.number), warningAlerts := 0), Success(s.typ, s.pt),
                   |s.Bytes()|, Some(s.number))
  {
    DecodeSealed(s, r.haveVersion, r.version, rest);
    OpenSealed(s.cipher, |s.pt| + MaxOverhead(s.cipher), s.typ, s.version, NumberBytes(s.number), s.pt, s.random);
  }

  /** So it is with every bulk cipher that `SSL_AEAD_CTX_new` sets up: with the same keys
      and epoch on both sides, a sealed record that is fresh comes back as it went in. */
  lemma SuiteRoundTrip(bulk: Bulk, prim: Primitive, fixedIv: seq<byte>, w: WriteState, r: ReadState, typ: byte,
        pt: seq<byte>, maxOut: nat, random: seq<byte>, rest: seq<byte>)
    requires prim.nonceLen == match bulk { case CbcHmac(ivLen) => ivLen case _ => 12 }
    requires prim.Correct() && (!bulk.CbcHmac? ==> prim.FixedOverhead())
    requires w.Valid() && r.Valid() && w.cipher == r.cipher == New(bulk, prim, fixedIv) && w.cipher.Some?
    requires w.epoch == r.epoch && w.WireVersion() / 256 == 0xfe && (r.haveVersion ==> r.version == w.WireVersion())
    requires |random| == w.cipher.value.variableNonceLen
    requires SealRecord(w, false, typ, pt, maxOut, random).1.Some?
    requires typ != ALERT && |pt| <= MAX_PLAIN_LENGTH && |pt| + MaxOverhead(w.cipher) <= MAX_ENCRYPTED_LENGTH
    requires !r.window.ShouldDiscard(Number(w.epoch, w.seqNum))
    ensures var number, bytes := Number(w.epoch, w.seqNum), SealRecord(w, false, typ, pt, maxOut, random).1.value;
            OpenRecord(r, bytes + rest) ==
              Opened(r.(window := r.window.Record(number), warningAlerts := 0), Success(typ, pt), |bytes|, Some(number))
  {
    hide SealRecord, OpenRecord, New, Primitive.Correct, Primitive.FixedOverhead, Context.Valid;
    var s := SealedBy(w, false, typ, pt, random);
    SealRecordBytes(w, false, typ, pt, maxOut, random);
    OpenSealedRecord(r, s, rest);
  }

  /** Every way out of `dtls_open_record`. */
  lemma OpenedParts(r: ReadState, input: seq<byte>)
    requires r.Valid()
    ensures var o, d := OpenRecord(r, input), Decode(r.haveVersion, r.version, input);
            && o.state.epoch == r.epoch && o.state.cipher == r.cipher
            && o.consumed == (if d.None? then |input| else RT_HEADER_LENGTH + |d.value.body|)
            && (o.result.Success? ==>
                  && d.Some? && d.value.number / TWO_48 == r.epoch && o.result.typ == d.value.typ
                  && Open(r.cipher, d.value.typ, d.value.version, NumberBytes(d.value.number), d.value.body)
                     == Some(o.result.body))
  {
    hide Decode, Open, NumberBytes, ProcessAlert, Window.Record, Window.ShouldDiscard;
  }

  /** Opening the first record of a packet that the peer sealed: whatever the state of
      the window, either the rest of the packet or exactly this record is used up, and
      nothing but what was sealed can come out. */
  lemma OpenOwnRecord(r: ReadState, s: Sealed, rest: seq<byte>)
    requires r.Valid() && s.Valid() && (s.number / TWO_48 == r.epoch ==> s.cipher == r.cipher)
    ensures var o := OpenRecord(r, s.Bytes() + rest);
            && (o.consumed == |s.Bytes() + rest| || o.consumed == |s.Bytes()|)
            && o.state.epoch == r.epoch && o.state.cipher == r.cipher
            && (o.result.Success? ==> o.result == Success(s.typ, s.pt))
  {
    var input := s.Bytes() + rest;
    DecodeSealed(s, r.haveVersion, r.version, rest);
    if s.number / TWO_48 == r.epoch {
      OpenSealed(s.cipher, |s.pt| + MaxOverhead(s.cipher), s.typ, s.version, NumberBytes(s.number), s.pt, s.random);
    }
    assert |s.Bytes()| == RT_HEADER_LENGTH + |s.Body()|;
    hide Decode, Seal, Open, NumberBytes, OpenRecord;
    OpenedParts(r, input);
  }

  ghost predicate AllValid(records: seq<Sealed>) {
    forall s | s in records :: s.Valid()
  }

  ghost function PacketOf(records: seq<Sealed>): (p: seq<byte>)
    requires AllValid(records)
  {
    if records == [] then [] else records[0].Bytes() + PacketOf(records[1..])
  }

  lemma {:induction false} PacketOfAppend(records: seq<Sealed>, last: Sealed)
    requires AllValid(records) && last.Valid()
    ensures AllValid(records + [last])
    ensures PacketOf(records + [last]) == PacketOf(records) + last.Bytes()
  {
    if records == [] {
      assert [last][1..] == [] && records + [last] == [last];
    } else {
      assert (records + [last])[1..] == records[1..] + [last];
      PacketOfAppend(records[1..], last);
    }
  }

  /** Opens a packet record by record, until it is used up. */
  ghost function OpenPacket(r: ReadState, packet: seq<byte>): (res: (ReadState, seq<OpenResult>))
    requires r.Valid()
    ensures res.0.Valid() && res.0.epoch == r.epoch
    decreases |packet|
  {
    if packet == [] then (r, [])
    else
      var o := OpenRecord(r, packet);
      if o.consumed == 0 then (o.state, [o.result])
      else
        var (last, results) := OpenPacket(o.state, packet[o.consumed..]);
        (last, [o.result] + results)
  }

  ghost predicate AcceptableInOrder(r: ReadState, records: seq<Sealed>)
    requires AllValid(records)
    decreases |records|
  {
    records != [] ==>
      && Acceptable(r, records[0])
      && AcceptableInOrder(r.(window := r.window.Record(records[0].number), warningAlerts := 0), records[1..])
  }

  /** A packet of several records parses back in order. */
  lemma {:induction false} OpenPacketOf(r: ReadState, records: seq<Sealed>)
    requires r.Valid() && AllValid(records) && AcceptableInOrder(r, records)
    ensures OpenPacket(r, PacketOf(records)).1 ==
            seq(|records|, i requires 0 <= i < |records| => Success(records[i].typ, records[i].pt))
    decreases |records|
  {
    if records != [] {
      var packet := PacketOf(records);
      var rest := PacketOf(records[1..]);
      OpenSealedRecord(r, records[0], rest);
      assert packet[|records[0].Bytes()|..] == rest;
      OpenPacketOf(r.(window := r.window.Record(records[0].number), warningAlerts := 0), records[1..]);
    }
  }

  // ---------------------------------------------------------------- reading runs

  /** What happens to a reader: input of any kind, its version is settled, or it changes keys. */
  datatype ReadEvent = Arrive(input: seq<byte>) | SettleReadVersion(version: nat) | NextReadEpoch(cipher: Cipher)

  ghost predicate Enabled(r: ReadState, e: ReadEvent) {
    match e
    case Arrive(_) => true
    case SettleReadVersion(version) => version < 0x1_0000
    case NextReadEpoch(cipher) => r.epoch + 1 < 0x1_0000 && (cipher.Some? ==> cipher.value.Valid())
  }

  /** A record that has been accepted: its number, and the epoch of the reader then. */
  datatype Acceptance = Acceptance(epoch: nat, number: nat)

  /** One event: the state after it, and the record it accepted, if any. */
  ghost function ReadStep(r: ReadState, e: ReadEvent): (res: (ReadState, Option<Acceptance>))
    requires r.Valid()
    ensures res.0.Valid()
  {
    if !Enabled(r, e) then (r, None)
    else
      match e
      case Arrive(input) =>
        var o := OpenRecord(r, input);
        (o.state, if o.received.Some? then Some(Acceptance(r.epoch, o.received.value)) else None)
      case SettleReadVersion(version) => (r.(haveVersion := true, version := version), None)
      case NextReadEpoch(cipher) => (SetReadState(r, cipher), None)
  }

  function Push<T>(s: seq<T>, n: Option<T>): seq<T>
  {
    if n.Some? then s + [n.value] else s
  }

  /** The state after a run of arbitrary input, and the records accepted. */
  ghost function ReadRun(r: ReadState, events: seq<ReadEvent>): (res: (ReadState, seq<Acceptance>))
    requires r.Valid()
    ensures res.0.Valid()
  {
    if events == [] then (r, [])
    else
      var (last, accepted) := ReadRun(r, events[..|events| - 1]);
      var (next, n) := ReadStep(last, events[|events| - 1]);
      (next, Push(accepted, n))
  }

  /** A record counts as received exactly when it is of the current epoch, is fresh and
      decrypts to an admissible length; otherwise the window does not change. */
  lemma ReceivedExactly(r: ReadState, input: seq<byte>)
    requires r.Valid()
    ensures var o := OpenRecord(r, input);
            var d := Decode(r.haveVersion, r.version, input);
            && (o.received.Some? <==>
                && d.Some? && d.value.number / TWO_48 == r.epoch && !r.window.ShouldDiscard(d.value.number)
                && var pt := Open(r.cipher, d.value.typ, d.value.version, NumberBytes(d.value.number), d.value.body);
                   pt.Some? && |pt.value| <= MAX_PLAIN_LENGTH)
            && (o.received.Some? ==> o.received.value == d.value.number
                                     && o.state.window == r.window.Record(d.value.number))
            && (o.received.None? ==> o.state == r)
            && (o.result.Success? ==> o.received.Some?)
  {
  }

  ghost predicate Distinct(s: seq<nat>) {
    forall i, j | 0 <= i < j < |s| :: s[i] != s[j]
  }

  ghost predicate NumbersDistinct(s: seq<Acceptance>) {
    forall i, j | 0 <= i < j < |s| :: s[i].number != s[j].number
  }

  ghost predicate EpochsInOrder(s: seq<Acceptance>) {
    forall i, j | 0 <= i < j < |s| :: s[i].epoch <= s[j].epoch
  }

  /** Every record is of the epoch that the reader was in when it was accepted. */
  ghost predicate OwnEpochs(s: seq<Acceptance>) {
    forall a | a in s :: a.number / TWO_48 == a.epoch
  }

  /** The window knows exactly the accepted numbers of the current epoch. */
  ghost predicate Tracks(r: ReadState, accepted: seq<Acceptance>) {
    && (forall a | a in accepted :: a.epoch <= r.epoch)
    && (forall a | a in accepted :: a.epoch == r.epoch ==> a.number in r.window.recorded)
    && (forall n | n in r.window.recorded :: Acceptance(r.epoch, n) in accepted)
  }

  lemma ReadStepTracks(r: ReadState, accepted: seq<Acceptance>, e: ReadEvent)
    requires r.Valid() && Tracks(r, accepted) && OwnEpochs(accepted)
    ensures var (next, n) := ReadStep(r, e);
            && Tracks(next, Push(accepted, n))
            && (n.Some? ==>
                  && n.value.number / TWO_48 == n.value.epoch
                  && forall a | a in accepted :: a.number != n.value.number && a.epoch <= n.value.epoch)
  {
    match e {
      case Arrive(input) => ReceivedExactly(r, input);
      case SettleReadVersion(_) =>
      case NextReadEpoch(_) =>
    }
  }

  /** Over every run, no record number is accepted twice, and every record accepted is of
      the epoch the reader was in; epochs only go up. */
  lemma {:induction false} NoRecordAcceptedTwice(r: ReadState, events: seq<ReadEvent>)
    requires r.Valid() && r.window == EMPTY_WINDOW
    ensures var (last, accepted) := ReadRun(r, events);
            NumbersDistinct(accepted) && OwnEpochs(accepted) && EpochsInOrder(accepted) && Tracks(last, accepted)
  {
    if events != [] {
      var before := events[..|events| - 1];
      NoRecordAcceptedTwice(r, before);
      var (last, accepted) := ReadRun(r, before);
      ReadStepTracks(last, accepted, events[|events| - 1]);
      assert forall i | 0 <= i < |accepted| :: accepted[i] in accepted;
    }
  }

  // ---------------------------------------------------------------- writing runs

  datatype WriteEvent =
    | SealOne(previous: bool, typ: byte, pt: seq<byte>, maxOut: nat, random: seq<byte>)
    | SettleWriteVersion(version: nat)
    | NextWriteEpoch(cipher: Cipher)

  ghost predicate CanWrite(w: WriteState, e: WriteEvent) {
    match e
    case SealOne(previous, _, _, _, random) =>
      && (previous ==> w.epoch == 1)
      && (w.UsedCipher(previous).Some? ==> |random| == w.UsedCipher(previous).value.variableNonceLen)
    case SettleWriteVersion(version) => version < 0x1_0000
    case NextWriteEpoch(cipher) => w.epoch == 0 && (cipher.Some? ==> cipher.value.Valid())
  }

  ghost function WriteStep(w: WriteState, e: WriteEvent): (r: WriteState)
    requires w.Valid() && CanWrite(w, e)
    ensures r.Valid()
  {
    match e
    case SealOne(previous, typ, pt, maxOut, random) => SealRecord(w, previous, typ, pt, maxOut, random).0
    case SettleWriteVersion(version) => w.(haveVersion := true, version := version)
    case NextWriteEpoch(cipher) => SetWriteState(w, cipher)
  }

  /** The number the AEAD is run with in this step, if it is: also when the record is
      then not produced because the counter wrapped or the record is too long. */
  ghost function NumberUsed(w: WriteState, e: WriteEvent): (n: Option<nat>)
    requires w.Valid() && CanWrite(w, e)
  {
    match e
    case SealOne(previous, typ, pt, maxOut, random) =>
      if maxOut >= RT_HEADER_LENGTH && |pt| + MaxOverhead(w.UsedCipher(previous)) <= maxOut - RT_HEADER_LENGTH
      then Some(Number(w.UsedEpoch(previous), w.UsedSeqNum(previous))) else None
    case _ => None
  }

  /** The counter reports that it wrapped. */
  ghost predicate Wraps(w: WriteState, e: WriteEvent)
    requires w.Valid() && CanWrite(w, e)
  {
    e.SealOne? && NumberUsed(w, e).Some? && w.UsedSeqNum(e.previous) + 1 == TWO_48
  }

  /** A run that stops for good when the counter wraps. */
  datatype WriteRunState = WriteRunState(w: WriteState, used: seq<nat>, stopped: bool)

  ghost function WriteRun(w: WriteState, events: seq<WriteEvent>): (res: WriteRunState)
    requires w.Valid()
    ensures res.w.Valid()
  {
    if events == [] then WriteRunState(w, [], false)
    else
      var last := WriteRun(w, events[..|events| - 1]);
      var e := events[|events| - 1];
      if last.stopped || !CanWrite(last.w, e) then last
      else
        var n := NumberUsed(last.w, e);
        WriteRunState(WriteStep(last.w, e), Push(last.used, n), Wraps(last.w, e))
  }

  /** Every number used so far lies below its epoch's counter. */
  ghost predicate Below(w: WriteState, n: nat) {
    n / TWO_48 <= w.epoch
    && n % TWO_48 < (if n / TWO_48 == w.epoch then w.seqNum else w.lastSeqNum)
  }

  /** Whenever the AEAD has run, the counter has moved on. */
  lemma UseAdvances(w: WriteState, e: WriteEvent)
    requires w.Valid() && CanWrite(w, e) && NumberUsed(w, e).Some?
    ensures e.SealOne? && WriteStep(w, e) == w.Advanced(e.previous)
    ensures NumberUsed(w, e) == Some(Number(w.UsedEpoch(e.previous), w.UsedSeqNum(e.previous)))
  {
  }

  /** Otherwise the counters stay where they are, or an epoch begins. */
  lemma UnusedStays(w: WriteState, e: WriteEvent)
    requires w.Valid() && CanWrite(w, e) && NumberUsed(w, e).None?
    ensures WriteStep(w, e) == match e
              case SealOne(_, _, _, _, _) => w
              case SettleWriteVersion(version) => w.(haveVersion := true, version := version)
              case NextWriteEpoch(cipher) => SetWriteState(w, cipher)
  {
    hide SetWriteState;
  }

  lemma WriteStepStaysBelow(w: WriteState, e: WriteEvent, n: nat)
    requires w.Valid() && CanWrite(w, e) && !Wraps(w, e) && Below(w, n)
    ensures Below(WriteStep(w, e), n)
    ensures NumberUsed(w, e) != Some(n)
  {
    hide WriteStep, NumberUsed, Number;
    if NumberUsed(w, e).Some? {
      UseAdvances(w, e);
      assert w.UsedSeqNum(e.previous) + 1 < TWO_48;
      assert (w.UsedSeqNum(e.previous) + 1) % TWO_48 == w.UsedSeqNum(e.previous) + 1;
    } else {
      UnusedStays(w, e);
    }
  }

  lemma WriteStepUses(w: WriteState, e: WriteEvent)
    requires w.Valid() && CanWrite(w, e) && NumberUsed(w, e).Some?
    ensures !Below(w, NumberUsed(w, e).value) && NumberUsed(w, e).value < 2 * TWO_48
    ensures !Wraps(w, e) ==> Below(WriteStep(w, e), NumberUsed(w, e).value)
  {
    UseAdvances(w, e);
    hide WriteStep, NumberUsed;
  }

  /** Over every run from a fresh connection, through retransmission in the previous
      epoch and failed seals, no record number is used twice. */
  lemma {:induction false} NumbersNeverRepeat(w: WriteState, events: seq<WriteEvent>)
    requires w.Valid() && w.epoch == 0
    ensures var res := WriteRun(w, events);
            && Distinct(res.used)
            && (!res.stopped ==> forall n | n in res.used :: Below(res.w, n))
            && (forall n | n in res.used :: n < 2 * TWO_48)
  {
    if events != [] {
      var before := events[..|events| - 1];
      NumbersNeverRepeat(w, before);
      var last := WriteRun(w, before);
      var e := events[|events| - 1];
      if !last.stopped && CanWrite(last.w, e) {
        if NumberUsed(last.w, e).Some? {
          WriteStepUses(last.w, e);
        }
        forall n | n in last.used && !Wraps(last.w, e)
          ensures Below(WriteStep(last.w, e), n)
        {
          WriteStepStaysBelow(last.w, e, n);
        }
      }
    }
  }

  /** Hence the nonces one sequence-derived context produces are pairwise distinct. */
  lemma NoncesNeverRepeat(w: WriteState, events: seq<WriteEvent>, x: Context, i: nat, j: nat)
    requires w.Valid() && w.epoch == 0 && x.Valid() && !x.randomVariableNonce
    requires i < j < |WriteRun(w, events).used|
    ensures var used := WriteRun(w, events).used;
            used[i] < 2 * TWO_48 && used[j] < 2 * TWO_48
            && Nonce(x, NumberBytes(used[i])) != Nonce(x, NumberBytes(used[j]))
  {
    NumbersNeverRepeat(w, events);
    var used := WriteRun(w, events).used;
    assert used[i] in used && used[j] in used;
    NumberRoundTrip(used[i]);
    NumberRoundTrip(used[j]);
    if Nonce(x, NumberBytes(used[i])) == Nonce(x, NumberBytes(used[j])) {
      NonceInjective(x, NumberBytes(used[i]), NumberBytes(used[j]));
    }
  }

  /** Wraparound must end the connection: had the run gone on, the very next record of
      that epoch would use the number zero again. */
  lemma AfterWrapTheNextNumberIsZero(w: WriteState, e: WriteEvent)
    requires w.Valid() && CanWrite(w, e) && Wraps(w, e)
    ensures SealRecord(w, e.previous, e.typ, e.pt, e.maxOut, e.random).1 == None
    ensures WriteStep(w, e).UsedSeqNum(e.previous) == 0 && CanWrite(WriteStep(w, e), e)
    ensures NumberUsed(WriteStep(w, e), e) == Some(Number(w.UsedEpoch(e.previous), 0))
  {
  }
}

/** When writing succeeds: what a record needs to be sealed, that fragments are as long as they
    can be, and that a flush with room, numbers and a willing transport goes through. */
module FlushSuccess {
  import opened Bytes
  import opened Aead
  import opened DtlsRecord
  import opened RecordRuns
  import opened HandshakeWriter
  import Fragment

  /** A record is produced exactly if it fits, its length has sixteen bits, and its number is
      not the last one. */
  lemma SealsExactly(w: WriteState, previous: bool, typ: byte, pt: seq<byte>, maxOut: nat, random: seq<byte>)
    requires w.Valid() && (previous ==> w.epoch == 1)
    requires w.UsedCipher(previous).Some? ==> |random| == w.UsedCipher(previous).value.variableNonceLen
    ensures var r := SealRecord(w, previous, typ, pt, maxOut, random);
            && (|pt| + w.Overhead(previous) <= maxOut && maxOut < 0x1_0000 && w.UsedSeqNum(previous) + 1 < TWO_48
                ==> r.1.Some?)
            && (r.1.Some? ==>
                |pt| + w.Overhead(previous) <= maxOut && w.UsedSeqNum(previous) + 1 < TWO_48)
  {
    hide NumberBytes;
  }

  /** No progress is made exactly if there is not room for the least record. */
  lemma ProgressExactly(f: Flight, rng: Rng, maxOut: nat)
    requires f.Valid() && Fair(rng) && f.written < |f.messages|
    ensures var m, least := f.messages[f.written], f.w.Overhead(f.Previous());
            SealNextMessage(f, rng, maxOut).1.NoProgress? <==>
              if m.isCcs then maxOut < least + 1
              else
                && StoredMessage(m.data).Some? && f.offset <= |StoredMessage(m.data).value.body|
                && maxOut < least + Fragment.HEADER_LENGTH + 1
  {
    hide Seal1, StoredMessage;
  }

  /** A fragment that does not finish its message fills all the room there is. */
  lemma PartialFillsRoom(f: Flight, rng: Rng, maxOut: nat)
    requires f.Valid() && Fair(rng) && f.written < |f.messages|
    ensures var r := SealNextMessage(f, rng, maxOut).1;
            r.Partial? ==> |r.record.pt| + f.w.Overhead(f.Previous()) == maxOut
  {
    hide Seal1, StoredMessage;
  }

  // ------------------------------------------------------------ a whole flush

  ghost predicate Whole(m: OutgoingMessage) {
    m.isCcs || StoredMessage(m.data).Some?
  }

  /** What is left of the flight can be cut into fragments. */
  ghost predicate Sendable(f: Flight) {
    && f.Valid() && (forall m | m in f.messages :: Whole(m))
    && (f.offset != 0 ==>
          var stored := StoredMessage(f.messages[f.written].data);
          stored.Some? && f.offset <= |stored.value.body|)
  }

  /** More records than these messages can take. */
  ghost function Records(messages: seq<OutgoingMessage>): (n: nat) {
    if messages == [] then 0 else |messages[0].data| + 1 + Records(messages[1..])
  }

  /** A bound on the records still to come. */
  ghost function Bound(f: Flight): int
    requires f.written <= |f.messages|
  {
    Records(f.messages[f.written..]) - f.offset
  }

  /** Are there record numbers left for so many records? */
  predicate Numbered(w: WriteState, n: int) {
    w.seqNum + n < TWO_48 && w.lastSeqNum + n < TWO_48
  }

  lemma StoredShorter(data: seq<byte>)
    requires StoredMessage(data).Some?
    ensures |StoredMessage(data).value.body| + 12 == |data|
  {
    Fragment.EncodeParse(data);
  }

  lemma NextBound(f: Flight)
    requires f.written < |f.messages|
    ensures Records(f.messages[f.written..]) ==
      |f.messages[f.written].data| + 1 + Records(f.messages[f.written + 1..])
  {
    assert f.messages[f.written..][1..] == f.messages[f.written + 1..];
  }

  lemma Seal1Succeeds(f: Flight, rng: Rng, typ: byte, pt: seq<byte>, maxOut: nat)
    requires f.Valid() && Fair(rng) && f.written < |f.messages|
    requires |pt| + f.w.Overhead(f.Previous()) <= maxOut < 0x1_0000 && Numbered(f.w, 1)
    ensures var r := Seal1(f, rng, typ, pt, maxOut);
            && r.1.Some? && r.0.w.cipher == f.w.cipher && r.0.w.epoch == f.w.epoch
            && r.0.w.seqNum <= f.w.seqNum + 1 && r.0.w.lastSeqNum <= f.w.lastSeqNum + 1
  {
    hide SealRecord;
    SealsExactly(f.w, f.Previous(), typ, pt, maxOut, f.Random(rng));
  }

  /** The effects of one call that count for how many more there can be. */
  ghost predicate Uses(f: Flight, f': Flight) {
    && f'.w.cipher == f.w.cipher && f'.w.epoch == f.w.epoch
    && f'.w.seqNum <= f.w.seqNum + 1 && f'.w.lastSeqNum <= f.w.lastSeqNum + 1
  }

  lemma ExplicitWithin(w: WriteState, previous: bool)
    ensures w.PrefixLen(previous) <= w.Overhead(previous)
  {
  }

  lemma NoErrorOnChange(f: Flight, rng: Rng, maxOut: nat)
    requires f.Valid() && Fair(rng) && f.written < |f.messages| && f.messages[f.written].isCcs
    requires maxOut < 0x1_0000 && Numbered(f.w, 1)
    ensures var (f', r) := SealNextMessage(f, rng, maxOut);
            (r.Complete? || r.NoProgress?) && Uses(f, f')
  {
    hide Seal1, StoredMessage, WriteState.Overhead, WriteState.PrefixLen;
    if maxOut >= 1 + f.w.Overhead(f.Previous()) {
      Seal1Succeeds(f, rng, CHANGE_CIPHER_SPEC, [1], maxOut);
    }
  }

  /** The fragment that one call makes of a message. */
  ghost function NextPart(f: Flight, maxOut: nat): (p: Fragment.Fragment)
    requires f.written < |f.messages| && StoredMessage(f.messages[f.written].data).Some?
    requires f.offset <= |StoredMessage(f.messages[f.written].data).value.body|
    requires maxOut >= Fragment.HEADER_LENGTH + 1 + f.w.Overhead(f.Previous())
    ensures p.Encodable() && Fragment.HEADER_LENGTH + |p.body| + f.w.Overhead(f.Previous()) <= maxOut
    ensures f.offset + |p.body| <= |StoredMessage(f.messages[f.written].data).value.body|
    ensures f.offset + |p.body| < |StoredMessage(f.messages[f.written].data).value.body| ==> |p.body| > 0
  {
    var stored := StoredMessage(f.messages[f.written].data).value;
    Slice(stored, f.offset, Todo(|stored.body| - f.offset, maxOut, f.w.Overhead(f.Previous())))
  }

  lemma MessageSealed(f: Flight, rng: Rng, maxOut: nat)
    requires f.Valid() && Fair(rng) && f.written < |f.messages| && !f.messages[f.written].isCcs
    requires var stored := StoredMessage(f.messages[f.written].data); stored.Some? && f.offset <= |stored.value.body|
    requires maxOut >= Fragment.HEADER_LENGTH + 1 + f.w.Overhead(f.Previous())
    ensures var p := NextPart(f, maxOut);
            var (f', s) := Seal1(f, rng, HANDSHAKE, Fragment.Encode(p), maxOut);
            SealNextMessage(f, rng, maxOut) ==
              if s.None? then (f', SealError)
              else if f.offset + |p.body| == |StoredMessage(f.messages[f.written].data).value.body| then
                (f'.(offset := 0), Complete(s.value))
              else (f'.(offset := f.offset + |p.body|), Partial(s.value))
  {
    ExplicitWithin(f.w, f.Previous());
    hide Seal1, StoredMessage, WriteState.Overhead, WriteState.PrefixLen, Fragment.Encode;
  }

  lemma NoErrorOnMessage(f: Flight, rng: Rng, maxOut: nat)
    requires f.Valid() && Fair(rng) && f.written < |f.messages| && !f.messages[f.written].isCcs
    requires var stored := StoredMessage(f.messages[f.written].data); stored.Some? && f.offset <= |stored.value.body|
    requires maxOut < 0x1_0000 && Numbered(f.w, 1)
    ensures var (f', r) := SealNextMessage(f, rng, maxOut);
            && !r.SealError? && Uses(f, f')
            && (r.Partial? ==> f.offset < f'.offset <= |StoredMessage(f.messages[f.written].data).value.body|)
  {
    hide SealNextMessage, Seal1, StoredMessage, WriteState.Overhead, Fragment.Encode, NextPart, Numbered;
    ProgressExactly(f, rng, maxOut);
    if maxOut >= Fragment.HEADER_LENGTH + 1 + f.w.Overhead(f.Previous()) {
      MessageSealed(f, rng, maxOut);
      EncodedLength(NextPart(f, maxOut));
      Seal1Succeeds(f, rng, HANDSHAKE, Fragment.Encode(NextPart(f, maxOut)), maxOut);
    }
  }

  lemma EncodedLength(f: Fragment.Fragment)
    requires f.Encodable()
    ensures |Fragment.Encode(f)| == Fragment.HEADER_LENGTH + |f.body|
  {
  }

  /** A message is not refused, and what it takes is counted. */
  lemma NoSealError(f: Flight, rng: Rng, maxOut: nat)
    requires Sendable(f) && Fair(rng) && f.written < |f.messages| && maxOut < 0x1_0000 && Numbered(f.w, Bound(f))
    ensures Bound(f) >= 1
    ensures var (f', r) := SealNextMessage(f, rng, maxOut);
            && !r.SealError? && f'.w.cipher == f.w.cipher && f'.w.epoch == f.w.epoch
            && (r.Partial? ==> Sendable(f') && Bound(f') < Bound(f) && Numbered(f'.w, Bound(f')))
            && (r.Complete? ==>
                  var next := f'.(written := f.written + 1);
                  Sendable(next) && Bound(next) < Bound(f) && Numbered(next.w, Bound(next)))
  {
    hide SealNextMessage, StoredMessage, Records;
    var m := f.messages[f.written];
    assert m in f.messages && Whole(m);
    NextBound(f);
    if m.isCcs {
      NoErrorOnChange(f, rng, maxOut);
    } else {
      StoredShorter(m.data);
      NoErrorOnMessage(f, rng, maxOut);
    }
  }

  lemma SendableIsValid(f: Flight)
    requires Sendable(f)
    ensures f.Valid()
  {
  }

  /** No packet is refused, and none is empty if there is room for the least record. */
  lemma {:induction false} PacketSucceeds(f: Flight, rng: Rng, maxOut: nat)
    requires Sendable(f) && Fair(rng) && maxOut < 0x1_0000 && Numbered(f.w, Bound(f))
    ensures var (f', records) := FillPacket(f, rng, maxOut);
            && records.Some? && Sendable(f') && Numbered(f'.w, Bound(f'))
            && f'.w.cipher == f.w.cipher && f'.w.epoch == f.w.epoch
            && (f.written < |f.messages| && maxOut >= f.w.Overhead(f.Previous()) + Fragment.HEADER_LENGTH + 1 ==>
                  records.value != [])
    decreases |f.messages| - f.written
  {
    hide SealNextMessage, StoredMessage, Bound, Numbered, Sendable, WriteState.Overhead, Flight.Previous;
    if f.written < |f.messages| {
      SendableIsValid(f);
      NoSealError(f, rng, maxOut);
      ProgressExactly(f, rng, maxOut);
      var (f', r) := SealNextMessage(f, rng, maxOut);
      if r.Complete? {
        PacketSucceeds(f'.(written := f.written + 1), rng, maxOut - |r.record.Bytes()|);
      }
    }
  }

  lemma OverheadWithin(f: Flight)
    requires f.Valid() && f.written < |f.messages|
    ensures f.w.Overhead(f.Previous()) <= f.w.Overhead(false)
  {
  }

  /** A flight that can be cut into fragments is flushed to its end by a transport that takes
      every packet, as soon as the MTU has room for one byte of a message and the record
      numbers do not run out. */
  lemma {:induction false} FlushSucceeds(f: Flight, rng: Rng, mtu: nat, bio: nat -> int, k: nat)
    requires Sendable(f) && Fair(rng) && Numbered(f.w, Bound(f))
    requires f.w.Overhead(false) + Fragment.HEADER_LENGTH + 1 <= mtu < 0x1_0000
    requires forall n: nat :: bio(n) > 0
    ensures Flush(f, rng, mtu, bio, k).2 == Flushed
    decreases |f.messages| - f.written, BytesLeft(f)
  {
    hide FillPacket, StoredMessage, Bound, Numbered, Sendable, BytesLeft;
    SendableIsValid(f);
    if f.written < |f.messages| {
      PacketSucceeds(f, rng, mtu);
      OverheadWithin(f);
      PacketMakesProgress(f, rng, mtu);
      var (f', packet) := SealNextPacket(f, rng, mtu);
      FlushSucceeds(f', rng, mtu, bio, k + 1);
    }
  }

  /** A message that is added goes out in the epoch, and under the keys, that were current when
      it was added, however often the keys are changed in between. */
  lemma AddedThenSealed(f: Flight, isCcs: bool, data: seq<byte>, keys: Option<Cipher>, rng: Rng, maxOut: nat)
    requires f.Valid() && AddOutgoing(f, isCcs, data).Some? && Fair(rng)
    requires keys.Some? ==> f.w.epoch == 0 && (keys.value.Some? ==> keys.value.value.Valid())
    ensures var added := AddOutgoing(f, isCcs, data).value;
            var w := if keys.Some? then SetWriteState(added.w, keys.value) else added.w;
            var g := added.(w := w, written := |f.messages|, offset := 0);
            var r := SealNextMessage(g, rng, maxOut).1;
            r.Partial? || r.Complete? ==>
              r.record.number / TWO_48 == f.w.epoch && r.record.cipher == f.w.cipher
  {
    hide StoredMessage, SealRecord, Number;
  }

  /** Nothing of a flight that has been given up is ever sent again. */
  lemma ClearedSendsNothing(f: Flight, rng: Rng, mtu: nat, bio: nat -> int)
    requires f.Valid() && Fair(rng)
    ensures Retransmit(ClearOutgoing(f), rng, mtu, bio) == (ClearOutgoing(f), [], Flushed)
  {
  }
}

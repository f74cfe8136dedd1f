/** The headers on the wire byte by byte, and exactly which genuine records a reader takes. */
module RecordLayouts {
  import opened Bytes
  import opened Aead
  import opened ReplayWindow
  import opened DtlsRecord
  import opened RecordRuns
  import opened DtlsRecordLayer
  import Fragment

  /** Section 4.2.2 of RFC 6347: type, length, message number, offset and length of the fragment. */
  lemma HandshakeHeader(f: Fragment.Fragment)
    requires f.Encodable()
    ensures var s := Fragment.Encode(f);
            && |s| == 12 + |f.body| && s[0] == f.typ && s[12..] == f.body
            && 65536 * s[1] as nat + 256 * s[2] as nat + s[3] as nat == f.msgLen
            && 256 * s[4] as nat + s[5] as nat == f.seqNum
            && 65536 * s[6] as nat + 256 * s[7] as nat + s[8] as nat == f.fragOff
            && 65536 * s[9] as nat + 256 * s[10] as nat + s[11] as nat == |f.body|
  {
    ThreeBytes(f.msgLen);
    ThreeBytes(f.fragOff);
    ThreeBytes(|f.body|);
  }

  lemma ThreeBytes(n: nat)
    requires n < 0x100_0000
    ensures 65536 * (n / 65536) + 256 * (n / 256 % 256) + n % 256 == n
  {
    assert n / 256 / 256 == n / 65536;
  }

  /** Section 4.1 of RFC 6347: type, version, epoch, sequence number, length. */
  lemma RecordHeader(typ: byte, version: nat, epoch: nat, seqNum: nat, len: nat)
    requires version < 0x1_0000 && epoch < 0x1_0000 && seqNum < TWO_48 && len < 0x1_0000
    ensures var h := Head(typ, version, Number(epoch, seqNum), len);
            && |h| == 13 && h[0] == typ && 256 * h[1] as nat + h[2] as nat == version
            && 256 * h[3] as nat + h[4] as nat == epoch && FromBe(h[5..11]) == seqNum
            && 256 * h[11] as nat + h[12] as nat == len
  {
    var n := Number(epoch, seqNum);
    var h := Head(typ, version, n, len);
    Capacities();
    NumberParts(epoch, seqNum);
    var b := NumberBytes(n);
    assert h[3] == b[0] && h[4] == b[1] && h[5..11] == b[2..8];
  }

  /** What is put on the wire begins with its type, the version in use, the epoch and the
      counter of that epoch, and the length of what follows. */
  lemma SealedOnWire(w: WriteState, previous: bool, typ: byte, pt: seq<byte>, maxOut: nat, random: seq<byte>)
    requires w.Valid() && (previous ==> w.epoch == 1)
    requires w.UsedCipher(previous).Some? ==> |random| == w.UsedCipher(previous).value.variableNonceLen
    ensures var r := SealRecord(w, previous, typ, pt, maxOut, random).1;
            r.Some? ==>
              var h := r.value;
              && |h| >= 13 && h[0] == typ
              && 256 * h[1] as nat + h[2] as nat == (if w.haveVersion then w.version else 0xfeff)
              && 256 * h[3] as nat + h[4] as nat == (if previous then w.epoch - 1 else w.epoch)
              && FromBe(h[5..11]) == (if previous then w.lastSeqNum else w.seqNum)
              && 256 * h[11] as nat + h[12] as nat == |h| - 13
  {
    hide Head, Seal, NumberBytes, Number;
    var r := SealRecord(w, previous, typ, pt, maxOut, random).1;
    if r.Some? {
      RecordHeader(typ, w.WireVersion(), w.UsedEpoch(previous), w.UsedSeqNum(previous), |r.value| - 13);
      var number := Number(w.UsedEpoch(previous), w.UsedSeqNum(previous));
      var h := Head(typ, w.WireVersion(), number, |r.value| - 13);
      assert r.value[..13] == h;
      assert r.value[5..11] == h[5..11];
    }
  }

  lemma NumberParts(epoch: nat, seqNum: nat)
    requires epoch < 0x1_0000 && seqNum < TWO_48
    ensures var b := NumberBytes(Number(epoch, seqNum));
            256 * b[0] as nat + b[1] as nat == epoch && FromBe(b[2..8]) == seqNum
  {
    Capacities();
    var counter := ToBe(seqNum, 6);
    FromToBe(seqNum, 6);
    NumberOnWire(epoch, counter);
    assert ([epoch / 256, epoch % 256] + counter)[2..8] == counter;
  }

  // ------------------------------------------------------------ which records are taken

  /** The greatest number recorded. */
  ghost predicate MaxRight(w: Window) {
    && (forall n | n in w.recorded :: n <= w.maxSeqNum)
    && (if w.recorded == {} then w.maxSeqNum == 0 else w.maxSeqNum in w.recorded)
  }

  lemma {:induction false} MaxStaysRight(r: ReadState, events: seq<ReadEvent>)
    requires r.Valid() && r.window == EMPTY_WINDOW
    ensures MaxRight(ReadRun(r, events).0.window)
  {
    hide OpenRecord;
    if events != [] {
      var before, e := events[..|events| - 1], events[|events| - 1];
      MaxStaysRight(r, before);
      var last := ReadRun(r, before).0;
      if e.Arrive? {
        ReceivedExactly(last, e.input);
        RecordKeepsMax(last.window, OpenRecord(last, e.input).received);
      }
    }
  }

  lemma RecordKeepsMax(w: Window, n: Option<nat>)
    requires MaxRight(w)
    ensures n.Some? ==> MaxRight(w.Record(n.value))
  {
  }

  /** Over every run a genuine record of the current epoch is taken exactly if its number has
      not been received and is less than 64 behind the greatest that has: records may come
      in any order within the window of section 4.1.2.6 of RFC 6347. */
  lemma ReorderedIsTaken(r: ReadState, events: seq<ReadEvent>, s: Sealed, rest: seq<byte>)
    requires r.Valid() && r.window == EMPTY_WINDOW && s.Valid()
    requires var last := ReadRun(r, events).0;
             && (last.haveVersion ==> s.version == last.version) && s.version / 256 == 0xfe
             && s.number / TWO_48 == last.epoch && s.cipher == last.cipher && s.typ != ALERT
             && |s.Body()| <= MAX_ENCRYPTED_LENGTH && |s.pt| <= MAX_PLAIN_LENGTH
    ensures var (last, accepted) := ReadRun(r, events);
            var o := OpenRecord(last, s.Bytes() + rest);
            if forall a | a in accepted && a.epoch == last.epoch :: a.number != s.number && a.number < s.number + 64
            then o.result == Success(s.typ, s.pt) && o.consumed == |s.Bytes()|
            else o.result == Discard && o.state == last
  {
    hide OpenRecord, ReadRun, Decode, Open;
    var (last, accepted) := ReadRun(r, events);
    NoRecordAcceptedTwice(r, events);
    MaxStaysRight(r, events);
    DiscardedExactly(last, accepted, s.number);
    if last.window.ShouldDiscard(s.number) {
      DecodeSealed(s, last.haveVersion, last.version, rest);
      Stale(last, s.Bytes() + rest);
    } else {
      OpenSealedRecord(last, s, rest);
    }
  }

  lemma DiscardedExactly(r: ReadState, accepted: seq<Acceptance>, n: nat)
    requires Tracks(r, accepted) && MaxRight(r.window)
    ensures r.window.ShouldDiscard(n) <==>
      !(forall a | a in accepted && a.epoch == r.epoch :: a.number != n && a.number < n + 64)
  {
    var w := r.window;
    if w.recorded != {} && n + 64 <= w.maxSeqNum {
      assert Acceptance(r.epoch, w.maxSeqNum) in accepted;
    }
    if n in w.recorded {
      assert Acceptance(r.epoch, n) in accepted;
    }
  }

  lemma Stale(r: ReadState, input: seq<byte>)
    requires r.Valid()
    requires var d := Decode(r.haveVersion, r.version, input); d.Some? ==> r.window.ShouldDiscard(d.value.number)
    ensures OpenRecord(r, input).result == Discard && OpenRecord(r, input).state == r
  {
    hide Decode, Open, Window.ShouldDiscard;
  }
}

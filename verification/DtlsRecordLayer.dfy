/** The DTLS record layer as it updates the connection in place. */
module DtlsRecordLayer {
  import opened Bytes
  import opened Aead
  import opened ReplayWindow
  import opened DtlsRecord

  /** `ssl_record_sequence_update` on the bytes of `number` from `from` on: adds one
      in place and reports whether it did not wrap. */
  method SequenceUpdate(number: array<byte>, from: nat) returns (ok: bool)
    requires from <= number.Length
    modifies number
    ensures number[..from] == old(number[..from])
    ensures ok ==> FromBe(number[from..]) == old(FromBe(number[from..])) + 1
    ensures !ok ==> old(FromBe(number[from..])) + 1 == Capacity(number.Length - from)
    ensures !ok ==> FromBe(number[from..]) == 0
  {
    ghost var before := number[from..];
    var i := number.Length;
    while i > from
      invariant from <= i <= number.Length
      invariant number[..i] == old(number[..i])
      invariant number[i..] == Fill(0, number.Length - i)
      invariant before == number[from..i] + Fill(255, number.Length - i)
    {
      i := i - 1;
      var v := number[i];
      number[i] := if v == 255 then 0 else v + 1;
      if number[i] != 0 {
        var k := number.Length - i - 1;
        assert before == number[from..i] + [v] + Fill(255, k);
        assert number[from..] == number[from..i] + [v + 1] + Fill(0, k);
        Carry(number[from..i], v, k);
        return true;
      }
    }
    WrapAround(number.Length - from);
    assert number[from..] == Fill(0, number.Length - from) && before == Fill(255, number.Length - from);
    return false;
  }

  /** The eight bytes on the wire are the epoch and the low six bytes of the counter. */
  lemma NumberOnWire(epoch: nat, counter: seq<byte>)
    requires epoch < 0x1_0000 && |counter| == 6
    ensures FromBe(counter) < TWO_48
    ensures NumberBytes(Number(epoch, FromBe(counter))) == [epoch / 256, epoch % 256] + counter
  {
    Capacities();
    var n := FromBe(counter);
    assert Scale(epoch, 2) == 256 * Scale(epoch, 1);
    assert Scale(epoch, 4) == 256 * Scale(epoch, 3);
    assert Scale(epoch, 6) == TWO_48 * epoch;
    ToBeJoin(epoch, 2, n, 6);
    ToFromBe(counter);
    assert ToBe(epoch, 2) == ToBe(epoch / 256, 1) + [epoch % 256];
    assert ToBe(epoch / 256, 1) == [] + [epoch / 256];
  }

  class RecordWriter {
    var haveVersion: bool
    var version: nat
    var epoch: nat
    var cipher: Cipher
    const writeSequence: array<byte>
    const lastWriteSequence: array<byte>

    ghost predicate Valid()
      reads this, writeSequence, lastWriteSequence
    {
      && writeSequence.Length == 8 && lastWriteSequence.Length == 8
      && writeSequence != lastWriteSequence
      && FromBe(writeSequence[2..]) < TWO_48 && FromBe(lastWriteSequence[2..]) < TWO_48
      && Abs().Valid()
    }

    ghost function Abs(): WriteState
      requires writeSequence.Length == 8 && lastWriteSequence.Length == 8
      reads this, writeSequence, lastWriteSequence
    {
      WriteState(haveVersion, version, epoch, FromBe(writeSequence[2..]), FromBe(lastWriteSequence[2..]), cipher)
    }

    constructor ()
      ensures Valid() && fresh(writeSequence) && fresh(lastWriteSequence)
      ensures Abs() == WriteState(false, 0, 0, 0, 0, None)
    {
      haveVersion, version, epoch, cipher := false, 0, 0, None;
      writeSequence := new byte[8](_ => 0);
      lastWriteSequence := new byte[8](_ => 0);
      new;
      assert writeSequence[2..] == Fill(0, 6) && lastWriteSequence[2..] == Fill(0, 6);
      WrapAround(6);
    }

    /** Advances the counter a record was sealed with. */
    method Advance(previous: bool) returns (ok: bool)
      requires Valid()
      modifies writeSequence, lastWriteSequence
      ensures Valid() && Abs() == old(Abs()).Advanced(previous)
      ensures ok <==> old(Abs()).UsedSeqNum(previous) + 1 < TWO_48
    {
      Capacities();
      if previous {
        ok := SequenceUpdate(lastWriteSequence, 2);
      } else {
        ok := SequenceUpdate(writeSequence, 2);
      }
    }

    /** `dtls_seal_record`; `random` is what the random number generator returns. */
    method SealRecord(previous: bool, typ: byte, pt: seq<byte>, maxOut: nat, random: seq<byte>)
      returns (out: Option<seq<byte>>)
      requires Valid() && (previous ==> epoch == 1)
      requires !previous && cipher.Some? ==> |random| == cipher.value.variableNonceLen
      modifies writeSequence, lastWriteSequence
      ensures Valid()
      ensures (Abs(), out) == DtlsRecord.SealRecord(old(Abs()), previous, typ, pt, maxOut, random)
    {
      var usedEpoch, usedCipher := epoch, cipher;
      var counter := writeSequence[2..];
      if previous {
        usedEpoch, usedCipher, counter := epoch - 1, None, lastWriteSequence[2..];
      }
      if maxOut < RT_HEADER_LENGTH {
        return None;
      }
      var wireVersion := if haveVersion then version else DTLS1_VERSION;
      var number := [usedEpoch / 256, usedEpoch % 256] + counter;
      NumberOnWire(usedEpoch, counter);
      var body := Seal(usedCipher, maxOut - RT_HEADER_LENGTH, typ, wireVersion, number, pt, random);
      if body.None? {
        return None;
      }
      var ok := Advance(previous);
      if !ok || |body.value| >= 0x1_0000 {
        return None;
      }
      var len := |body.value|;
      return Some([typ, wireVersion / 256, wireVersion % 256] + number + [len / 256, len % 256] + body.value);
    }

    /** `dtls1_set_write_state` */
    method SetWriteState(newCipher: Cipher)
      requires Valid() && epoch == 0 && (newCipher.Some? ==> newCipher.value.Valid())
      modifies this, writeSequence, lastWriteSequence
      ensures Valid() && Abs() == DtlsRecord.SetWriteState(old(Abs()), newCipher)
    {
      epoch := epoch + 1;
      ghost var counter := writeSequence[2..];
      forall i | 0 <= i < 8 {
        lastWriteSequence[i] := writeSequence[i];
      }
      forall i | 0 <= i < 8 {
        writeSequence[i] := 0;
      }
      assert lastWriteSequence[2..] == counter && writeSequence[2..] == Fill(0, 6);
      WrapAround(6);
      cipher := newCipher;
    }
  }

  class RecordReader {
    var haveVersion: bool
    var version: nat
    var epoch: nat
    var cipher: Cipher
    const bitmap: Bitmap
    var warningAlerts: nat
    var shutdown: Shutdown

    ghost predicate Valid()
      reads this, bitmap
    {
      bitmap.Valid() && Abs().Valid()
    }

    ghost function Abs(): ReadState
      reads this, bitmap
    {
      ReadState(haveVersion, version, epoch, cipher, Window(bitmap.recorded, bitmap.maxSeqNum), warningAlerts, shutdown)
    }

    constructor ()
      ensures Valid() && fresh(bitmap)
      ensures Abs() == ReadState(false, 0, 0, None, EMPTY_WINDOW, 0, NoShutdown)
    {
      haveVersion, version, epoch, cipher, warningAlerts, shutdown := false, 0, 0, None, 0, NoShutdown;
      bitmap := new Bitmap();
    }

    /** `ssl_process_alert` */
    method ReceiveAlert(body: seq<byte>) returns (result: OpenResult)
      requires Valid()
      modifies this
      ensures Valid() && (Abs(), result) == ProcessAlert(old(Abs()), body)
    {
      if |body| != 2 {
        return OpenError;
      }
      if body[0] == 1 {
        if body[1] == 0 {
          shutdown := CloseNotifyReceived;
          return CloseNotify;
        }
        warningAlerts := warningAlerts + 1;
        return if warningAlerts > MAX_WARNING_ALERTS then OpenError else Discard;
      }
      if body[0] == 2 {
        shutdown := FatalAlertReceived;
        return FatalAlert;
      }
      return OpenError;
    }

    /** `dtls_open_record` */
    method OpenRecord(input: seq<byte>) returns (result: OpenResult, consumed: nat)
      requires Valid()
      modifies this, bitmap
      ensures Valid()
      ensures var o := DtlsRecord.OpenRecord(old(Abs()), input);
              Abs() == o.state && result == o.result && consumed == o.consumed
    {
      hide Decode, Open, ProcessAlert, NumberBytes, Bitmap.Valid;
      var d := Decode(haveVersion, version, input);
      if d.None? {
        return Discard, |input|;
      }
      var raw := d.value;
      consumed := RT_HEADER_LENGTH + |raw.body|;
      if raw.number / TWO_48 != epoch {
        return Discard, consumed;
      }
      var stale := bitmap.ShouldDiscard(raw.number);
      if stale {
        return Discard, consumed;
      }
      var pt := Open(cipher, raw.typ, raw.version, NumberBytes(raw.number), raw.body);
      if pt.None? {
        return Discard, consumed;
      }
      if |pt.value| > MAX_PLAIN_LENGTH {
        return OpenError, consumed;
      }
      bitmap.Record(raw.number);
      if raw.typ == ALERT {
        result := ReceiveAlert(pt.value);
        return result, consumed;
      }
      warningAlerts := 0;
      return Success(raw.typ, pt.value), consumed;
    }

    /** `dtls1_set_read_state`; it refuses to change ciphers while messages of the old
        epoch are buffered. */
    method SetReadState(buffered: bool, newCipher: Cipher) returns (ok: bool)
      requires Valid() && epoch + 1 < 0x1_0000 && (newCipher.Some? ==> newCipher.value.Valid())
      modifies this, bitmap
      ensures Valid() && ok == !buffered
      ensures Abs() == if buffered then old(Abs()) else DtlsRecord.SetReadState(old(Abs()), newCipher)
    {
      if buffered {
        return false;
      }
      epoch := epoch + 1;
      bitmap.Clear();
      cipher := newCipher;
      return true;
    }
  }
}

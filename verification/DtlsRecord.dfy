/** The DTLS record layer by value: sealing, opening, record numbers and epochs. */
module DtlsRecord {
  import opened Bytes
  import opened Aead
  import opened ReplayWindow

  const RT_HEADER_LENGTH := 13
  const MAX_PLAIN_LENGTH := 16384
  const MAX_ENCRYPTED_LENGTH := 16384 + 256 + 64
  const MAX_WARNING_ALERTS := 4
  const TWO_48 := 0x1_0000_0000_0000
  const DTLS1_VERSION := 0xfeff

  const CHANGE_CIPHER_SPEC: byte := 20
  const ALERT: byte := 21
  const HANDSHAKE: byte := 22
  const APPLICATION_DATA: byte := 23

  /** The eight bytes of a record number: two of epoch, six of sequence number. */
  function NumberBytes(n: nat): (s: seq<byte>)
    requires n < 0x1_0000 * TWO_48
    ensures |s| == 8
  {
    Capacities();
    ToBe(n, 8)
  }

  /** `to_u64_be` */
  function ToNumber(s: seq<byte>): (n: nat)
    requires |s| == 8
    ensures n < 0x1_0000 * TWO_48
  {
    Capacities();
    FromBe(s)
  }

  lemma NumberRoundTrip(n: nat)
    requires n < 0x1_0000 * TWO_48
    ensures ToNumber(NumberBytes(n)) == n
  {
    Capacities();
    FromToBe(n, 8);
  }

  /** A record number as a single integer. */
  function Number(epoch: nat, seqNum: nat): (n: nat)
    requires epoch < 0x1_0000 && seqNum < TWO_48
    ensures n < 0x1_0000 * TWO_48 && n / TWO_48 == epoch && n % TWO_48 == seqNum
  {
    epoch * TWO_48 + seqNum
  }

  /** The writing side. The sequence number of the previous epoch is kept for
      retransmission. */
  datatype WriteState = WriteState(
    haveVersion: bool, version: nat, epoch: nat, seqNum: nat, lastSeqNum: nat, cipher: Cipher)
  {
    ghost predicate Valid() {
      && version < 0x1_0000
      && epoch <= 1
      && seqNum < TWO_48 && lastSeqNum < TWO_48
      && (cipher.Some? ==> cipher.value.Valid())
      && (epoch == 0 ==> cipher.None?)
    }

    function WireVersion(): nat {
      if haveVersion then version else DTLS1_VERSION
    }

    /** The cipher, epoch and sequence number a record is sealed with. */
    function UsedCipher(previous: bool): Cipher {
      if previous then None else cipher
    }

    function UsedEpoch(previous: bool): nat {
      if previous then 0 else epoch
    }

    function UsedSeqNum(previous: bool): nat {
      if previous then lastSeqNum else seqNum
    }

    /** `dtls_max_seal_overhead` */
    function Overhead(previous: bool): nat {
      RT_HEADER_LENGTH + MaxOverhead(UsedCipher(previous))
    }

    /** `dtls_seal_prefix_len` */
    function PrefixLen(previous: bool): nat {
      RT_HEADER_LENGTH + ExplicitNonceLen(UsedCipher(previous))
    }

    /** `ssl_record_sequence_update` on the six low bytes: wraps to zero at the end. */
    function Advanced(previous: bool): WriteState {
      if previous then this.(lastSeqNum := (lastSeqNum + 1) % TWO_48)
      else this.(seqNum := (seqNum + 1) % TWO_48)
    }
  }

  function Head(typ: byte, version: nat, number: nat, len: nat): (h: seq<byte>)
    requires version < 0x1_0000 && number < 0x1_0000 * TWO_48 && len < 0x1_0000
    ensures |h| == RT_HEADER_LENGTH
  {
    [typ, version / 256, version % 256] + NumberBytes(number) + [len / 256, len % 256]
  }

  /** `dtls_seal_record`: the new state, and the record unless sealing failed. */
  function SealRecord(w: WriteState, previous: bool, typ: byte, pt: seq<byte>, maxOut: nat, random: seq<byte>)
    : (r: (WriteState, Option<seq<byte>>))
    requires w.Valid() && (previous ==> w.epoch == 1)
    requires w.UsedCipher(previous).Some? ==> |random| == w.UsedCipher(previous).value.variableNonceLen
    ensures r.0.Valid()
    ensures r.1.Some? ==> r.0 == w.Advanced(previous) && w.UsedSeqNum(previous) + 1 < TWO_48
    ensures r.1.Some? ==> |r.1.value| <= maxOut && |r.1.value| <= |pt| + w.Overhead(previous)
  {
    if maxOut < RT_HEADER_LENGTH then (w, None)
    else
      var number := Number(w.UsedEpoch(previous), w.UsedSeqNum(previous));
      var body := Seal(w.UsedCipher(previous), maxOut - RT_HEADER_LENGTH, typ, w.WireVersion(),
                       NumberBytes(number), pt, random);
      if body.None? then (w, None)
      else if w.UsedSeqNum(previous) + 1 == TWO_48 then (w.Advanced(previous), None)
      else if |body.value| >= 0x1_0000 then (w.Advanced(previous), None)
      else (w.Advanced(previous), Some(Head(typ, w.WireVersion(), number, |body.value|) + body.value))
  }

  /** `dtls1_set_write_state` */
  function SetWriteState(w: WriteState, cipher: Cipher): (r: WriteState)
    requires w.Valid() && w.epoch == 0 && (cipher.Some? ==> cipher.value.Valid())
    ensures r.Valid() && r.epoch == 1 && r.lastSeqNum == w.seqNum && r.seqNum == 0
  {
    w.(epoch := 1, lastSeqNum := w.seqNum, seqNum := 0, cipher := cipher)
  }

  /** The window by value: every number recorded since the epoch began, and their maximum. */
  datatype Window = Window(recorded: set<nat>, maxSeqNum: nat)
  {
    predicate ShouldDiscard(n: nat) {
      n in recorded || n + WINDOW_SIZE <= maxSeqNum
    }

    function Record(n: nat): Window {
      Window(recorded + {n}, if n > maxSeqNum then n else maxSeqNum)
    }
  }

  const EMPTY_WINDOW := Window({}, 0)

  datatype Shutdown = NoShutdown | CloseNotifyReceived | FatalAlertReceived

  datatype ReadState = ReadState(
    haveVersion: bool, version: nat, epoch: nat, cipher: Cipher, window: Window,
    warningAlerts: nat, shutdown: Shutdown)
  {
    ghost predicate Valid() {
      && version < 0x1_0000 && epoch < 0x1_0000
      && (cipher.Some? ==> cipher.value.Valid())
      && (forall n | n in window.recorded :: n / TWO_48 == epoch)
    }
  }

  /** The results of `dtls_open_record`. */
  datatype OpenResult =
    | Success(typ: byte, body: seq<byte>)
    | Discard
    | CloseNotify
    | FatalAlert
    | OpenError

  /** A record split into its parts; `body` is still protected. */
  datatype RawRecord = RawRecord(typ: byte, version: nat, number: nat, body: seq<byte>)

  /** The header checks of `dtls_open_record`. */
  function Decode(haveVersion: bool, expected: nat, input: seq<byte>): (d: Option<RawRecord>)
    ensures d.Some? ==> |input| >= RT_HEADER_LENGTH + |d.value.body|
    ensures d.Some? ==> d.value.version < 0x1_0000 && d.value.number < 0x1_0000 * TWO_48
  {
    if |input| < RT_HEADER_LENGTH then None
    else
      var version := Join16(input[1], input[2]);
      var len := Join16(input[11], input[12]);
      if |input| - RT_HEADER_LENGTH < len || (haveVersion && version != expected)
         || version / 256 != 0xfe || len > MAX_ENCRYPTED_LENGTH then None
      else Some(RawRecord(input[0], version, ToNumber(input[3..11]), input[RT_HEADER_LENGTH..RT_HEADER_LENGTH + len]))
  }

  /** `ssl_process_alert` below TLS 1.3. */
  function ProcessAlert(r: ReadState, body: seq<byte>): (res: (ReadState, OpenResult))
    ensures res.0 == r.(warningAlerts := res.0.warningAlerts, shutdown := res.0.shutdown)
    ensures !res.1.Success?
  {
    if |body| != 2 then (r, OpenError)
    else if body[0] == 1 then
      if body[1] == 0 then (r.(shutdown := CloseNotifyReceived), CloseNotify)
      else
        var r' := r.(warningAlerts := r.warningAlerts + 1);
        (r', if r'.warningAlerts > MAX_WARNING_ALERTS then OpenError else Discard)
    else if body[0] == 2 then (r.(shutdown := FatalAlertReceived), FatalAlert)
    else (r, OpenError)
  }

  /** What one call of `dtls_open_record` does: the new state, the result, how many
      bytes of the packet it used up, and the number of the record if it was
      authenticated and marked as received. */
  datatype Opened = Opened(state: ReadState, result: OpenResult, consumed: nat, received: Option<nat>)

  function OpenRecord(r: ReadState, input: seq<byte>): (o: Opened)
    requires r.Valid()
    ensures o.state.Valid() && o.consumed <= |input|
    ensures o.state.epoch == r.epoch
  {
    var d := Decode(r.haveVersion, r.version, input);
    if d.None? then Opened(r, Discard, |input|, None)
    else
      var raw := d.value;
      var consumed := RT_HEADER_LENGTH + |raw.body|;
      if raw.number / TWO_48 != r.epoch || r.window.ShouldDiscard(raw.number) then
        Opened(r, Discard, consumed, None)
      else
        var pt := Open(r.cipher, raw.typ, raw.version, NumberBytes(raw.number), raw.body);
        if pt.None? then Opened(r, Discard, consumed, None)
        else if |pt.value| > MAX_PLAIN_LENGTH then Opened(r, OpenError, consumed, None)
        else
          var r' := r.(window := r.window.Record(raw.number));
          if raw.typ == ALERT then
            var (r'', result) := ProcessAlert(r', pt.value);
            Opened(r'', result, consumed, Some(raw.number))
          else
            Opened(r'.(warningAlerts := 0), Success(raw.typ, pt.value), consumed, Some(raw.number))
  }

  /** `dtls1_set_read_state`, once it has checked that no message is buffered. */
  function SetReadState(r: ReadState, cipher: Cipher): (r': ReadState)
    requires r.Valid() && r.epoch + 1 < 0x1_0000 && (cipher.Some? ==> cipher.value.Valid())
    ensures r'.Valid()
  {
    r.(epoch := r.epoch + 1, window := EMPTY_WINDOW, cipher := cipher)
  }
}

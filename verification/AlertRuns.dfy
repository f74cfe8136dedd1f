/** Alerts over whole runs of a reader: which ones end the connection. */
module AlertRuns {
  import opened Bytes
  import opened Aead
  import opened DtlsRecord

  /** The type and the contents of the record at the front of a packet, if it is one the
      reader accepts: of its version and epoch, new, genuine, and not too long. */
  function Contents(r: ReadState, input: seq<byte>): (c: Option<(byte, seq<byte>)>)
    requires r.Valid()
  {
    var d := Decode(r.haveVersion, r.version, input);
    if d.None? || d.value.number / TWO_48 != r.epoch || r.window.ShouldDiscard(d.value.number) then None
    else
      var pt := Open(r.cipher, d.value.typ, d.value.version, NumberBytes(d.value.number), d.value.body);
      if pt.None? || |pt.value| > 16384 then None else Some((d.value.typ, pt.value))
  }

  /** Section 7.2 of RFC 5246: two bytes, level 1 with any description but close_notify. */
  predicate IsWarning(c: (byte, seq<byte>)) {
    c.0 == 21 && |c.1| == 2 && c.1[0] == 1 && c.1[1] != 0
  }

  /** What one call comes to, told from the contents of the record. */
  lemma AlertResult(r: ReadState, input: seq<byte>)
    requires r.Valid()
    ensures var o, c := OpenRecord(r, input), Contents(r, input);
            match c
            case None => (o.result.Discard? || o.result.OpenError?) && o.state == r
            case Some(c) =>
              && o.state == r.(window := o.state.window, warningAlerts := o.state.warningAlerts,
                               shutdown := o.state.shutdown)
              && if c.0 != 21 then o.result == Success(c.0, c.1) && o.state.warningAlerts == 0
                   && o.state.shutdown == r.shutdown
                 else if IsWarning(c) then
                   && o.result == (if r.warningAlerts >= 4 then OpenError else Discard)
                   && o.state.warningAlerts == r.warningAlerts + 1 && o.state.shutdown == r.shutdown
                 else
                   && o.state.warningAlerts == r.warningAlerts
                   && if |c.1| == 2 && c.1[0] == 1 then o.result == CloseNotify
                       && o.state.shutdown == CloseNotifyReceived
                      else if |c.1| == 2 && c.1[0] == 2 then
                        o.result == FatalAlert && o.state.shutdown == FatalAlertReceived
                      else o.result == OpenError && o.state.shutdown == r.shutdown
  {
    hide Decode, Open, NumberBytes, Window.Record, Window.ShouldDiscard;
  }

  /** The reader after a run of packets, whatever is in them, and the contents accepted. */
  ghost function Reads(r: ReadState, inputs: seq<seq<byte>>): (res: (ReadState, seq<(byte, seq<byte>)>))
    requires r.Valid()
    ensures res.0.Valid()
  {
    if inputs == [] then (r, [])
    else
      var (before, seen) := Reads(r, inputs[..|inputs| - 1]);
      var input := inputs[|inputs| - 1];
      var c := Contents(before, input);
      (OpenRecord(before, input).state, if c.None? then seen else seen + [c.value])
  }

  /** How many warnings have come since the last record that was no alert. */
  function InARow(seen: seq<(byte, seq<byte>)>): (n: nat) {
    if seen == [] then 0
    else
      var last, before := seen[|seen| - 1], InARow(seen[..|seen| - 1]);
      if IsWarning(last) then before + 1 else if last.0 == 21 then before else 0
  }

  lemma {:induction false} WarningsCounted(r: ReadState, inputs: seq<seq<byte>>)
    requires r.Valid() && r.warningAlerts == 0
    ensures var (s, seen) := Reads(r, inputs); s.warningAlerts == InARow(seen)
  {
    hide OpenRecord, Contents;
    if inputs != [] {
      var (before, seen) := Reads(r, inputs[..|inputs| - 1]);
      var input := inputs[|inputs| - 1];
      WarningsCounted(r, inputs[..|inputs| - 1]);
      AlertResult(before, input);
      var c := Contents(before, input);
      if c.Some? {
        assert (seen + [c.value])[..|seen|] == seen;
      }
    }
  }

  /** On any run a warning alert is passed over unless at least four have come since the last
      record that was no alert: the fifth in a row ends the connection, and nothing that
      is discarded resets the count. */
  lemma FifthWarningFails(r: ReadState, inputs: seq<seq<byte>>, input: seq<byte>)
    requires r.Valid() && r.warningAlerts == 0
    requires var c := Contents(Reads(r, inputs).0, input); c.Some? && IsWarning(c.value)
    ensures var (s, seen) := Reads(r, inputs);
            OpenRecord(s, input).result == if InARow(seen) >= 4 then OpenError else Discard
  {
    hide OpenRecord, Contents, InARow, Reads;
    WarningsCounted(r, inputs);
    AlertResult(Reads(r, inputs).0, input);
  }
}

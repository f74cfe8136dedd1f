/** What no sequence of records can do to a reader. */
module ReaderBounds {
  import opened Bytes
  import opened Reassembly
  import opened HandshakeReader
  import Fragment

  /** Every message being put together is within the limit. */
  ghost predicate Bounded(rc: Receiver, max: nat) {
    forall i | 0 <= i < |rc.slots| && rc.slots[i].Some? :: rc.slots[i].value.msgLen <= max
  }

  /** Only the slot of the message that is expected next differs. */
  ghost predicate SameOthers(rc: Receiver, rc': Receiver) {
    && |rc.slots| == |rc'.slots| == MAX_FLIGHT && rc'.readSeq == rc.readSeq
    && forall i | 0 <= i < MAX_FLIGHT && i != rc.readSeq % MAX_FLIGHT :: rc'.slots[i] == rc.slots[i]
  }

  ghost predicate Keeps(rc: Receiver, ctx: ReadContext, rc': Receiver) {
    && (Bounded(rc, ctx.maxMessageLen) ==> Bounded(rc', ctx.maxMessageLen))
    && (ctx.epoch == 1 ==> SameOthers(rc, rc'))
  }

  lemma FragmentKeeps(rc: Receiver, ctx: ReadContext, f: Fragment.Fragment)
    requires |rc.slots| == MAX_FLIGHT
    ensures var (next, outcome) := ProcessFragment(rc, ctx, f);
            && Keeps(rc, ctx, next)
            && (outcome.Failed? ==> next == rc)
            && (ctx.epoch == 1 && f.seqNum != rc.readSeq ==> outcome.Failed?)
            && (f.msgLen > ctx.maxMessageLen || f.fragOff + |f.body| > f.msgLen ==>
                  outcome == Failed(ExcessiveMessageSize))
  {
  }

  lemma KeepsTwice(rc: Receiver, ctx: ReadContext, mid: Receiver, last: Receiver)
    requires Keeps(rc, ctx, mid) && Keeps(mid, ctx, last)
    ensures Keeps(rc, ctx, last)
  {
    hide Bounded;
  }

  lemma {:induction false} FragmentsKeep(rc: Receiver, ctx: ReadContext, payload: seq<byte>)
    requires |rc.slots| == MAX_FLIGHT
    ensures Keeps(rc, ctx, ProcessFragments(rc, ctx, payload).0)
    decreases |payload|
  {
    hide Bounded, ProcessFragment, Fragment.Parse;
    if payload != [] {
      match Fragment.Parse(payload)
      case Malformed =>
      case Parsed(f, rest) =>
        Fragment.EncodeParse(payload);
        FragmentKeeps(rc, ctx, f);
        var next := ProcessFragment(rc, ctx, f).0;
        FragmentsKeep(next, ctx, rest);
        hide Keeps;
        KeepsTwice(rc, ctx, next, ProcessFragments(next, ctx, rest).0);
    }
  }

  lemma SameSlots(rc: Receiver, ctx: ReadContext)
    requires |rc.slots| == MAX_FLIGHT
    ensures Keeps(rc, ctx, rc) && Keeps(rc, ctx, rc.(hasCurrent := true))
  {
  }

  /** However many records are read and whatever is in them, no message longer than the limit
      is ever put together, and once the connection is encrypted no message but the one that
      is expected. */
  lemma {:induction false} ReadingKeeps(rc: Receiver, ctx: ReadContext, records: seq<Record>)
    requires |rc.slots| == MAX_FLIGHT
    ensures Keeps(rc, ctx, ReadUntilComplete(rc, ctx, records).0)
    decreases |records|
  {
    hide Bounded, ProcessFragments;
    SameSlots(rc, ctx);
    if !rc.CurrentComplete() && records != [] {
      FragmentsKeep(rc, ctx, records[0].payload);
      var (next, outcome) := ProcessRecord(rc, ctx, records[0].content, records[0].payload);
      assert Keeps(rc, ctx, next);
      if !outcome.Failed? {
        ReadingKeeps(next, ctx, records[1..]);
        hide Keeps;
        KeepsTwice(rc, ctx, next, ReadUntilComplete(next, ctx, records[1..]).0);
      }
    }
  }
}

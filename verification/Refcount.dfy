/** Reference counts: the compare-and-swap loops of one implementation, interleaved over any
    number of threads, against the functions under a lock of the other. */
module Refcount {
  const REFCOUNT_MAX := 0xffff_ffff

  // -- The implementation under a lock.

  function LockedInc(count: nat): nat {
    if count < REFCOUNT_MAX then count + 1 else count
  }

  /** The new count, and whether it is zero. Zero itself aborts. */
  function LockedDec(count: nat): (r: (nat, bool))
    requires count != 0
  {
    var n := if count < REFCOUNT_MAX then count - 1 else count;
    (n, n == 0)
  }

  class LockedCount {
    var count: nat

    constructor ()
      ensures count == 1
    {
      count := 1;
    }

    /** `CRYPTO_refcount_inc` */
    method Inc()
      modifies this
      ensures count == LockedInc(old(count))
    {
      if count < REFCOUNT_MAX {
        count := count + 1;
      }
    }

    /** `CRYPTO_refcount_dec_and_test_zero`; it aborts on a count of zero. */
    method DecAndTestZero() returns (aborts: bool, ret: bool)
      modifies this
      ensures aborts <==> old(count) == 0
      ensures aborts ==> count == old(count)
      ensures !aborts ==> (count, ret) == LockedDec(old(count))
    {
      if count == 0 {
        return true, false;
      }
      if count < REFCOUNT_MAX {
        count := count - 1;
      }
      return false, count == 0;
    }
  }

  // -- The implementation by compare-and-swap.

  datatype Op = Inc | Dec

  /** Where a thread is: outside, or before a turn of the loop with a value it has read. */
  datatype Pc = Outside | Looping(op: Op, expected: nat)

  datatype Completed = Incremented | Released(ret: bool)

  /** The count, each thread's position, how many references each thread owns, and the
      operations completed so far. */
  datatype System = System(count: nat, pcs: seq<Pc>, owned: seq<nat>, log: seq<Completed>)

  datatype Event =
    | Begin(thread: nat, op: Op)                 // atomic_load
    | Turn(thread: nat, spurious: bool)          // one turn of the loop; a weak exchange may fail for no reason
    | Give(from: nat, to: nat)                   // one thread hands a reference to another

  datatype StepResult = Stuck | Aborts | Next(s: System)

  function Finish(s: System, t: nat, count: nat, owned: nat, c: Completed): System
    requires t < |s.pcs| == |s.owned|
  {
    System(count, s.pcs[t := Outside], s.owned[t := owned], s.log + [c])
  }

  function Fewer(owned: nat): nat {
    if owned == 0 then 0 else owned - 1
  }

  /** One turn of a loop. */
  function Turns(s: System, t: nat, spurious: bool): StepResult
    requires t < |s.pcs| == |s.owned| && s.pcs[t].Looping?
  {
    var expected := s.pcs[t].expected;
    var exchanged := s.count == expected && !spurious;
    var retry := Next(s.(pcs := s.pcs[t := Looping(s.pcs[t].op, s.count)]));
    match s.pcs[t].op
    case Inc =>
      if expected == REFCOUNT_MAX then Next(Finish(s, t, s.count, s.owned[t] + 1, Incremented))
      else if exchanged then Next(Finish(s, t, expected + 1, s.owned[t] + 1, Incremented))
      else retry
    case Dec =>
      if expected == 0 then Aborts
      else if expected == REFCOUNT_MAX then Next(Finish(s, t, s.count, Fewer(s.owned[t]), Released(false)))
      else if exchanged then Next(Finish(s, t, expected - 1, Fewer(s.owned[t]), Released(expected - 1 == 0)))
      else retry
  }

  /** One step. A thread uses the count only while it owns a reference. */
  function Step(s: System, e: Event): StepResult
    requires |s.pcs| == |s.owned|
  {
    match e
    case Begin(t, op) =>
      if t < |s.pcs| && s.pcs[t].Outside? && s.owned[t] > 0 then Next(s.(pcs := s.pcs[t := Looping(op, s.count)]))
      else Stuck
    case Turn(t, spurious) =>
      if t < |s.pcs| && s.pcs[t].Looping? then Turns(s, t, spurious) else Stuck
    case Give(from, to) =>
      if from < |s.pcs| && to < |s.pcs| && from != to && s.pcs[from].Outside? && s.owned[from] > 0 then
        Next(s.(owned := s.owned[from := s.owned[from] - 1][to := s.owned[to] + 1]))
      else Stuck
  }

  function Sum(s: seq<nat>): nat {
    if s == [] then 0 else s[0] + Sum(s[1..])
  }

  lemma {:induction false} SumUpdate(s: seq<nat>, i: nat, v: nat)
    requires i < |s|
    ensures Sum(s[i := v]) == Sum(s) - s[i] + v && s[i] <= Sum(s)
  {
    if i > 0 {
      assert s[i := v][1..] == s[1..][i - 1 := v];
      SumUpdate(s[1..], i - 1, v);
    }
  }

  /** What a thread in the loop has read is what the count was at some time: it is not zero,
      because the thread owns a reference, and it is the maximum only if the count is. */
  ghost predicate ThreadInv(s: System, t: nat)
    requires t < |s.pcs| == |s.owned|
  {
    s.pcs[t].Looping? ==>
      && s.owned[t] > 0 && 0 < s.pcs[t].expected <= REFCOUNT_MAX
      && (s.pcs[t].expected == REFCOUNT_MAX ==> s.count == REFCOUNT_MAX)
  }

  /** Below the maximum the count is the number of references owned; a release that
      returned 1 is the last operation completed, and there is one once the count is zero. */
  ghost predicate Inv(s: System) {
    && |s.pcs| == |s.owned| && s.count <= REFCOUNT_MAX
    && (forall t: nat | t < |s.pcs| :: ThreadInv(s, t))
    && (s.count < REFCOUNT_MAX ==> s.count == Sum(s.owned))
    && (forall k | 0 <= k < |s.log| && s.log[k] == Released(true) :: k == |s.log| - 1 && s.count == 0)
    && (s.count == 0 ==> s.log != [] && s.log[|s.log| - 1] == Released(true))
  }

  /** What a completed operation does to the count is what the locked function does to it at
      that moment; until then an operation leaves the count alone. */
  ghost predicate RefinesLocked(s: System, s': System) {
    if |s'.log| == |s.log| then s'.count == s.count && s'.log == s.log
    else
      && |s'.log| == |s.log| + 1 && s'.log[..|s.log|] == s.log
      && match s'.log[|s.log|]
         case Incremented => s'.count == LockedInc(s.count)
         case Released(ret) => s.count != 0 && (s'.count, ret) == LockedDec(s.count)
  }

  lemma StepRefines(s: System, e: Event)
    requires Inv(s)
    ensures var r := Step(s, e); !r.Aborts? && (r.Next? ==> RefinesLocked(s, r.s))
  {
    if e.Turn? && e.thread < |s.pcs| {
      assert ThreadInv(s, e.thread);
    }
  }

  lemma OwnedAtMostCount(s: System, t: nat)
    requires Inv(s) && t < |s.pcs| && s.owned[t] > 0
    ensures s.count > 0
  {
    SumUpdate(s.owned, t, 0);
  }

  lemma StepKeepsThreads(s: System, e: Event, t: nat)
    requires Inv(s) && Step(s, e).Next? && t < |s.pcs|
    ensures var n := Step(s, e).s; |n.pcs| == |n.owned| == |s.pcs| && ThreadInv(n, t)
  {
    assert ThreadInv(s, t);
    if e.Begin? || e.Turn? {
      assert ThreadInv(s, e.thread);
      OwnedAtMostCount(s, e.thread);
    }
  }

  lemma StepKeepsSum(s: System, e: Event)
    requires Inv(s) && Step(s, e).Next?
    ensures var n := Step(s, e).s; n.count <= REFCOUNT_MAX && (n.count < REFCOUNT_MAX ==> n.count == Sum(n.owned))
  {
    match e
    case Begin(t, op) =>
    case Turn(t, spurious) =>
      assert ThreadInv(s, t);
      SumUpdate(s.owned, t, s.owned[t] + 1);
      if s.owned[t] > 0 {
        SumUpdate(s.owned, t, s.owned[t] - 1);
      }
    case Give(from, to) =>
      SumUpdate(s.owned, from, s.owned[from] - 1);
      SumUpdate(s.owned[from := s.owned[from] - 1], to, s.owned[to] + 1);
  }

  lemma StepKeepsLog(s: System, e: Event)
    requires Inv(s) && Step(s, e).Next?
    ensures var n := Step(s, e).s;
            && (forall k | 0 <= k < |n.log| && n.log[k] == Released(true) :: k == |n.log| - 1 && n.count == 0)
            && (n.count == 0 ==> n.log != [] && n.log[|n.log| - 1] == Released(true))
  {
    StepRefines(s, e);
    if e.Turn? {
      assert ThreadInv(s, e.thread);
      OwnedAtMostCount(s, e.thread);
    }
  }

  lemma StepKeeps(s: System, e: Event)
    requires Inv(s) && Step(s, e).Next?
    ensures Inv(Step(s, e).s)
  {
    hide ThreadInv, Step;
    forall t: nat | t < |s.pcs|
      ensures |Step(s, e).s.pcs| == |Step(s, e).s.owned| == |s.pcs| && ThreadInv(Step(s, e).s, t)
    {
      StepKeepsThreads(s, e, t);
    }
    StepKeepsSizes(s, e);
    StepKeepsSum(s, e);
    StepKeepsLog(s, e);
  }

  lemma StepKeepsSizes(s: System, e: Event)
    requires |s.pcs| == |s.owned| && Step(s, e).Next?
    ensures |Step(s, e).s.pcs| == |Step(s, e).s.owned| == |s.pcs|
  {
  }

  /** The states of a run: events that are not possible change nothing. */
  ghost function Run(s: System, events: seq<Event>): (r: System)
    requires Inv(s)
    ensures Inv(r)
    decreases |events|
  {
    if events == [] then s
    else
      var next := Step(s, events[0]);
      StepRefines(s, events[0]);
      if next.Next? then (StepKeeps(s, events[0]); Run(next.s, events[1..])) else Run(s, events[1..])
  }

  /** A count of one whose only reference the first of `n` threads owns. */
  function Initial(n: nat): System
    requires n > 0
  {
    System(1, seq(n, _ => Outside), seq(n, i => if i == 0 then 1 else 0), [])
  }

  lemma {:induction false} SumOfZeros(s: seq<nat>)
    requires forall i | 0 <= i < |s| :: s[i] == 0
    ensures Sum(s) == 0
  {
    if s != [] {
      SumOfZeros(s[1..]);
    }
  }

  lemma InitialInv(n: nat)
    requires n > 0
    ensures Inv(Initial(n))
  {
    SumOfZeros(Initial(n).owned[1..]);
  }

  ghost function Start(n: nat): (s: System)
    requires n > 0
    ensures Inv(s)
  {
    InitialInv(n);
    Initial(n)
  }

  /** Whatever the interleaving: no thread aborts; as long as references are owned no
      release has returned 1; and when all have been released, unless the count has
      saturated, exactly one release has returned 1, and it is the last operation. */
  lemma LastReleaseFrees(n: nat, events: seq<Event>, e: Event)
    requires n > 0
    ensures var s := Run(Start(n), events);
            && !Step(s, e).Aborts?
            && (Sum(s.owned) > 0 ==> Released(true) !in s.log)
            && (Sum(s.owned) == 0 && s.count < REFCOUNT_MAX ==>
                  forall k | 0 <= k < |s.log| :: s.log[k] == Released(true) <==> k == |s.log| - 1)
            && (Sum(s.owned) == 0 && s.count < REFCOUNT_MAX ==> s.log != [])
  {
    StepRefines(Run(Start(n), events), e);
  }

  /** Once saturated, the count never moves, and no release returns 1. */
  lemma {:induction false} SaturatedForGood(s: System, events: seq<Event>)
    requires Inv(s) && s.count == REFCOUNT_MAX
    ensures var r := Run(s, events); r.count == REFCOUNT_MAX && Released(true) !in r.log
    decreases |events|
  {
    if events != [] {
      var next := Step(s, events[0]);
      StepRefines(s, events[0]);
      if next.Next? {
        StepKeeps(s, events[0]);
        SaturatedForGood(next.s, events[1..]);
      } else {
        SaturatedForGood(s, events[1..]);
      }
    }
  }
}

/** The reference count: the compare-and-swap loops run by any number of
    threads, and the version that does each operation under one lock. */
module Refcount {
  import opened Bytes

  const COUNT_MAX: nat := 0xffff_ffff

  type u32 = x: nat | x <= COUNT_MAX

  datatype Op = Inc | Dec

  /** `Zero(b)`: a decrement returned `b`.  `Aborted`: the process aborts. */
  datatype Outcome = Returned | Zero(isZero: bool) | Aborted

  // ----- The lock version: one operation is one step ----------------------

  function LockStep(count: u32, op: Op): (u32, Outcome) {
    match op
    case Inc => (if count < COUNT_MAX then count + 1 else count, Returned)
    case Dec =>
      if count == 0 then (count, Aborted)
      else
        var count' := if count < COUNT_MAX then count - 1 else count;
        (count', Zero(count' == 0))
  }

  datatype Entry = Entry(tid: nat, op: Op, outcome: Outcome)

  /** The count the lock version reaches by the operations of `log` in order. */
  function LockRun(init: u32, log: seq<Entry>): u32 {
    if log == [] then init
    else LockStep(LockRun(init, log[..|log| - 1]), log[|log| - 1].op).0
  }

  /** Every outcome in `log` is the one the lock version gives at that place. */
  predicate LockAgrees(init: u32, log: seq<Entry>) {
    log == [] ||
    (var front, last := log[..|log| - 1], log[|log| - 1];
     LockAgrees(init, front) && LockStep(LockRun(init, front), last.op).1 == last.outcome)
  }

  /** The count in memory; each method runs under the one lock. */
  class LockedCount {
    var count: u32

    constructor (count: u32)
      ensures this.count == count
    {
      this.count := count;
    }

    method Increment()
      modifies this
      ensures count == LockStep(old(count), Inc).0
    {
      if count < COUNT_MAX {
        count := count + 1;
      }
    }

    /** The outcome, which at zero is that the process aborts. */
    method DecrementAndTestZero() returns (outcome: Outcome)
      modifies this
      ensures (count, outcome) == LockStep(old(count), Dec)
    {
      if count == 0 {
        return Aborted;
      }
      if count < COUNT_MAX {
        count := count - 1;
      }
      outcome := Zero(count == 0);
    }
  }

  // ----- The compare-and-swap loops, one atomic step at a time ------------

  /** Where a thread stands: before its first load, in the loop with its local
      `expected`, or past the loop with a value to return. */
  datatype Pc =
    | Idle
    | Called(op: Op)
    | Looping(op: Op, expected: u32)
    | Done(op: Op, outcome: Outcome)

  /** The loop test that leaves without a compare-and-swap. */
  predicate Leaves(op: Op, expected: u32) {
    expected == COUNT_MAX || (op == Dec && expected == 0)
  }

  function LeaveOutcome(op: Op, expected: u32): Outcome {
    match op
    case Inc => Returned
    case Dec => if expected == 0 then Aborted else Zero(false)
  }

  /** One atomic step of a thread.  `spurious` lets the weak compare-and-swap
      fail although the values agree; a failed one reloads `expected`. */
  function ThreadStep(count: u32, pc: Pc, spurious: bool): (u32, Pc) {
    match pc
    case Idle => (count, Idle)
    case Called(op) => (count, Looping(op, count))
    case Looping(op, expected) =>
      if Leaves(op, expected) then (count, Done(op, LeaveOutcome(op, expected)))
      else if count == expected && !spurious then
        match op {
          case Inc => (expected + 1, Done(op, Returned))
          case Dec => (expected - 1, Done(op, Zero(expected - 1 == 0)))
        }
      else (count, Looping(op, count))
    case Done(_, _) => (count, Idle)
  }

  /** A thread takes effect when it reads a value it will leave on, or when its
      compare-and-swap succeeds. */
  function TakesEffect(count: u32, pc: Pc, spurious: bool): Option<Outcome> {
    match ThreadStep(count, pc, spurious).1
    case Looping(op, e) =>
      if Leaves(op, e) then Some(LeaveOutcome(op, e)) else None
    case Done(_, outcome) =>
      if pc.Looping? && !Leaves(pc.op, pc.expected) then Some(outcome) else None
    case _ => None
  }

  /** `begun[t]` counts the calls thread `t` has made. */
  datatype State = State(count: u32, threads: map<nat, Pc>, begun: map<nat, nat>, log: seq<Entry>)
  {
    function PcOf(t: nat): Pc { if t in threads then threads[t] else Idle }
    function Begun(t: nat): nat { if t in begun then begun[t] else 0 }
  }

  datatype Choice = Begin(tid: nat, op: Op) | Step(tid: nat, spurious: bool)

  function Next(s: State, c: Choice): State {
    match c
    case Begin(t, op) =>
      if s.PcOf(t).Idle? then
        s.(threads := s.threads[t := Called(op)], begun := s.begun[t := s.Begun(t) + 1])
      else s
    case Step(t, spurious) =>
      var pc := s.PcOf(t);
      var (count, pc') := ThreadStep(s.count, pc, spurious);
      var log := match TakesEffect(s.count, pc, spurious)
        case Some(outcome) => s.log + [Entry(t, pc.op, outcome)]
        case None => s.log;
      State(count, s.threads[t := pc'], s.begun, log)
  }

  /** Any number of threads under any schedule. */
  function Exec(s: State, schedule: seq<Choice>): State {
    if schedule == [] then s
    else Next(Exec(s, schedule[..|schedule| - 1]), schedule[|schedule| - 1])
  }

  function Start(count: u32): State { State(count, map[], map[], []) }

  // ----- What every run keeps ---------------------------------------------

  function EntriesOf(log: seq<Entry>, t: nat): seq<Entry> {
    if log == [] then []
    else EntriesOf(log[..|log| - 1], t) + (if log[|log| - 1].tid == t then [log[|log| - 1]] else [])
  }

  /** Whether the call a thread is in has taken effect yet. */
  predicate Pending(pc: Pc) {
    pc.Called? || (pc.Looping? && !Leaves(pc.op, pc.expected))
  }

  /** The call that took effect and has not returned yields the outcome logged for it. */
  predicate Settled(pc: Pc, entries: seq<Entry>) {
    && (pc.Looping? && Leaves(pc.op, pc.expected) ==>
        entries != [] && entries[|entries| - 1].op == pc.op &&
        entries[|entries| - 1].outcome == LeaveOutcome(pc.op, pc.expected))
    && (pc.Done? ==>
        entries != [] && entries[|entries| - 1].op == pc.op &&
        entries[|entries| - 1].outcome == pc.outcome)
  }

  predicate ThreadInv(s: State, t: nat) {
    && |EntriesOf(s.log, t)| + (if Pending(s.PcOf(t)) then 1 else 0) == s.Begun(t)
    && Settled(s.PcOf(t), EntriesOf(s.log, t))
  }

  ghost predicate Inv(init: u32, s: State) {
    && LockAgrees(init, s.log)
    && LockRun(init, s.log) == s.count
    && forall t: nat :: ThreadInv(s, t)
  }

  lemma LogSnoc(init: u32, log: seq<Entry>, e: Entry)
    requires LockAgrees(init, log)
    requires LockStep(LockRun(init, log), e.op).1 == e.outcome
    ensures LockAgrees(init, log + [e])
    ensures LockRun(init, log + [e]) == LockStep(LockRun(init, log), e.op).0
  {
  }

  lemma EntriesSnoc(log: seq<Entry>, e: Entry, t: nat)
    ensures EntriesOf(log + [e], t) == EntriesOf(log, t) + (if e.tid == t then [e] else [])
  {
    var more := log + [e];
    assert more[..|more| - 1] == log && more[|more| - 1] == e;
  }

  lemma NextKeepsThread(s: State, c: Choice, t: nat)
    requires ThreadInv(s, t)
    ensures ThreadInv(Next(s, c), t)
  {
    hide EntriesOf;
    if c.Step? {
      var pc := s.PcOf(c.tid);
      var effect := TakesEffect(s.count, pc, c.spurious);
      if effect.Some? {
        EntriesSnoc(s.log, Entry(c.tid, pc.op, effect.value), t);
      }
    }
  }

  /** The compare-and-swap succeeds exactly if the count is what the thread expects
      and it does not fail spuriously; a thread that fails looks again. */
  lemma SwapExactly(count: u32, op: Op, expected: u32, spurious: bool)
    requires !Leaves(op, expected)
    ensures var (count', pc) := ThreadStep(count, Looping(op, expected), spurious);
            && (pc.Done? <==> count == expected && !spurious)
            && (pc.Done? ==> count' == if op == Inc then expected + 1 else expected - 1)
            && (!pc.Done? ==> count' == count && pc == Looping(op, count))
  {
  }

  /** A step that takes effect does to the count what the lock version does in
      one step, with the same outcome; any other step leaves the count alone. */
  lemma EffectIsLockStep(count: u32, pc: Pc, spurious: bool)
    ensures match TakesEffect(count, pc, spurious)
            case None => ThreadStep(count, pc, spurious).0 == count
            case Some(outcome) =>
              !pc.Idle? && LockStep(count, pc.op) == (ThreadStep(count, pc, spurious).0, outcome)
  {
  }

  lemma NextKeepsLog(init: u32, s: State, c: Choice)
    requires LockAgrees(init, s.log) && LockRun(init, s.log) == s.count
    ensures LockAgrees(init, Next(s, c).log) && LockRun(init, Next(s, c).log) == Next(s, c).count
  {
    hide LockStep, ThreadStep, TakesEffect, LockAgrees, LockRun;
    if c.Step? {
      var pc := s.PcOf(c.tid);
      var effect := TakesEffect(s.count, pc, c.spurious);
      EffectIsLockStep(s.count, pc, c.spurious);
      if effect.Some? {
        LogSnoc(init, s.log, Entry(c.tid, pc.op, effect.value));
      }
    }
  }

  lemma NextKeepsInv(init: u32, s: State, c: Choice)
    requires Inv(init, s)
    ensures Inv(init, Next(s, c))
  {
    hide Next, ThreadInv, LockAgrees, LockRun;
    NextKeepsLog(init, s, c);
    forall t: nat ensures ThreadInv(Next(s, c), t) {
      NextKeepsThread(s, c, t);
    }
  }

  /** Linearizability.  Under any schedule of any number of threads, with any
      spurious failures, the log is a run of the lock version that ends in the
      present count; every call is logged exactly once between its call and
      its return, and returns what the lock version returned there. */
  lemma {:induction false} Linearizable(init: u32, schedule: seq<Choice>)
    ensures Inv(init, Exec(Start(init), schedule))
  {
    if schedule == [] {
      forall t: nat ensures ThreadInv(Start(init), t) {}
    } else {
      Linearizable(init, schedule[..|schedule| - 1]);
      NextKeepsInv(init, Exec(Start(init), schedule[..|schedule| - 1]), schedule[|schedule| - 1]);
    }
  }

  function Tally(log: seq<Entry>, op: Op): nat {
    if log == [] then 0
    else Tally(log[..|log| - 1], op) +
         (if log[|log| - 1].op == op && log[|log| - 1].outcome != Aborted then 1 else 0)
  }

  /** Conservation: a count that is not saturated is the initial one plus the
      increments minus the decrements that took effect. */
  lemma {:induction false} Conservation(init: u32, log: seq<Entry>)
    requires LockAgrees(init, log)
    requires LockRun(init, log) != COUNT_MAX
    ensures LockRun(init, log) == init + Tally(log, Inc) - Tally(log, Dec)
  {
    if log != [] {
      var front := log[..|log| - 1];
      Conservation(init, front);
    }
  }

  lemma {:induction false} SaturatedStays(init: u32, log: seq<Entry>, k: nat)
    requires k <= |log| && LockRun(init, log[..k]) == COUNT_MAX
    ensures LockRun(init, log) == COUNT_MAX
    decreases |log| - k
  {
    if k == |log| {
      assert log[..k] == log;
    } else {
      assert log[..k + 1][..k] == log[..k];
      SaturatedStays(init, log, k + 1);
    }
  }

  /** The count, stated for runs of the compare-and-swap loops: a saturated
      count never moves again, and an unsaturated one is conserved. */
  lemma CountOverRuns(init: u32, schedule: seq<Choice>, more: seq<Choice>)
    ensures var s := Exec(Start(init), schedule);
            && (s.count == COUNT_MAX ==> Exec(Start(init), schedule + more).count == COUNT_MAX)
            && (s.count != COUNT_MAX ==>
                s.count == init + Tally(s.log, Inc) - Tally(s.log, Dec))
  {
    Linearizable(init, schedule);
    var s := Exec(Start(init), schedule);
    if s.count != COUNT_MAX {
      Conservation(init, s.log);
    } else {
      SaturatedRun(init, schedule, more);
    }
  }

  lemma {:induction false} SaturatedRun(init: u32, schedule: seq<Choice>, more: seq<Choice>)
    requires Exec(Start(init), schedule).count == COUNT_MAX
    ensures Exec(Start(init), schedule + more).count == COUNT_MAX
    decreases |more|
  {
    var all := schedule + more;
    if more == [] {
      assert all == schedule;
    } else {
      assert all[..|all| - 1] == schedule + more[..|more| - 1];
      SaturatedRun(init, schedule, more[..|more| - 1]);
    }
  }

  /** A decrement that returns does so with "zero" exactly when the count it
      left behind, at its place in the order of effects, is zero. */
  lemma ZeroReportedExactly(init: u32, log: seq<Entry>, k: nat)
    requires LockAgrees(init, log) && k < |log| && log[k].op == Dec && log[k].outcome.Zero?
    ensures log[k].outcome.isZero <==> LockRun(init, log[..k + 1]) == 0
  {
    AgreesAt(init, log, k);
    assert log[..k + 1][..k] == log[..k];
  }

  lemma {:induction false} AgreesAt(init: u32, log: seq<Entry>, k: nat)
    requires LockAgrees(init, log) && k < |log|
    ensures LockStep(LockRun(init, log[..k]), log[k].op).1 == log[k].outcome
    decreases |log|
  {
    var front := log[..|log| - 1];
    if k < |log| - 1 {
      AgreesAt(init, front, k);
      assert front[..k] == log[..k];
    }
  }
}

/**
 * `execute_at_interval`: run the task, stop on its first error, and
 * otherwise sleep for what is left of the interval.  The task is given as
 * the finite sequence of its outcomes, each the time the call took or the
 * error it returned; sleeps are recorded instead of performed.  All
 * durations are in nanoseconds, the resolution of Rust's `Duration`.
 */
module Scheduler {

  const U64_MAX: int := 0xFFFF_FFFF_FFFF_FFFF
  const NANOS_PER_SECOND: nat := 1_000_000_000

  datatype Outcome<E> = Completed(elapsed: nat) | Failed(error: E)

  /** What the loop does, in order: call the task, or sleep for a duration. */
  datatype Event = Invoked | Slept(nanos: nat)

  /**
   * Why the loop ended: the task's error, or (in the model only) because
   * the given outcomes ran out; the real loop has no successful exit.
   */
  datatype Stop<E> = TaskFailed(error: E) | OutcomesExhausted

  datatype Execution<E> = Execution(trace: seq<Event>, stop: Stop<E>)

  /** `Duration::from_secs(interval_minutes * 60)`, in nanoseconds. */
  function IntervalNanos(minutes: nat): nat
    requires minutes * 60 <= U64_MAX
  {
    minutes * 60 * NANOS_PER_SECOND
  }

  function Max(a: nat, b: nat): nat { if a < b then b else a }

  /** The total time slept in a trace. */
  function SleepTotal(trace: seq<Event>): nat
  {
    if trace == [] then 0
    else (match trace[0] case Slept(d) => d case Invoked => 0) + SleepTotal(trace[1..])
  }

  /** The number of task calls in a trace. */
  function Calls(trace: seq<Event>): nat
  {
    if trace == [] then 0 else (if trace[0] == Invoked then 1 else 0) + Calls(trace[1..])
  }

  /**
   * One successful cycle: the call, then a sleep for the rest of the
   * interval if the call took less than the interval, and no sleep if not.
   */
  function Cycle(elapsed: nat, interval: nat): (r: seq<Event>)
    ensures 1 <= |r| <= 2 && r[0] == Invoked && Calls(r) == 1
    ensures (|r| == 1) <==> elapsed >= interval
    ensures elapsed + SleepTotal(r) == Max(elapsed, interval)
    ensures forall k :: 0 < k < |r| ==> r[k].Slept? && 0 < r[k].nanos <= interval
  {
    if elapsed < interval then
      var r := [Invoked, Slept(interval - elapsed)];
      assert r[1..][1..] == [];
      assert SleepTotal(r[1..]) == interval - elapsed && Calls(r[1..]) == 0;
      r
    else
      [Invoked]
  }

  /** The loop as a recursive definition. */
  function Run<E>(outcomes: seq<Outcome<E>>, interval: nat): Execution<E>
  {
    if outcomes == [] then Execution([], OutcomesExhausted)
    else
      match outcomes[0]
      case Failed(e) => Execution([Invoked], TaskFailed(e))
      case Completed(elapsed) =>
        var rest := Run(outcomes[1..], interval);
        Execution(Cycle(elapsed, interval) + rest.trace, rest.stop)
  }

  /** The events of a run of successful cycles. */
  function Cycles<E>(outcomes: seq<Outcome<E>>, interval: nat): seq<Event>
    requires forall k :: 0 <= k < |outcomes| ==> outcomes[k].Completed?
  {
    if outcomes == [] then []
    else Cycle(outcomes[0].elapsed, interval) + Cycles(outcomes[1..], interval)
  }

  /** The total time the calls of a run of successful cycles took. */
  function Busy<E>(outcomes: seq<Outcome<E>>): nat
    requires forall k :: 0 <= k < |outcomes| ==> outcomes[k].Completed?
  {
    if outcomes == [] then 0 else outcomes[0].elapsed + Busy(outcomes[1..])
  }

  lemma {:induction false} SleptConcat(a: seq<Event>, b: seq<Event>)
    ensures SleepTotal(a + b) == SleepTotal(a) + SleepTotal(b)
    ensures Calls(a + b) == Calls(a) + Calls(b)
  {
    if a == [] {
      assert a + b == b;
    } else {
      assert (a + b)[1..] == a[1..] + b;
      SleptConcat(a[1..], b);
    }
  }

  /**
   * The scheduler stops at the first failing call with that call's error:
   * every earlier call completed and was followed by its cycle's sleep, the
   * failing call is the last event (no sleep after it, no further call), and
   * the task was called exactly `k + 1` times.
   */
  lemma {:induction false} StopsAtFirstFailure<E>(outcomes: seq<Outcome<E>>, interval: nat, k: nat)
    requires k < |outcomes| && outcomes[k].Failed?
    requires forall j :: 0 <= j < k ==> outcomes[j].Completed?
    ensures Run(outcomes, interval).stop == TaskFailed(outcomes[k].error)
    ensures Run(outcomes, interval).trace == Cycles(outcomes[..k], interval) + [Invoked]
    ensures Calls(Run(outcomes, interval).trace) == k + 1
  {
    if k == 0 {
    } else {
      var tail := outcomes[1..];
      assert forall j :: 0 <= j < k - 1 ==> tail[j] == outcomes[j + 1];
      StopsAtFirstFailure(tail, interval, k - 1);
      assert outcomes[..k][1..] == tail[..k - 1];
      var c := Cycle(outcomes[0].elapsed, interval);
      assert Run(outcomes, interval).trace == c + (Cycles(tail[..k - 1], interval) + [Invoked]);
      SleptConcat(Cycles(tail[..k - 1], interval), [Invoked]);
      SleptConcat(c, Cycles(tail[..k - 1], interval) + [Invoked]);
    }
  }

  /** The loop only runs out when no call failed; it never ends otherwise. */
  lemma {:induction false} ExhaustedIffAllCompleted<E>(outcomes: seq<Outcome<E>>, interval: nat)
    ensures Run(outcomes, interval).stop == OutcomesExhausted <==>
            forall k :: 0 <= k < |outcomes| ==> outcomes[k].Completed?
  {
    if outcomes != [] {
      var tail := outcomes[1..];
      ExhaustedIffAllCompleted(tail, interval);
      assert forall k :: 0 <= k < |tail| ==> tail[k] == outcomes[k + 1];
      if tail != [] && forall k :: 0 <= k < |outcomes| ==> outcomes[k].Completed? {
        assert forall k :: 0 <= k < |tail| ==> tail[k].Completed?;
      }
    }
  }

  /** Over successful cycles the loop's events are those of the cycles, one call each. */
  lemma {:induction false} AllCompletedRun<E>(outcomes: seq<Outcome<E>>, interval: nat)
    requires forall k :: 0 <= k < |outcomes| ==> outcomes[k].Completed?
    ensures Run(outcomes, interval) == Execution(Cycles(outcomes, interval), OutcomesExhausted)
    ensures Calls(Cycles(outcomes, interval)) == |outcomes|
  {
    if outcomes != [] {
      var tail := outcomes[1..];
      assert forall k :: 0 <= k < |tail| ==> tail[k] == outcomes[k + 1];
      AllCompletedRun(tail, interval);
      SleptConcat(Cycle(outcomes[0].elapsed, interval), Cycles(tail, interval));
    }
  }

  lemma MulSucc(n: nat, x: nat)
    ensures (n + 1) * x == n * x + x
  {
  }

  /** Unfolding the first successful cycle of a run. */
  lemma CyclesStep<E>(outcomes: seq<Outcome<E>>, interval: nat)
    requires |outcomes| > 0 && forall k :: 0 <= k < |outcomes| ==> outcomes[k].Completed?
    ensures forall k :: 0 <= k < |outcomes[1..]| ==> outcomes[1..][k].Completed?
    ensures Busy(outcomes) + SleepTotal(Cycles(outcomes, interval))
            == Max(outcomes[0].elapsed, interval) + Busy(outcomes[1..]) + SleepTotal(Cycles(outcomes[1..], interval))
  {
  }

  /**
   * The time a run of successful cycles takes when every cycle lasts the
   * longer of its call and the interval.
   */
  function MaxTotal<E>(outcomes: seq<Outcome<E>>, interval: nat): nat
    requires forall k :: 0 <= k < |outcomes| ==> outcomes[k].Completed?
  {
    if outcomes == [] then 0 else Max(outcomes[0].elapsed, interval) + MaxTotal(outcomes[1..], interval)
  }

  /**
   * Over successful cycles, time spent in calls plus time slept is exactly
   * the sum, cycle by cycle, of the longer of the call and the interval: no
   * lag is carried from one cycle to the next, so an overrun is never made
   * up for by a shorter later sleep.  In particular the run takes at least
   * one interval per cycle.
   */
  lemma {:induction false} CyclesKeepTime<E>(outcomes: seq<Outcome<E>>, interval: nat)
    requires forall k :: 0 <= k < |outcomes| ==> outcomes[k].Completed?
    ensures Busy(outcomes) + SleepTotal(Cycles(outcomes, interval)) == MaxTotal(outcomes, interval)
    ensures MaxTotal(outcomes, interval) >= |outcomes| * interval
  {
    if outcomes != [] {
      CyclesStep(outcomes, interval);
      CyclesKeepTime(outcomes[1..], interval);
      MulSucc(|outcomes[1..]|, interval);
    }
  }

  /**
   * When no call overruns the interval, calls and sleeps together take
   * exactly one interval per cycle: the n-th call starts n intervals after
   * the first.
   */
  lemma {:induction false} CyclesOnSchedule<E>(outcomes: seq<Outcome<E>>, interval: nat)
    requires forall k :: 0 <= k < |outcomes| ==> outcomes[k].Completed? && outcomes[k].elapsed <= interval
    ensures Busy(outcomes) + SleepTotal(Cycles(outcomes, interval)) == |outcomes| * interval
  {
    if outcomes != [] {
      CyclesStep(outcomes, interval);
      var tail := outcomes[1..];
      assert forall k :: 0 <= k < |tail| ==> tail[k] == outcomes[k + 1];
      CyclesOnSchedule(tail, interval);
      MulSucc(|tail|, interval);
    }
  }

  /** A completed call at position `i` keeps the loop's account of the run. */
  lemma CompletedStep<E>(task: seq<Outcome<E>>, i: nat, interval: nat, before: seq<Event>, after: seq<Event>)
    requires i < |task| && task[i].Completed?
    requires Run(task, interval).trace == before + Run(task[i..], interval).trace
    requires Run(task, interval).stop == Run(task[i..], interval).stop
    requires after == before + Cycle(task[i].elapsed, interval)
    ensures Run(task, interval).trace == after + Run(task[i + 1..], interval).trace
    ensures Run(task, interval).stop == Run(task[i + 1..], interval).stop
  {
    var rest := Run(task[i + 1..], interval);
    assert task[i..][0] == task[i] && task[i..][1..] == task[i + 1..];
    assert Run(task[i..], interval) == Execution(Cycle(task[i].elapsed, interval) + rest.trace, rest.stop);
  }

  /** A failed call at position `i` ends the run with that call's error. */
  lemma FailedStep<E>(task: seq<Outcome<E>>, i: nat, interval: nat, before: seq<Event>)
    requires i < |task| && task[i].Failed?
    requires Run(task, interval).trace == before + Run(task[i..], interval).trace
    requires Run(task, interval).stop == Run(task[i..], interval).stop
    ensures Run(task, interval) == Execution(before + [Invoked], TaskFailed(task[i].error))
  {
    assert task[i..][0] == task[i];
  }

  /**
   * `execute_at_interval(task, interval_minutes)`.  The source computes
   * `interval_minutes * 60` in `u64`; callers must keep it in range.
   */
  method ExecuteAtInterval<E>(task: seq<Outcome<E>>, intervalMinutes: nat)
    returns (trace: seq<Event>, stop: Stop<E>)
    requires intervalMinutes * 60 <= U64_MAX
    ensures Execution(trace, stop) == Run(task, IntervalNanos(intervalMinutes))
  {
    var interval := intervalMinutes * 60 * NANOS_PER_SECOND;
    assert interval == IntervalNanos(intervalMinutes);
    trace := [];
    var i := 0;
    while i < |task|
      invariant 0 <= i <= |task|
      invariant Run(task, interval).trace == trace + Run(task[i..], interval).trace
      invariant Run(task, interval).stop == Run(task[i..], interval).stop
    {
      match task[i]
      case Failed(e) =>
        FailedStep(task, i, interval, trace);
        trace := trace + [Invoked];
        stop := TaskFailed(e);
        return;
      case Completed(elapsed) =>
        ghost var before := trace;
        trace := trace + [Invoked];
        if elapsed < interval {
          trace := trace + [Slept(interval - elapsed)];
        }
        CompletedStep(task, i, interval, before, trace);
      i := i + 1;
    }
    stop := OutcomesExhausted;
  }
}

/** The worker loop of the spin-wait timer (`NotificationTimer`), run over an
    abstract trace: the successive readings of the microsecond stopwatch and,
    for every pass, the values the worker reads from the shared fields. */
module SpinWaitEngine {
  import opened Numeric
  import opened SpinWaitEventArgs

  /** What the worker reads from the timer's fields at the top of one pass:
      the stop flag, then the interval and the late threshold. */
  datatype PassInput = PassInput(stopTimer: bool, intervalMicroSec: int, ignoreEventIfLateBy: int)

  /** One completed pass: the index of the reading taken at its top, the index
      of the reading that ended its spin, the scheduled point it waited for,
      the record it built and whether that record was delivered. */
  datatype Pass = Pass(startAt: nat, stopAt: nat, nextNotification: int,
                       args: SpinWaitTimerEventArgs, delivered: bool)

  ghost predicate NonDecreasing(clock: seq<int>) {
    forall i, j :: 0 <= i <= j < |clock| ==> clock[i] <= clock[j]
  }

  /** The sum of the intervals read by the given passes: the schedule point
      reached after them. */
  function Schedule(inputs: seq<PassInput>): int {
    if inputs == [] then 0
    else Schedule(inputs[..|inputs| - 1]) + inputs[|inputs| - 1].intervalMicroSec
  }

  /** Index of the clock reading the pass after `log` takes at its top. */
  function NextStart(log: seq<Pass>): nat {
    if log == [] then 0 else log[|log| - 1].stopAt + 1
  }

  /** The scheduled point after `log` (`nextNotification`). */
  function LastTarget(log: seq<Pass>): int {
    if log == [] then 0 else log[|log| - 1].nextNotification
  }

  /** Pass `k` of `log` is what one iteration of the loop does on the trace:
      it reads the clock once at its top, advances the schedule by the
      interval it read, spins over readings below that point until one
      reaches it, and delivers its record iff it is less late than the
      threshold it read. */
  ghost predicate PassFollows(clock: seq<int>, inputs: seq<PassInput>, log: seq<Pass>, k: nat)
    requires k < |log| <= |inputs|
  {
    var p := log[k];
    var start := if k == 0 then 0 else log[k - 1].stopAt + 1;
    var previous := if k == 0 then 0 else log[k - 1].nextNotification;
    && p.startAt == start
    && start < p.stopAt < |clock|
    && p.nextNotification == previous + inputs[k].intervalMicroSec
    && (forall j :: start < j < p.stopAt ==> clock[j] < p.nextNotification)
    && clock[p.stopAt] >= p.nextNotification
    && p.args == SpinWaitTimerEventArgs(WrapInt32(k + 1), clock[p.stopAt],
                                        clock[p.stopAt] - p.nextNotification,
                                        clock[start] - previous)
    && p.delivered == (p.args.TimerLateBy < inputs[k].ignoreEventIfLateBy)
  }

  /** `log` lists the passes the loop completes on the trace, in order; none
      of them saw the stop flag set. */
  ghost predicate RunLog(clock: seq<int>, inputs: seq<PassInput>, log: seq<Pass>)
  {
    && |log| <= |inputs|
    && forall k :: 0 <= k < |log| ==> !inputs[k].stopTimer && PassFollows(clock, inputs, log, k)
  }

  /** The records of the delivered passes, in pass order. */
  function Delivered(log: seq<Pass>): (ticks: seq<SpinWaitTimerEventArgs>)
    ensures |ticks| <= |log|
  {
    if log == [] then []
    else Delivered(log[..|log| - 1]) + (if log[|log| - 1].delivered then [log[|log| - 1].args] else [])
  }

  /** The loop of `NotificationTimer`. It runs until it reads the stop flag
      set, or until the trace ends (the end of what is observed; a pass still
      spinning then is not logged). */
  method NotificationTimer(clock: seq<int>, inputs: seq<PassInput>)
    returns (log: seq<Pass>, ticks: seq<SpinWaitTimerEventArgs>, stoppedByFlag: bool)
    ensures RunLog(clock, inputs, log)
    ensures ticks == Delivered(log)
    ensures stoppedByFlag <==> |log| < |inputs| && inputs[|log|].stopTimer
    // A pass neither stopped nor completed was still spinning when the trace ended.
    ensures !stoppedByFlag && |log| < |inputs| ==>
      forall j :: NextStart(log) < j < |clock| ==>
        clock[j] < LastTarget(log) + inputs[|log|].intervalMicroSec
    ensures forall k :: 0 <= k < |log| ==>
      && log[k].args.TimerLateBy >= 0
      && (log[k].delivered <==> log[k].args.TimerLateBy < inputs[k].ignoreEventIfLateBy)
  {
    var timerCount: int32 := 0;
    var nextNotification := 0;
    var pos := 0;
    log, ticks := [], [];
    while |log| < |inputs| && !inputs[|log|].stopTimer && pos < |clock|
      invariant RunLog(clock, inputs, log)
      invariant pos == NextStart(log) <= |clock|
      invariant nextNotification == LastTarget(log)
      invariant timerCount == WrapInt32(|log|)
      invariant ticks == Delivered(log)
      decreases |clock| - pos
    {
      var k := |log|;
      var start := pos;
      var callbackFunctionExecutionTime := clock[pos] - nextNotification;
      pos := pos + 1;

      var timerIntervalInMicroSecCurrent := inputs[k].intervalMicroSec;
      var ignoreEventIfLateByCurrent := inputs[k].ignoreEventIfLateBy;

      nextNotification := nextNotification + timerIntervalInMicroSecCurrent;
      WrapInt32Succ(k);
      timerCount := WrapInt32(timerCount + 1);

      while pos < |clock| && clock[pos] < nextNotification
        invariant start < pos <= |clock|
        invariant forall j :: start < j < pos ==> clock[j] < nextNotification
        decreases |clock| - pos
      {
        pos := pos + 1;
      }
      if pos == |clock| {
        break;
      }
      var elapsedMicroseconds := clock[pos];
      var timerLateBy := elapsedMicroseconds - nextNotification;
      var args := SpinWaitTimerEventArgs(timerCount, elapsedMicroseconds, timerLateBy,
                                         callbackFunctionExecutionTime);
      var delivered := timerLateBy < ignoreEventIfLateByCurrent;
      var pass := Pass(start, pos, nextNotification, args, delivered);
      ExtendRunLog(clock, inputs, log, pass);
      log := log + [pass];
      pos := pos + 1;
      if delivered {
        ticks := ticks + [args];
      }
    }
    stoppedByFlag := |log| < |inputs| && inputs[|log|].stopTimer;
    forall k | 0 <= k < |log|
      ensures log[k].args.TimerLateBy >= 0
    {
      assert PassFollows(clock, inputs, log, k);
    }
  }

  /** A pass that follows the passes of a run log extends it. */
  lemma ExtendRunLog(clock: seq<int>, inputs: seq<PassInput>, log: seq<Pass>, pass: Pass)
    requires RunLog(clock, inputs, log)
    requires |log| < |inputs| && !inputs[|log|].stopTimer
    requires pass.startAt == NextStart(log) < pass.stopAt < |clock|
    requires pass.nextNotification == LastTarget(log) + inputs[|log|].intervalMicroSec
    requires forall j :: pass.startAt < j < pass.stopAt ==> clock[j] < pass.nextNotification
    requires clock[pass.stopAt] >= pass.nextNotification
    requires pass.args == SpinWaitTimerEventArgs(WrapInt32(|log| + 1), clock[pass.stopAt],
                                                 clock[pass.stopAt] - pass.nextNotification,
                                                 clock[pass.startAt] - LastTarget(log))
    requires pass.delivered == (pass.args.TimerLateBy < inputs[|log|].ignoreEventIfLateBy)
    ensures RunLog(clock, inputs, log + [pass])
    ensures Delivered(log + [pass]) == Delivered(log) + (if pass.delivered then [pass.args] else [])
  {
    var ext := log + [pass];
    assert ext[..|log|] == log;
    forall k | 0 <= k < |log|
      ensures PassFollows(clock, inputs, ext, k)
    {
      PassFollowsInPrefix(clock, inputs, log, ext, k);
    }
    assert ext[|log|] == pass;
    assert |log| > 0 ==> ext[|log| - 1] == log[|log| - 1];
    assert PassFollows(clock, inputs, ext, |log|);
  }

  /** Whether pass `k` follows depends only on the passes up to `k`. */
  lemma PassFollowsInPrefix(clock: seq<int>, inputs: seq<PassInput>, log: seq<Pass>, ext: seq<Pass>, k: nat)
    requires k < |log| <= |ext| <= |inputs| && log == ext[..|log|]
    requires PassFollows(clock, inputs, log, k)
    ensures PassFollows(clock, inputs, ext, k)
  {
    assert ext[k] == log[k];
    assert k > 0 ==> ext[k - 1] == log[k - 1];
  }

  /** The schedule is a running sum: after pass `k` the worker waits for the
      sum of the intervals read on passes 0..k, whatever their lateness and
      whether or not their ticks were delivered. */
  lemma {:induction false} ScheduleIsRunningSum(clock: seq<int>, inputs: seq<PassInput>, log: seq<Pass>, k: nat)
    requires RunLog(clock, inputs, log)
    requires k < |log|
    ensures log[k].nextNotification == Schedule(inputs[..k + 1])
  {
    assert inputs[..k + 1][..k] == inputs[..k];
    assert PassFollows(clock, inputs, log, k);
    if k > 0 {
      ScheduleIsRunningSum(clock, inputs, log, k - 1);
    }
  }

  lemma {:induction false} ScheduleOfFixedInterval(inputs: seq<PassInput>, interval: int)
    requires forall i :: 0 <= i < |inputs| ==> inputs[i].intervalMicroSec == interval
    ensures Schedule(inputs) == |inputs| * interval
  {
    if inputs != [] {
      ScheduleOfFixedInterval(inputs[..|inputs| - 1], interval);
    }
  }

  /** With a fixed interval the k-th scheduled point is anchored to the start
      of the run: it is (k + 1) intervals, however late earlier ticks were. */
  lemma FixedIntervalHasNoDrift(clock: seq<int>, inputs: seq<PassInput>, log: seq<Pass>, interval: int, k: nat)
    requires RunLog(clock, inputs, log)
    requires forall i :: 0 <= i < |inputs| ==> inputs[i].intervalMicroSec == interval
    requires k < |log|
    ensures log[k].nextNotification == (k + 1) * interval
  {
    ScheduleIsRunningSum(clock, inputs, log, k);
    ScheduleOfFixedInterval(inputs[..k + 1], interval);
  }

  /** Every delivered record comes from a delivered pass, and records keep
      the order of their passes. */
  lemma {:induction false} DeliveredSource(log: seq<Pass>, i: nat) returns (k: nat)
    requires i < |Delivered(log)|
    ensures k < |log| && log[k].delivered && Delivered(log)[i] == log[k].args
    ensures |Delivered(log[..k])| == i
  {
    var init := log[..|log| - 1];
    if i < |Delivered(init)| {
      k := DeliveredSource(init, i);
      assert log[..k] == init[..k];
    } else {
      k := |log| - 1;
      assert log[..k] == init;
    }
  }

  /** A delivered tick was late by at least 0 and by less than the threshold
      read on its pass. */
  lemma DeliveredTicksAreOnTime(clock: seq<int>, inputs: seq<PassInput>, log: seq<Pass>, i: nat)
    requires RunLog(clock, inputs, log)
    requires i < |Delivered(log)|
    ensures exists k :: 0 <= k < |log| && Delivered(log)[i] == log[k].args
                        && 0 <= Delivered(log)[i].TimerLateBy < inputs[k].ignoreEventIfLateBy
  {
    var k := DeliveredSource(log, i);
    assert PassFollows(clock, inputs, log, k);
  }

  lemma {:induction false} DeliveredCountsBounded(log: seq<Pass>)
    requires forall k :: 0 <= k < |log| ==> log[k].args.TimerCount == k + 1
    ensures forall i :: 0 <= i < |Delivered(log)| ==> 1 <= Delivered(log)[i].TimerCount <= |log|
    ensures forall i, j :: 0 <= i < j < |Delivered(log)| ==>
      Delivered(log)[i].TimerCount < Delivered(log)[j].TimerCount
  {
    if log != [] {
      var init := log[..|log| - 1];
      DeliveredCountsBounded(init);
    }
  }

  /** Ticks are delivered in strictly increasing count order while the pass
      counter has not wrapped (at most int.MaxValue passes). */
  lemma DeliveredCountsIncrease(clock: seq<int>, inputs: seq<PassInput>, log: seq<Pass>)
    requires RunLog(clock, inputs, log)
    requires |log| <= INT32_MAX
    ensures forall i, j :: 0 <= i < j < |Delivered(log)| ==>
      Delivered(log)[i].TimerCount < Delivered(log)[j].TimerCount
  {
    forall k | 0 <= k < |log|
      ensures log[k].args.TimerCount == k + 1
    {
      assert PassFollows(clock, inputs, log, k);
    }
    DeliveredCountsBounded(log);
  }

  /** The pass counter is a C# `int`: in a run of more than int.MaxValue
      passes, the pass after int.MaxValue carries int.MinValue, so the counts
      stop increasing and the bound of `DeliveredCountsIncrease` is tight. */
  lemma CountWrapsAfterIntMax(clock: seq<int>, inputs: seq<PassInput>, log: seq<Pass>)
    requires RunLog(clock, inputs, log)
    requires |log| > INT32_MAX
    ensures log[INT32_MAX - 1].args.TimerCount == INT32_MAX
    ensures log[INT32_MAX].args.TimerCount == INT32_MIN
  {
    assert PassFollows(clock, inputs, log, INT32_MAX - 1);
    assert PassFollows(clock, inputs, log, INT32_MAX);
  }

  /** The execution time reported on a pass covers at least the lateness of
      the pass before it, so it is never negative on a stopwatch that starts
      at 0 and never runs backwards. */
  lemma ExecutionTimeCoversPreviousLateness(clock: seq<int>, inputs: seq<PassInput>, log: seq<Pass>, k: nat)
    requires RunLog(clock, inputs, log)
    requires NonDecreasing(clock)
    requires forall j :: 0 <= j < |clock| ==> clock[j] >= 0
    requires k < |log|
    ensures k == 0 ==> |clock| > 0 && log[k].args.CallbackFunctionExecutionTime == clock[0]
    ensures k > 0 ==> log[k].args.CallbackFunctionExecutionTime >= log[k - 1].args.TimerLateBy >= 0
    ensures log[k].args.CallbackFunctionExecutionTime >= 0
  {
    assert PassFollows(clock, inputs, log, k);
    if k > 0 {
      assert PassFollows(clock, inputs, log, k - 1);
      assert clock[log[k - 1].stopAt] <= clock[log[k].startAt];
    }
  }

  lemma {:induction false} DeliveredAllPasses(log: seq<Pass>)
    requires forall k :: 0 <= k < |log| ==> log[k].delivered
    ensures |Delivered(log)| == |log|
    ensures forall i :: 0 <= i < |log| ==> Delivered(log)[i] == log[i].args
  {
    if log != [] {
      DeliveredAllPasses(log[..|log| - 1]);
    }
  }

  /** With the default threshold (long.MaxValue), non-negative intervals and
      stopwatch readings below long.MaxValue, no tick is suppressed: the
      delivered records are exactly the passes, numbered 1, 2, 3, ... with
      no gaps while the counter has not wrapped. */
  lemma DefaultThresholdDeliversEveryPass(clock: seq<int>, inputs: seq<PassInput>, log: seq<Pass>)
    requires RunLog(clock, inputs, log)
    requires forall i :: 0 <= i < |inputs| ==>
      inputs[i].ignoreEventIfLateBy == LONG_MAX && inputs[i].intervalMicroSec >= 0
    requires forall j :: 0 <= j < |clock| ==> 0 <= clock[j] < LONG_MAX
    ensures |Delivered(log)| == |log|
    ensures forall i :: 0 <= i < |log| <= INT32_MAX ==> Delivered(log)[i].TimerCount == i + 1
  {
    forall k | 0 <= k < |log|
      ensures log[k].delivered
      ensures |log| <= INT32_MAX ==> log[k].args.TimerCount == k + 1
    {
      assert PassFollows(clock, inputs, log, k);
      ScheduleIsRunningSum(clock, inputs, log, k);
      ScheduleNonNegative(inputs[..k + 1]);
    }
    DeliveredAllPasses(log);
  }

  /** Non-negative intervals give a non-negative schedule. */
  lemma {:induction false} ScheduleNonNegative(inputs: seq<PassInput>)
    requires forall i :: 0 <= i < |inputs| ==> inputs[i].intervalMicroSec >= 0
    ensures Schedule(inputs) >= 0
  {
    if inputs != [] {
      ScheduleNonNegative(inputs[..|inputs| - 1]);
    }
  }
}

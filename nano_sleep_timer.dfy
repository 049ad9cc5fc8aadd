/** The Linux backend: a worker that alternately fires and sleeps with
    nanosleep. The interval is kept as the pending (seconds, nanoseconds)
    pair that the setter writes. */
module NanoSleep {
  import opened Numeric
  import opened Events

  /** Milliseconds subtracted from each sleep to wake up slightly early. */
  const SAFE_DELAY: int := 0
  const NANOS_PER_MILLI: int := 1_000_000
  const MAX_NANOS: int := 999_999_999

  datatype Timespec = Timespec(tv_sec: int, tv_nsec: int)

  /** The `Interval` setter's split of milliseconds into seconds and
      nanoseconds. */
  function IntervalTimespec(value: uint32): (ts: Timespec)
    ensures ts.tv_sec == value / 1000
    ensures 0 <= ts.tv_nsec <= 999_000_000 && ts.tv_nsec % NANOS_PER_MILLI == 0
  {
    Timespec(value / 1000, value % 1000 * NANOS_PER_MILLI)
  }

  /** The interval, in milliseconds, that a pending pair stands for. */
  function Milliseconds(ts: Timespec): (ms: int)
    ensures ts.tv_sec >= 0 && 0 <= ts.tv_nsec < 1_000_000_000 ==>
      && ms >= 0 && ms / 1000 == ts.tv_sec && ms % 1000 == ts.tv_nsec / NANOS_PER_MILLI
  {
    ts.tv_sec * 1000 + ts.tv_nsec / NANOS_PER_MILLI
  }

  /** The split is exact: the pair reads back as the value set. */
  lemma IntervalSplitRoundTrip(value: uint32)
    ensures Milliseconds(IntervalTimespec(value)) == value
  {
    var ms := value % 1000;
    assert ms * NANOS_PER_MILLI / NANOS_PER_MILLI == ms;
    assert value / 1000 * 1000 + ms == value;
  }

  /** What one pass of the worker does after sampling the run flag. */
  datatype TickAction =
    | Fire                          // restart the stopwatch and raise Elapsed
    | Sleep(request: Timespec)      // nanosleep for the time left
    | Idle                          // time left below SAFE_DELAY: loop again at once

  /** The fire-or-sleep decision for a stopwatch reading of `curTime` ms and
      an interval of `interval` ms. */
  function TickStep(curTime: int, interval: int): (a: TickAction)
    ensures a.Fire? <==> curTime >= interval
    ensures a.Sleep? <==> curTime < interval
    ensures a.Sleep? ==> a.request.tv_sec == 0 && a.request.tv_nsec > 0
    ensures a.Sleep? ==> a.request.tv_nsec == (interval - curTime) * NANOS_PER_MILLI
  {
    if curTime >= interval then Fire
    else
      var timeLeft := interval - curTime;
      if timeLeft >= SAFE_DELAY then Sleep(Timespec(0, (timeLeft - SAFE_DELAY) * NANOS_PER_MILLI))
      else Idle
  }

  /** A sleep request keeps its nanoseconds below one second exactly when
      less than 1000 ms are left: the whole wait goes into tv_nsec, with
      tv_sec always 0. */
  lemma SleepRequestWithinOneSecond(curTime: int, interval: int)
    requires curTime < interval
    ensures TickStep(curTime, interval).request.tv_nsec <= MAX_NANOS <==> interval - curTime < 1000
  {
  }

  /** What the worker observes on one pass of its loop: the run flag, the
      stopwatch in ms since its last restart, and the interval. */
  datatype Sample = Sample(isRunning: bool, elapsedMilliseconds: int, interval: int)

  /** The loop of `TickGenerator`. The run flag is sampled once before the
      loop and again at the top of every pass, but the pass that samples it
      clear still makes its fire-or-sleep decision before the loop ends. */
  method TickGenerator(initiallyRunning: bool, samples: seq<Sample>) returns (actions: seq<TickAction>)
    ensures |actions| <= |samples|
    ensures forall k :: 0 <= k < |actions| ==>
      actions[k] == TickStep(samples[k].elapsedMilliseconds, samples[k].interval)
    ensures |actions| > 0 ==> initiallyRunning
    ensures forall k :: 0 <= k < |actions| - 1 ==> samples[k].isRunning
    ensures |actions| < |samples| ==>
      if |actions| == 0 then !initiallyRunning else !samples[|actions| - 1].isRunning
    ensures forall j :: 0 <= j < |samples| && !samples[j].isRunning ==> |actions| <= j + 1
  {
    var bNotPendingStop := initiallyRunning;
    actions := [];
    while bNotPendingStop && |actions| < |samples|
      invariant |actions| <= |samples|
      invariant forall k :: 0 <= k < |actions| ==>
        actions[k] == TickStep(samples[k].elapsedMilliseconds, samples[k].interval)
      invariant |actions| > 0 ==> initiallyRunning
      invariant forall k :: 0 <= k < |actions| - 1 ==> samples[k].isRunning
      invariant bNotPendingStop == if |actions| == 0 then initiallyRunning else samples[|actions| - 1].isRunning
    {
      var k := |actions|;
      bNotPendingStop := samples[k].isRunning;
      var curTime := samples[k].elapsedMilliseconds;
      actions := actions + [TickStep(curTime, samples[k].interval)];
    }
  }

  class NanoSleepTimer {
    var isRunning: bool
    /** `_pendingNanosleepParams`, written by the `Interval` setter. */
    var pending: Timespec
    /** Worker threads started so far. */
    var workers: nat
    var elapsed: Handlers

    /** The pending pair is a whole number of milliseconds with its
        nanoseconds below one second. */
    ghost predicate Valid()
      reads this
    {
      && pending.tv_sec >= 0
      && 0 <= pending.tv_nsec <= 999_000_000
      && pending.tv_nsec % NANOS_PER_MILLI == 0
    }

    /** The `Interval` getter: the whole seconds of the pending pair and the
        milliseconds of its nanoseconds. */
    function Interval(): (ms: int)
      reads this
      ensures Valid() ==> ms >= 0 && ms / 1000 == pending.tv_sec
      ensures Valid() ==> ms % 1000 * NANOS_PER_MILLI == pending.tv_nsec
    {
      Milliseconds(pending)
    }

    predicate IsRunning()
      reads this
    {
      isRunning
    }

    /** The class has no constructor of its own: the pending pair starts
        zeroed, so a new timer has interval 0. */
    constructor ()
      ensures Valid()
      ensures !isRunning && pending == Timespec(0, 0) && Interval() == 0
      ensures workers == 0 && elapsed == []
    {
      isRunning := false;
      pending := Timespec(0, 0);
      workers := 0;
      elapsed := [];
    }

    /** The `Interval` setter: no validation, 0 included. */
    method SetInterval(value: uint32)
      requires Valid()
      modifies this
      ensures Valid()
      ensures pending == IntervalTimespec(value) && Interval() == value
      ensures isRunning == old(isRunning) && workers == old(workers) && elapsed == old(elapsed)
    {
      IntervalSplitRoundTrip(value);
      pending := Timespec(value / 1000, value % 1000 * NANOS_PER_MILLI);
    }

    /** No guard: every call sets the flag and starts one more worker. */
    method Start()
      requires Valid()
      modifies this
      ensures Valid()
      ensures isRunning && workers == old(workers) + 1
      ensures pending == old(pending) && elapsed == old(elapsed)
    {
      isRunning := true;
      workers := workers + 1;
    }

    /** Clears the flag; stopping a stopped timer does nothing. */
    method Stop()
      requires Valid()
      modifies this
      ensures Valid()
      ensures !isRunning
      ensures pending == old(pending) && workers == old(workers) && elapsed == old(elapsed)
    {
      if !isRunning {
        return;
      }
      isRunning := false;
    }

    /** `StopAndWait()` is `Stop`. */
    method StopAndWait()
      requires Valid()
      modifies this
      ensures Valid()
      ensures !isRunning
      ensures pending == old(pending) && workers == old(workers) && elapsed == old(elapsed)
    {
      Stop();
    }

    /** `Abort` is `Stop`. */
    method Abort()
      requires Valid()
      modifies this
      ensures Valid()
      ensures !isRunning
      ensures pending == old(pending) && workers == old(workers) && elapsed == old(elapsed)
    {
      Stop();
    }

    /** `StopAndWait(timeoutInMilliSec)`: the timeout is ignored; always true. */
    method StopAndWaitFor(timeoutInMilliSec: int32) returns (r: bool)
      requires Valid()
      modifies this
      ensures Valid()
      ensures r && !isRunning
      ensures pending == old(pending) && workers == old(workers) && elapsed == old(elapsed)
    {
      Stop();
      r := true;
    }

    /** Stops a running timer and drops all subscribers. There is no
        disposed state: the timer can be used again afterwards. */
    method Dispose()
      requires Valid()
      modifies this
      ensures Valid()
      ensures !isRunning && elapsed == []
      ensures pending == old(pending) && workers == old(workers)
    {
      if isRunning {
        StopAndWait();
      }
      elapsed := [];
    }
  }
}

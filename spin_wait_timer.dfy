/** The spin-wait timer object: its interval (stored in microseconds), its
    late threshold, its stop flag, its worker thread and its lifecycle. The
    worker's loop itself is `SpinWaitEngine.NotificationTimer`, which reads
    the fields below once per pass. */
module SpinWait {
  import opened Numeric
  import opened Errors
  import opened Events
  import E = SpinWaitEngine

  const OBJECT_NAME := "SpinWaitTimer"
  /** Timeout.Infinite. */
  const INFINITE: int := -1
  /** The largest interval, in ms, whose microsecond value fits a `uint`. */
  const MAX_EXACT_INTERVAL: int := 4_294_967

  /** The interval setter's `value * 1000`: a product of two `uint`s, so it
      wraps modulo 2^32 before it is widened to `long`. */
  function MicroSecondsOf(value: uint32): (r: uint32)
    ensures value <= MAX_EXACT_INTERVAL ==> r == value * 1000
    ensures (r - value * 1000) % UINT32_MODULUS == 0
  {
    WrapUInt32(value * 1000)
  }

  /** The interval getter: the stored microseconds cast to `uint`, then
      divided by 1000. */
  function IntervalOf(microSec: int): (r: uint32)
    ensures 0 <= microSec < UINT32_MODULUS ==> r == microSec / 1000
    ensures r <= MAX_EXACT_INTERVAL
  {
    WrapUInt32(microSec) / 1000
  }

  /** Reading the interval back returns the value set exactly when its
      microsecond value fits 32 bits, i.e. up to 4,294,967 ms; any larger
      value reads back as something smaller. */
  lemma IntervalRoundTrip(value: uint32)
    requires value >= 1
    ensures IntervalOf(MicroSecondsOf(value)) == value <==> value <= MAX_EXACT_INTERVAL
    ensures IntervalOf(MicroSecondsOf(value)) <= MAX_EXACT_INTERVAL
  {
    if value <= MAX_EXACT_INTERVAL {
      assert value * 1000 < UINT32_MODULUS;
      assert MicroSecondsOf(value) == value * 1000;
    }
  }

  /** The guard rejects only 0, yet a nonzero interval can wrap to a stored
      interval of 0 microseconds. */
  lemma NonzeroIntervalCanStoreZero()
    ensures MicroSecondsOf(536_870_912) == 0
  {
  }

  /** The late-threshold setter maps every non-positive value to the
      "never suppress" sentinel long.MaxValue and keeps positive values. */
  function LateThreshold(value: int64): (r: int64)
    ensures r >= 1
    ensures value > 0 ==> r == value
    ensures value <= 0 ==> r == LONG_MAX
  {
    if value <= 0 then LONG_MAX else value
  }

  /** A run in which every pass read the threshold stored for a non-positive
      setting, with non-negative intervals and readings below long.MaxValue,
      suppresses no tick: every pass is delivered, in order. */
  lemma NonPositiveThresholdNeverSuppresses(value: int64, clock: seq<int>, inputs: seq<E.PassInput>, log: seq<E.Pass>)
    requires value <= 0
    requires E.RunLog(clock, inputs, log)
    requires forall i :: 0 <= i < |inputs| ==>
      inputs[i].ignoreEventIfLateBy == LateThreshold(value) && inputs[i].intervalMicroSec >= 0
    requires forall j :: 0 <= j < |clock| ==> 0 <= clock[j] < LONG_MAX
    ensures forall k :: 0 <= k < |log| ==> log[k].delivered
    ensures E.Delivered(log) == seq(|log|, k requires 0 <= k < |log| => log[k].args)
  {
    forall k | 0 <= k < |log|
      ensures log[k].delivered
    {
      assert E.PassFollows(clock, inputs, log, k);
      E.ScheduleIsRunningSum(clock, inputs, log, k);
      E.ScheduleNonNegative(inputs[..k + 1]);
    }
    E.DeliveredAllPasses(log);
  }

  class SpinWaitTimer {
    var disposed: bool
    var ignoreEventIfLateBy: int64
    var stopTimer: bool
    /** `_threadTimer != null && _threadTimer.IsAlive`. */
    var threadAlive: bool
    var timerIntervalInMicroSec: int64
    /** Subscribers of the `Elapsed` event. */
    var elapsed: Handlers

    /** A clear stop flag means a worker is alive; a disposed timer has its
        stop flag set, so its worker ends at its next pass. */
    ghost predicate Valid()
      reads this
    {
      && 0 <= timerIntervalInMicroSec < UINT32_MODULUS
      && ignoreEventIfLateBy >= 1
      && (!stopTimer ==> threadAlive)
      && (disposed ==> stopTimer)
    }

    /** The `Interval` getter: never above 4,294,967 ms. */
    function Interval(): (r: uint32)
      reads this
      ensures r <= MAX_EXACT_INTERVAL
    {
      IntervalOf(timerIntervalInMicroSec)
    }

    /** A timer that does not report running has its stop flag set. */
    predicate IsRunning()
      reads this
      ensures Valid() && !IsRunning() ==> stopTimer
    {
      threadAlive
    }

    constructor ()
      ensures Valid()
      ensures !disposed && !threadAlive && stopTimer && elapsed == []
      ensures ignoreEventIfLateBy == LONG_MAX
      ensures timerIntervalInMicroSec == 1000 && Interval() == 1
    {
      disposed := false;
      ignoreEventIfLateBy := LONG_MAX;
      stopTimer := true;
      threadAlive := false;
      timerIntervalInMicroSec := 0;
      elapsed := [];
      new;
      var _ := SetInterval(1);
    }

    /** The `Interval` setter. */
    method SetInterval(value: uint32) returns (r: Outcome)
      requires Valid()
      modifies this
      ensures Valid()
      ensures old(disposed) ==> r == Fail(Disposed(OBJECT_NAME))
      ensures !old(disposed) && value == 0 ==> r == Fail(IntervalOutOfRange())
      ensures r.Pass? <==> !old(disposed) && value != 0
      ensures timerIntervalInMicroSec == if r.Pass? then MicroSecondsOf(value) else old(timerIntervalInMicroSec)
      ensures disposed == old(disposed) && ignoreEventIfLateBy == old(ignoreEventIfLateBy)
      ensures stopTimer == old(stopTimer) && threadAlive == old(threadAlive) && elapsed == old(elapsed)
    {
      if disposed {
        return Fail(Disposed(OBJECT_NAME));
      }
      if value == 0 {
        return Fail(IntervalOutOfRange());
      }
      timerIntervalInMicroSec := MicroSecondsOf(value);
      r := Pass;
    }

    /** The `IgnoreEventIfLateBy` setter; it does not check for disposal. */
    method SetIgnoreEventIfLateBy(value: int64)
      requires Valid()
      modifies this
      ensures Valid()
      ensures ignoreEventIfLateBy == LateThreshold(value)
      ensures disposed == old(disposed) && timerIntervalInMicroSec == old(timerIntervalInMicroSec)
      ensures stopTimer == old(stopTimer) && threadAlive == old(threadAlive) && elapsed == old(elapsed)
    {
      ignoreEventIfLateBy := LateThreshold(value);
    }

    /** Starts a worker unless one is alive; starting a running timer does nothing. */
    method Start() returns (r: Outcome)
      requires Valid()
      modifies this
      ensures Valid()
      ensures r == if old(disposed) then Fail(Disposed(OBJECT_NAME)) else Pass
      ensures old(disposed) || old(threadAlive) ==>
        stopTimer == old(stopTimer) && threadAlive == old(threadAlive)
      ensures !old(disposed) && !old(threadAlive) ==> !stopTimer && threadAlive
      ensures disposed == old(disposed) && timerIntervalInMicroSec == old(timerIntervalInMicroSec)
      ensures ignoreEventIfLateBy == old(ignoreEventIfLateBy) && elapsed == old(elapsed)
    {
      if disposed {
        return Fail(Disposed(OBJECT_NAME));
      }
      if threadAlive {
        return Pass;
      }
      stopTimer := false;
      threadAlive := true;
      r := Pass;
    }

    /** Requests the worker to stop; does not wait for it. */
    method Stop() returns (r: Outcome)
      requires Valid()
      modifies this
      ensures Valid()
      ensures r == if old(disposed) then Fail(Disposed(OBJECT_NAME)) else Pass
      ensures stopTimer == (old(disposed) ==> old(stopTimer))
      ensures threadAlive == old(threadAlive) && disposed == old(disposed)
      ensures timerIntervalInMicroSec == old(timerIntervalInMicroSec)
      ensures ignoreEventIfLateBy == old(ignoreEventIfLateBy) && elapsed == old(elapsed)
    {
      if disposed {
        return Fail(Disposed(OBJECT_NAME));
      }
      stopTimer := true;
      r := Pass;
    }

    /** `StopAndWait(timeoutInMilliSec)`. Whether the worker ends within the
        timeout is the environment's choice (`workerExitsInTime`); with an
        infinite timeout the join returns once it has ended. */
    method StopAndWaitFor(timeoutInMilliSec: int32, onTimerThread: bool, workerExitsInTime: bool)
      returns (r: Result<bool>)
      requires Valid()
      modifies this
      ensures Valid()
      ensures old(disposed) ==> r == Err(Disposed(OBJECT_NAME)) && stopTimer == old(stopTimer)
      ensures !old(disposed) ==> stopTimer
      ensures !old(disposed) && (!old(threadAlive) || onTimerThread) ==> r == Ok(true)
      ensures !old(disposed) && old(threadAlive) && !onTimerThread ==>
        if timeoutInMilliSec < 0 && timeoutInMilliSec != INFINITE
        then r.Err? && r.error.ArgumentOutOfRange?
        else r == Ok(timeoutInMilliSec == INFINITE || workerExitsInTime)
      ensures threadAlive == (old(threadAlive) && !(r == Ok(true) && old(threadAlive) && !onTimerThread))
      ensures disposed == old(disposed) && timerIntervalInMicroSec == old(timerIntervalInMicroSec)
      ensures ignoreEventIfLateBy == old(ignoreEventIfLateBy) && elapsed == old(elapsed)
    {
      if disposed {
        return Err(Disposed(OBJECT_NAME));
      }
      stopTimer := true;
      if !threadAlive || onTimerThread {
        return Ok(true);
      }
      if timeoutInMilliSec < 0 && timeoutInMilliSec != INFINITE {
        return Err(ArgumentOutOfRange("millisecondsTimeout", "Number must be either non-negative or -1"));
      }
      var joined := timeoutInMilliSec == INFINITE || workerExitsInTime;
      if joined {
        threadAlive := false;
      }
      r := Ok(joined);
    }

    /** `StopAndWait()`: stops and waits without a timeout. */
    method StopAndWait(onTimerThread: bool) returns (r: Outcome)
      requires Valid()
      modifies this
      ensures Valid()
      ensures r == if old(disposed) then Fail(Disposed(OBJECT_NAME)) else Pass
      ensures !old(disposed) ==> stopTimer && threadAlive == (old(threadAlive) && onTimerThread)
      ensures old(disposed) ==> stopTimer == old(stopTimer) && threadAlive == old(threadAlive)
      ensures disposed == old(disposed) && timerIntervalInMicroSec == old(timerIntervalInMicroSec)
      ensures ignoreEventIfLateBy == old(ignoreEventIfLateBy) && elapsed == old(elapsed)
    {
      if disposed {
        return Fail(Disposed(OBJECT_NAME));
      }
      var _ := StopAndWaitFor(INFINITE, onTimerThread, true);
      r := Pass;
    }

    /** One check of the worker loop's condition: a worker that finds the
        stop flag set leaves its loop and its thread ends. */
    method WorkerChecksStopFlag()
      requires Valid()
      modifies this
      ensures Valid()
      ensures threadAlive == (old(threadAlive) && !stopTimer)
      ensures stopTimer == old(stopTimer) && disposed == old(disposed)
      ensures timerIntervalInMicroSec == old(timerIntervalInMicroSec)
      ensures ignoreEventIfLateBy == old(ignoreEventIfLateBy) && elapsed == old(elapsed)
    {
      if stopTimer {
        threadAlive := false;
      }
    }

    /** Idempotent: stops and waits for a running worker, marks the timer
        disposed and drops all subscribers. */
    method Dispose(onTimerThread: bool)
      requires Valid()
      modifies this
      ensures Valid()
      ensures old(disposed) ==>
        && stopTimer == old(stopTimer) && threadAlive == old(threadAlive) && elapsed == old(elapsed)
      ensures !old(disposed) ==>
        && stopTimer && elapsed == []
        && threadAlive == (old(threadAlive) && onTimerThread)
      ensures disposed
      ensures timerIntervalInMicroSec == old(timerIntervalInMicroSec)
      ensures ignoreEventIfLateBy == old(ignoreEventIfLateBy)
    {
      if disposed {
        return;
      }
      if threadAlive {
        var _ := StopAndWait(onTimerThread);
      }
      disposed := true;
      elapsed := [];
    }
  }

  /** A disposed timer stays disposed: starting it afterwards fails, and it
      keeps its stop flag set. */
  method DisposedIsTerminal() returns (timer: SpinWaitTimer, r: Outcome)
    ensures fresh(timer) && timer.Valid() && timer.disposed && timer.stopTimer
    ensures r == Fail(Disposed(OBJECT_NAME))
  {
    timer := new SpinWaitTimer();
    var _ := timer.Start();
    timer.Dispose(false);
    r := timer.Start();
  }
}

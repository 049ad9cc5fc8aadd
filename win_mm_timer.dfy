/** The Windows multimedia-timer backend. The timer is running while it
    holds a nonzero event id from `timeSetEvent`, which is supplied by the
    caller; every native call is logged. */
module WinMm {
  import opened Numeric
  import opened Errors
  import opened Events
  import opened Native

  const OBJECT_NAME := "WinMmTimer"

  /** The native calls of one start attempt: the period is begun, the event
      is set with the interval and resolution, and if no event id came back
      the period is ended again. */
  function StartCalls(interval: int, resolution: int, timerId: int): (calls: seq<NativeCall>)
    ensures PeriodBalance(calls) == if timerId != 0 then 1 else 0
  {
    var first := [TimeBeginPeriod(1), TimeSetEvent(interval, resolution)];
    PeriodBalanceTwo(first[0], first[1]);
    if timerId != 0 then first
    else
      var undo := [TimeEndPeriod(1)];
      PeriodBalanceOne(undo[0]);
      PeriodBalanceAppend(first, undo);
      first + undo
  }

  /** The native calls of `StopInternal`: kill the event, end the period. */
  function StopCalls(timerId: int): (calls: seq<NativeCall>)
    ensures PeriodBalance(calls) == -1
  {
    PeriodBalanceTwo(TimeKillEvent(timerId), TimeEndPeriod(1));
    [TimeKillEvent(timerId), TimeEndPeriod(1)]
  }

  class WinMmTimer {
    var disposed: bool
    var interval: uint32
    /** 0 means the highest resolution the system offers. */
    var resolution: uint32
    /** Event id from timeSetEvent; 0 when not running. */
    var timerId: uint32
    var elapsed: Handlers
    var calls: seq<NativeCall>

    /** The interval is positive and exactly one period is open while the
        timer runs, none while it does not. */
    ghost predicate Valid()
      reads this
    {
      && interval >= 1
      && PeriodBalance(calls) == if timerId != 0 then 1 else 0
    }

    /** Running is exactly having one period open. */
    predicate IsRunning()
      reads this
      ensures Valid() ==> (IsRunning() <==> PeriodBalance(calls) == 1)
    {
      timerId != 0
    }

    constructor ()
      ensures Valid()
      ensures !disposed && resolution == 0 && interval == 1 && timerId == 0
      ensures elapsed == [] && calls == []
    {
      disposed := false;
      interval := 1;
      resolution := 0;
      timerId := 0;
      elapsed := [];
      calls := [];
      new;
      var _ := SetResolution(0);
      var _ := SetInterval(1);
    }

    /** The `Interval` setter: stores a positive value and lowers the
        resolution to it when the resolution is coarser. */
    method SetInterval(value: uint32) returns (r: Outcome)
      requires Valid()
      modifies this
      ensures Valid()
      ensures old(disposed) ==> r == Fail(Disposed(OBJECT_NAME))
      ensures !old(disposed) && value == 0 ==> r == Fail(IntervalOutOfRange())
      ensures r.Pass? <==> !old(disposed) && value != 0
      ensures r.Fail? ==> interval == old(interval) && resolution == old(resolution)
      ensures r.Pass? ==> interval == value && resolution <= interval
      ensures r.Pass? ==> resolution == if old(resolution) > value then value else old(resolution)
      ensures disposed == old(disposed) && timerId == old(timerId)
      ensures elapsed == old(elapsed) && calls == old(calls)
    {
      if disposed {
        return Fail(Disposed(OBJECT_NAME));
      }
      if value == 0 {
        return Fail(IntervalOutOfRange());
      }
      interval := value;
      if resolution > interval {
        var _ := SetResolution(value);
      }
      r := Pass;
    }

    /** The `Resolution` setter: any value, no clamp. */
    method SetResolution(value: uint32) returns (r: Outcome)
      requires Valid()
      modifies this
      ensures Valid()
      ensures r == if old(disposed) then Fail(Disposed(OBJECT_NAME)) else Pass
      ensures resolution == if r.Pass? then value else old(resolution)
      ensures disposed == old(disposed) && interval == old(interval) && timerId == old(timerId)
      ensures elapsed == old(elapsed) && calls == old(calls)
    {
      if disposed {
        return Fail(Disposed(OBJECT_NAME));
      }
      resolution := value;
      r := Pass;
    }

    /** Sets a periodic event; `newTimerId` and `lastError` are what
        timeSetEvent and GetLastWin32Error return. */
    method Start(newTimerId: uint32, lastError: int) returns (r: Outcome)
      requires Valid()
      modifies this
      ensures Valid()
      ensures old(disposed) ==> r == Fail(Disposed(OBJECT_NAME))
      ensures !old(disposed) && old(timerId) != 0 ==> r == Fail(InvalidOperation(ALREADY_RUNNING))
      ensures old(disposed) || old(timerId) != 0 ==> timerId == old(timerId) && calls == old(calls)
      ensures !old(disposed) && old(timerId) == 0 ==>
        && calls == old(calls) + StartCalls(old(interval), old(resolution), newTimerId)
        && timerId == newTimerId
        && r == (if newTimerId != 0 then Pass else Fail(Win32(lastError)))
      ensures disposed == old(disposed) && interval == old(interval) && resolution == old(resolution)
      ensures elapsed == old(elapsed)
    {
      if disposed {
        return Fail(Disposed(OBJECT_NAME));
      }
      if timerId != 0 {
        return Fail(InvalidOperation(ALREADY_RUNNING));
      }
      // TimeBeginPeriod, TimeSetEvent and, when no id came back, TimeEndPeriod
      var attempt := StartCalls(interval, resolution, newTimerId);
      PeriodBalanceAppend(calls, attempt);
      calls := calls + attempt;
      timerId := newTimerId;
      if timerId != 0 {
        return Pass;
      }
      r := Fail(Win32(lastError));
    }

    /** Kills the event, ends the period and forgets the id. */
    method StopInternal()
      requires Valid()
      requires timerId != 0
      modifies this
      ensures Valid()
      ensures calls == old(calls) + StopCalls(old(timerId))
      ensures timerId == 0
      ensures disposed == old(disposed) && interval == old(interval) && resolution == old(resolution)
      ensures elapsed == old(elapsed)
    {
      PeriodBalanceAppend(calls, StopCalls(timerId));
      calls := calls + StopCalls(timerId);
      timerId := 0;
    }

    /** The effect `Stop` has, with outcome `r`: a disposed or stopped timer
        is rejected unchanged; a running one is stopped. */
    twostate predicate StopEffect(r: Outcome)
      reads this
    {
      && disposed == old(disposed) && interval == old(interval) && resolution == old(resolution)
      && elapsed == old(elapsed)
      && (old(disposed) ==> r == Fail(Disposed(OBJECT_NAME)))
      && (!old(disposed) && old(timerId) == 0 ==> r == Fail(InvalidOperation(NOT_STARTED)))
      && (old(disposed) || old(timerId) == 0 ==> timerId == old(timerId) && calls == old(calls))
      && (!old(disposed) && old(timerId) != 0 ==>
            r == Pass && timerId == 0 && calls == old(calls) + StopCalls(old(timerId)))
    }

    method Stop() returns (r: Outcome)
      requires Valid()
      modifies this
      ensures Valid() && StopEffect(r)
    {
      if disposed {
        return Fail(Disposed(OBJECT_NAME));
      }
      if timerId == 0 {
        return Fail(InvalidOperation(NOT_STARTED));
      }
      StopInternal();
      r := Pass;
    }

    /** `StopAndWait()` is `Stop`. */
    method StopAndWait() returns (r: Outcome)
      requires Valid()
      modifies this
      ensures Valid() && StopEffect(r)
    {
      r := Stop();
    }

    /** `Abort` is `Stop`. */
    method Abort() returns (r: Outcome)
      requires Valid()
      modifies this
      ensures Valid() && StopEffect(r)
    {
      r := Stop();
    }

    /** `StopAndWait(timeoutInMilliSec)`: the timeout is ignored; true
        whenever `Stop` returns normally. */
    method StopAndWaitFor(timeoutInMilliSec: int32) returns (r: Result<bool>)
      requires Valid()
      modifies this
      ensures Valid()
      ensures StopEffect(if r.Ok? then Pass else Fail(r.error))
      ensures r.Ok? ==> r.value
    {
      var stopped := Stop();
      if stopped.Fail? {
        return Err(stopped.error);
      }
      r := Ok(true);
    }

    /** Idempotent. Marks the timer disposed first, stops a running timer,
        then drops all subscribers. */
    method Dispose()
      requires Valid()
      modifies this
      ensures Valid()
      ensures disposed
      ensures old(disposed) ==> timerId == old(timerId) && calls == old(calls) && elapsed == old(elapsed)
      ensures !old(disposed) ==> timerId == 0 && elapsed == []
      ensures !old(disposed) && old(timerId) != 0 ==> calls == old(calls) + StopCalls(old(timerId))
      ensures !old(disposed) && old(timerId) == 0 ==> calls == old(calls)
      ensures interval == old(interval) && resolution == old(resolution)
    {
      if disposed {
        return;
      }
      disposed := true;
      if timerId != 0 {
        StopInternal();
      }
      elapsed := [];
    }
  }
}

/** The Windows timer-queue backend. The timer is running while it holds a
    native handle; `CreateTimerQueueTimer` and `DeleteTimerQueueTimer`
    results are supplied by the caller, and every native call is logged. */
module TimerQueue {
  import opened Numeric
  import opened Errors
  import opened Events
  import opened Native

  const OBJECT_NAME := "TimerQueueTimer"

  /** What the one or two `DeleteTimerQueueTimer` calls of a stop return:
      success, or failure with the thread's last Win32 error. */
  datatype DeleteResults = DeleteResults(firstOk: bool, firstError: int, retryOk: bool, retryError: int)

  /** A first delete that fails with anything but ERROR_IO_PENDING is retried once. */
  predicate Retries(native: DeleteResults)
    ensures Retries(native) ==> !native.firstOk
  {
    !native.firstOk && native.firstError != ERROR_IO_PENDING
  }

  /** The handle is released unless both the first delete and its retry fail. */
  predicate Deleted(native: DeleteResults)
    ensures Deleted(native) <==> native.firstOk || native.firstError == ERROR_IO_PENDING || native.retryOk
  {
    !Retries(native) || native.retryOk
  }

  /** The native calls of one stop attempt on handle `timer`. */
  function StopCalls(timer: int, native: DeleteResults): (calls: seq<NativeCall>)
    ensures PeriodBalance(calls) == -1
    ensures |calls| == if Retries(native) then 3 else 2
  {
    var first := [TimeEndPeriod(1), DeleteTimerQueueTimer(timer, NULL)];
    PeriodBalanceTwo(first[0], first[1]);
    if Retries(native) then
      var retry := [DeleteTimerQueueTimer(timer, INVALID_HANDLE_VALUE)];
      PeriodBalanceOne(retry[0]);
      PeriodBalanceAppend(first, retry);
      first + retry
    else first
  }

  /** The native calls of one start attempt with the given interval: the
      period is begun, the timer is created with due time and period equal
      to the interval, and on failure the period is ended again. */
  function StartCalls(interval: int, created: bool): (calls: seq<NativeCall>)
    ensures PeriodBalance(calls) == if created then 1 else 0
  {
    var first := [TimeBeginPeriod(1), CreateTimerQueueTimer(interval, interval)];
    PeriodBalanceTwo(first[0], first[1]);
    if created then first
    else
      var undo := [TimeEndPeriod(1)];
      PeriodBalanceOne(undo[0]);
      PeriodBalanceAppend(first, undo);
      first + undo
  }

  class TimerQueueTimer {
    var disposed: bool
    var interval: uint32
    /** Native handle; `IntPtr.Zero` (0) when not running. */
    var timer: int
    var elapsed: Handlers
    /** Native calls made so far, in order. */
    var calls: seq<NativeCall>
    /** Number of stops whose delete and retry both failed. */
    ghost var failedDeletes: nat

    /** The interval is positive, and TimeBeginPeriod/TimeEndPeriod calls
        balance to "running" less one for every stop whose deletes failed:
        such a stop has already ended the period but keeps the handle. */
    ghost predicate Valid()
      reads this
    {
      && interval >= 1
      && PeriodBalance(calls) == (if timer != NULL then 1 else 0) - failedDeletes
    }

    /** Running is holding a handle; until a stop's deletes both fail,
        it is exactly having one period open. */
    predicate IsRunning()
      reads this
      ensures Valid() && failedDeletes == 0 ==> (IsRunning() <==> PeriodBalance(calls) == 1)
    {
      timer != NULL
    }

    constructor ()
      ensures Valid()
      ensures !disposed && interval == 1 && timer == NULL && elapsed == [] && calls == []
    {
      disposed := false;
      interval := 1;
      timer := NULL;
      elapsed := [];
      calls := [];
      failedDeletes := 0;
    }

    /** The `Interval` setter. */
    method SetInterval(value: uint32) returns (r: Outcome)
      requires Valid()
      modifies this
      ensures Valid()
      ensures old(disposed) ==> r == Fail(Disposed(OBJECT_NAME))
      ensures !old(disposed) && value == 0 ==> r == Fail(IntervalOutOfRange())
      ensures r.Pass? <==> !old(disposed) && value != 0
      ensures interval == if r.Pass? then value else old(interval)
      ensures disposed == old(disposed) && timer == old(timer)
      ensures elapsed == old(elapsed) && calls == old(calls)
    {
      if disposed {
        return Fail(Disposed(OBJECT_NAME));
      }
      if value == 0 {
        return Fail(IntervalOutOfRange());
      }
      interval := value;
      r := Pass;
    }

    /** Registers a native timer with due time and period both equal to the
        interval. `created`, `newTimer` and `lastError` are what
        CreateTimerQueueTimer and GetLastWin32Error return. */
    method Start(created: bool, newTimer: int, lastError: int) returns (r: Outcome)
      requires Valid()
      requires created ==> newTimer != NULL
      modifies this
      ensures Valid()
      ensures old(disposed) ==> r == Fail(Disposed(OBJECT_NAME))
      ensures !old(disposed) && old(timer) != NULL ==> r == Fail(InvalidOperation(ALREADY_RUNNING))
      ensures old(disposed) || old(timer) != NULL ==> timer == old(timer) && calls == old(calls)
      ensures !old(disposed) && old(timer) == NULL ==>
        && calls == old(calls) + StartCalls(old(interval), created)
        && r == (if created then Pass else Fail(Win32(lastError)))
        && timer == (if created then newTimer else NULL)
      ensures disposed == old(disposed) && interval == old(interval) && elapsed == old(elapsed)
    {
      if disposed {
        return Fail(Disposed(OBJECT_NAME));
      }
      if timer != NULL {
        return Fail(InvalidOperation(ALREADY_RUNNING));
      }
      // TimeBeginPeriod, CreateTimerQueueTimer and, on failure, TimeEndPeriod
      var attempt := StartCalls(interval, created);
      PeriodBalanceAppend(calls, attempt);
      calls := calls + attempt;
      if created {
        timer := newTimer;
        return Pass;
      }
      r := Fail(Win32(lastError));
    }

    /** Ends the period, then deletes the native timer: a failure other than
        ERROR_IO_PENDING is retried once with INVALID_HANDLE_VALUE, waiting
        for running callbacks; if the retry fails too the handle is kept. */
    method StopInternal(native: DeleteResults) returns (r: Outcome)
      requires Valid()
      requires timer != NULL
      modifies this
      ensures Valid()
      ensures calls == old(calls) + StopCalls(old(timer), native)
      ensures r == if Deleted(native) then Pass else Fail(Win32(native.retryError))
      ensures timer == if Deleted(native) then NULL else old(timer)
      ensures disposed == old(disposed) && interval == old(interval) && elapsed == old(elapsed)
    {
      var attempt := StopCalls(timer, native);
      PeriodBalanceAppend(calls, attempt);
      calls := calls + attempt;
      if !native.firstOk {
        var lastError := native.firstError;
        if lastError != ERROR_IO_PENDING {
          if !native.retryOk {
            lastError := native.retryError;
            failedDeletes := failedDeletes + 1;
            return Fail(Win32(lastError));
          }
        }
      }
      timer := NULL;
      r := Pass;
    }

    /** The effect `Stop` has, with outcome `r`: a disposed or stopped timer
        is rejected unchanged; a running one goes through `StopInternal`. */
    twostate predicate StopEffect(native: DeleteResults, r: Outcome)
      reads this
    {
      && disposed == old(disposed) && interval == old(interval) && elapsed == old(elapsed)
      && (old(disposed) ==> r == Fail(Disposed(OBJECT_NAME)))
      && (!old(disposed) && old(timer) == NULL ==> r == Fail(InvalidOperation(NOT_STARTED)))
      && (old(disposed) || old(timer) == NULL ==> timer == old(timer) && calls == old(calls))
      && (!old(disposed) && old(timer) != NULL ==>
            && calls == old(calls) + StopCalls(old(timer), native)
            && r == (if Deleted(native) then Pass else Fail(Win32(native.retryError)))
            && timer == (if Deleted(native) then NULL else old(timer)))
    }

    /** Stops a running timer; a timer that is not running is an error. */
    method Stop(native: DeleteResults) returns (r: Outcome)
      requires Valid()
      modifies this
      ensures Valid() && StopEffect(native, r)
    {
      if disposed {
        return Fail(Disposed(OBJECT_NAME));
      }
      if timer == NULL {
        return Fail(InvalidOperation(NOT_STARTED));
      }
      r := StopInternal(native);
    }

    /** `StopAndWait()` is `Stop`. */
    method StopAndWait(native: DeleteResults) returns (r: Outcome)
      requires Valid()
      modifies this
      ensures Valid() && StopEffect(native, r)
    {
      r := Stop(native);
    }

    /** `Abort` is `Stop`. */
    method Abort(native: DeleteResults) returns (r: Outcome)
      requires Valid()
      modifies this
      ensures Valid() && StopEffect(native, r)
    {
      r := Stop(native);
    }

    /** `StopAndWait(timeoutInMilliSec)`: the timeout is ignored; true
        whenever `Stop` returns normally. */
    method StopAndWaitFor(timeoutInMilliSec: int32, native: DeleteResults) returns (r: Result<bool>)
      requires Valid()
      modifies this
      ensures Valid()
      ensures StopEffect(native, if r.Ok? then Pass else Fail(r.error))
      ensures r.Ok? ==> r.value
    {
      var stopped := Stop(native);
      if stopped.Fail? {
        return Err(stopped.error);
      }
      r := Ok(true);
    }

    /** Idempotent. Marks the timer disposed first, stops a running timer,
        then drops all subscribers; if the stop fails its exception escapes
        and the subscribers stay, but the timer is disposed all the same. */
    method Dispose(native: DeleteResults) returns (r: Outcome)
      requires Valid()
      modifies this
      ensures Valid()
      ensures disposed
      ensures old(disposed) ==> r == Pass && timer == old(timer) && calls == old(calls) && elapsed == old(elapsed)
      ensures !old(disposed) && old(timer) == NULL ==> r == Pass && calls == old(calls) && elapsed == [] && timer == NULL
      ensures !old(disposed) && old(timer) != NULL ==>
        && calls == old(calls) + StopCalls(old(timer), native)
        && timer == (if Deleted(native) then NULL else old(timer))
        && (if Deleted(native) then r == Pass && elapsed == []
            else r == Fail(Win32(native.retryError)) && elapsed == old(elapsed))
      ensures interval == old(interval)
    {
      if disposed {
        return Pass;
      }
      disposed := true;
      if timer != NULL {
        r := StopInternal(native);
        if r.Fail? {
          return r;
        }
      }
      elapsed := [];
      r := Pass;
    }
  }

  /** After a stop whose delete and retry both fail, the timer still reports
      running and a second stop is accepted. */
  method FailedDeleteKeepsRunning(created: int)
    returns (timer: TimerQueueTimer, first: Outcome, stillRunning: bool, second: Outcome)
    requires created != NULL
    ensures fresh(timer) && timer.Valid()
    ensures first == Fail(Win32(5)) && stillRunning
    ensures second == Pass && !timer.IsRunning()
  {
    timer := new TimerQueueTimer();
    var _ := timer.Start(true, created, 0);
    first := timer.Stop(DeleteResults(false, 5, false, 5));
    stillRunning := timer.IsRunning();
    second := timer.Stop(DeleteResults(true, 0, true, 0));
  }
}

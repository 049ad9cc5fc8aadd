/** The tick-to-wait bridge: it subscribes to a timer's `Elapsed` event and
    turns each tick into a single-slot, auto-reset signal that a consumer
    waits on. */
module TimerEvents {
  import opened Numeric
  import opened Errors
  import opened Events
  import SpinWait
  import TimerQueue
  import WinMm
  import NanoSleep

  /** Any of the four timers, standing for the `ITimer` interface. */
  datatype AnyTimer =
    | SpinWaitTimer(spinWait: SpinWait.SpinWaitTimer)
    | TimerQueueTimer(timerQueue: TimerQueue.TimerQueueTimer)
    | WinMmTimer(winMm: WinMm.WinMmTimer)
    | NanoSleepTimer(nanoSleep: NanoSleep.NanoSleepTimer)
  {
    function Object(): object {
      match this
      case SpinWaitTimer(t) => t
      case TimerQueueTimer(t) => t
      case WinMmTimer(t) => t
      case NanoSleepTimer(t) => t
    }

    predicate IsRunning()
      reads Object()
    {
      match this
      case SpinWaitTimer(t) => t.IsRunning()
      case TimerQueueTimer(t) => t.IsRunning()
      case WinMmTimer(t) => t.IsRunning()
      case NanoSleepTimer(t) => t.IsRunning()
    }

    /** The invocation list of the timer's `Elapsed` event. */
    function Subscribers(): Handlers
      reads Object()
    {
      match this
      case SpinWaitTimer(t) => t.elapsed
      case TimerQueueTimer(t) => t.elapsed
      case WinMmTimer(t) => t.elapsed
      case NanoSleepTimer(t) => t.elapsed
    }

    /** The timer's own invariant. */
    ghost predicate Valid()
      reads Object()
    {
      match this
      case SpinWaitTimer(t) => t.Valid()
      case TimerQueueTimer(t) => t.Valid()
      case WinMmTimer(t) => t.Valid()
      case NanoSleepTimer(t) => t.Valid()
    }

    /** Everything about the timer except its subscriber list. */
    twostate predicate UnchangedButSubscribers()
      reads Object()
    {
      match this
      case SpinWaitTimer(t) =>
        && t.disposed == old(t.disposed) && t.stopTimer == old(t.stopTimer)
        && t.threadAlive == old(t.threadAlive)
        && t.timerIntervalInMicroSec == old(t.timerIntervalInMicroSec)
        && t.ignoreEventIfLateBy == old(t.ignoreEventIfLateBy)
      case TimerQueueTimer(t) =>
        && t.disposed == old(t.disposed) && t.interval == old(t.interval)
        && t.timer == old(t.timer) && t.calls == old(t.calls)
        && t.failedDeletes == old(t.failedDeletes)
      case WinMmTimer(t) =>
        && t.disposed == old(t.disposed) && t.interval == old(t.interval)
        && t.resolution == old(t.resolution) && t.timerId == old(t.timerId) && t.calls == old(t.calls)
      case NanoSleepTimer(t) =>
        && t.isRunning == old(t.isRunning) && t.pending == old(t.pending) && t.workers == old(t.workers)
    }
  }

  /** Replaces the timer's `Elapsed` invocation list, touching nothing else. */
  method SetSubscribers(timer: AnyTimer, handlers: Handlers)
    modifies timer.Object()
    ensures timer.Subscribers() == handlers
    ensures timer.UnchangedButSubscribers()
    ensures timer.Valid() <==> old(timer.Valid())
  {
    match timer
    case SpinWaitTimer(t) => t.elapsed := handlers;
    case TimerQueueTimer(t) => t.elapsed := handlers;
    case WinMmTimer(t) => t.elapsed := handlers;
    case NanoSleepTimer(t) => t.elapsed := handlers;
  }

  class TimerEvent {
    const timer: AnyTimer
    /** State of the AutoResetEvent: one pending signal or none. */
    var signalled: bool
    var waitHandleDisposed: bool

    /** Creates the signal unsignalled and subscribes to the timer's ticks. */
    constructor (timer: AnyTimer)
      modifies timer.Object()
      ensures this.timer == timer && !signalled && !waitHandleDisposed
      ensures timer.Subscribers() == Combine(old(timer.Subscribers()), this)
      ensures timer.UnchangedButSubscribers()
      ensures timer.Valid() <==> old(timer.Valid())
    {
      this.timer := timer;
      signalled := false;
      waitHandleDisposed := false;
      new;
      SetSubscribers(timer, Combine(timer.Subscribers(), this));
    }

    /** The `Elapsed` handler: sets the signal. A signal already pending
        stays a single pending signal. */
    method TimerOnElapsed() returns (r: Outcome)
      modifies this
      ensures r == if old(waitHandleDisposed) then Fail(Disposed("AutoResetEvent")) else Pass
      ensures signalled == (old(signalled) || !old(waitHandleDisposed))
      ensures waitHandleDisposed == old(waitHandleDisposed)
    {
      if waitHandleDisposed {
        return Fail(Disposed("AutoResetEvent"));
      }
      signalled := true;
      r := Pass;
    }

    /** `WaitOne()`: rejected unless the timer runs; otherwise blocks until a
        signal is pending (one already pending, or the next tick's) and
        consumes it. */
    method WaitOne() returns (r: Outcome)
      modifies this
      ensures !timer.IsRunning() ==> r == Fail(InvalidOperation(NOT_RUNNING)) && signalled == old(signalled)
      ensures timer.IsRunning() && waitHandleDisposed ==>
        r == Fail(Disposed("AutoResetEvent")) && signalled == old(signalled)
      ensures timer.IsRunning() && !waitHandleDisposed ==> r == Pass && !signalled
      ensures waitHandleDisposed == old(waitHandleDisposed)
    {
      if !timer.IsRunning() {
        return Fail(InvalidOperation(NOT_RUNNING));
      }
      if waitHandleDisposed {
        return Fail(Disposed("AutoResetEvent"));
      }
      signalled := false;
      r := Pass;
    }

    /** `WaitOne(millisecondsTimeout)`: rejected unless the timer runs;
        otherwise reports whether a signal was received, a pending one or a
        tick within the timeout (`tickInTime`), and consumes it. */
    method WaitOneFor(millisecondsTimeout: int32, tickInTime: bool) returns (r: Result<bool>)
      modifies this
      ensures !timer.IsRunning() ==> r == Err(InvalidOperation(NOT_RUNNING)) && signalled == old(signalled)
      ensures timer.IsRunning() && waitHandleDisposed ==>
        r == Err(Disposed("AutoResetEvent")) && signalled == old(signalled)
      ensures timer.IsRunning() && !waitHandleDisposed ==>
        r == Ok(old(signalled) || tickInTime) && !signalled
      ensures waitHandleDisposed == old(waitHandleDisposed)
    {
      if !timer.IsRunning() {
        return Err(InvalidOperation(NOT_RUNNING));
      }
      if waitHandleDisposed {
        return Err(Disposed("AutoResetEvent"));
      }
      var received := signalled || tickInTime;
      signalled := false;
      r := Ok(received);
    }

    /** Unsubscribes and releases the signal; the timer itself is neither
        stopped nor disposed. */
    method Dispose()
      modifies this, timer.Object()
      ensures waitHandleDisposed && signalled == old(signalled)
      ensures timer.Subscribers() == Remove(old(timer.Subscribers()), this)
      ensures timer.UnchangedButSubscribers()
      ensures timer.Valid() <==> old(timer.Valid())
    {
      SetSubscribers(timer, Remove(timer.Subscribers(), this));
      waitHandleDisposed := true;
    }
  }

  /** Ticks coalesce: two ticks before a wait leave one signal, so the first
      timed wait receives it and a second one, with no tick in time, does not. */
  method TicksCoalesce(e: TimerEvent) returns (first: Result<bool>, second: Result<bool>)
    requires e.timer.IsRunning() && !e.waitHandleDisposed
    modifies e
    ensures first == Ok(true) && second == Ok(false)
  {
    var _ := e.TimerOnElapsed();
    var _ := e.TimerOnElapsed();
    first := e.WaitOneFor(0, false);
    second := e.WaitOneFor(0, false);
  }

  /** Waiting on a bridge over a timer that was never started is rejected. */
  method WaitOnStoppedTimer() returns (r: Outcome)
    ensures r == Fail(InvalidOperation(NOT_RUNNING))
  {
    var t := new TimerQueue.TimerQueueTimer();
    var e := new TimerEvent(TimerQueueTimer(t));
    r := e.WaitOne();
  }
}

# Walter.Timers in Dafny

Walter.Timers is a .NET library of periodic high-resolution timers. Every timer has
the same surface: an `Interval` in milliseconds, `Start`, `Stop`, `StopAndWait`,
`Abort`, `Dispose`, an `IsRunning` flag and an `Elapsed` event. There are four backends:

- `SpinWaitTimer` is a worker thread that busy-waits on a microsecond stopwatch. It
  keeps a phase-accumulated schedule and drops ticks that are too late.
- `TimerQueueTimer` uses the Windows timer-queue API.
- `WinMmTimer` uses the Windows multimedia-timer API.
- `NanoSleepTimer` is a Linux worker that alternates firing and `nanosleep`.

`TimerFactory.Create` picks a backend for the host. `TimerEvent` turns ticks into an
auto-reset signal that a consumer can block on.

This project models that sequential core:

- The state of each timer is a Dafny class. Its setters and lifecycle methods return
  an `Outcome` or `Result` value, which carries the exception the C# code throws.
- The worker loops are methods over traces of what the worker observes:
  - the spin-wait engine reads stopwatch values, plus the flag, interval and
    threshold it reads on each pass;
  - the Linux worker reads the run flag, the stopwatch and the interval.
- Native calls are not executed. Their results are method parameters, and each
  Windows timer keeps a log of the native calls it made, in order.
- The tick record `SpinWaitTimerEventArgs` is a datatype with the four read-only
  values of its constructor.
- `ITimer` is the datatype `AnyTimer` over the four classes.

Files:

- `numeric.dfy`: .NET integer widths and wrap-around.
- `errors.dfy`: exceptions as values.
- `events.dfy`: C# event invocation lists.
- `native.dfy`: the native-call log.
- `spin_wait_event_args.dfy`: the tick record.
- `spin_wait_engine.dfy`: the `NotificationTimer` loop and its lemmas.
- `spin_wait_timer.dfy`, `timer_queue_timer.dfy`, `win_mm_timer.dfy` and
  `nano_sleep_timer.dfy`: the four backends.
- `timer_event.dfy`: the bridge.
- `timer_factory.dfy`: the platform selector.

## Model

| member | source | states |
|---|---|---|
| `Numeric.WrapInt32` | Walter.Timers/Other/SpinWaitTimer.cs:113-128 | the unchecked `int` result lies in the 32-bit range, equals the exact result inside that range and differs from it by a multiple of 2^32 |
| `Numeric.WrapInt32Succ` | Walter.Timers/Other/SpinWaitTimer.cs:128 | incrementing the wrapped pass counter gives the wrap of the exact pass number |
| `Numeric.WrapUInt32` | Walter.Timers/Other/SpinWaitTimer.cs:35-43 | the unchecked `uint` result is in range, is exact inside the range and is congruent modulo 2^32 |
| `Events.Combine` | Walter.Timers/TimerEvent.cs:21 | `+=` appends exactly the handler at the end of the invocation list |
| `Events.Remove` | Walter.Timers/TimerEvent.cs:47 | `-=` leaves a list without the handler unchanged and otherwise shortens it by one; which entry goes is stated by `RemoveCutsLastOccurrence` |
| `Events.RemoveUndoesCombine` | Walter.Timers/TimerEvent.cs:21-47 | unsubscribing right after subscribing restores the previous list |
| `Events.RemoveTakesOneOccurrence` | Walter.Timers/TimerEvent.cs:47 | `-=` removes one occurrence of the handler and no other handler |
| `Events.RemoveCutsLastOccurrence` | Walter.Timers/TimerEvent.cs:47 | `-=` on a list holding the handler cuts out its LAST occurrence: no later entry is that handler, and the handlers before and after it keep their order |
| `Native.PeriodBalanceAppend` | Walter.Timers/Windows/WinMMTimer.cs:72-114 | the count of TimeBeginPeriod calls minus TimeEndPeriod calls adds up over consecutive call logs |
| `SpinWaitEngine.NotificationTimer` | Walter.Timers/Other/SpinWaitTimer.cs:109-149 | the loop completes exactly the passes of `RunLog`, each with its flag clear. It ends when the flag is read set, or when the trace ends mid-spin. Every pass has lateness ≥ 0. A pass is delivered iff its lateness is below that pass's threshold. The delivered ticks are those of the delivered passes, in order |
| `SpinWaitEngine.Delivered` | Walter.Timers/Other/SpinWaitTimer.cs:137-145 | the ticks raised by a run are its delivered pass records in pass order, never more than the passes |
| `SpinWaitEngine.PassFollows` | Walter.Timers/Other/SpinWaitTimer.cs:119-145 | defines one iteration: one reading at the top, the schedule advanced by the interval read, a spin over readings below that point, the record (count, reading, lateness, execution time), delivered iff less late than the threshold read |
| `SpinWaitEngine.RunLog` | Walter.Timers/Other/SpinWaitTimer.cs:119-146 | defines a run: consecutive passes each following the one before, none of which read the stop flag set |
| `SpinWaitEngine.Schedule` | Walter.Timers/Other/SpinWaitTimer.cs:114-127 | defines the schedule point after some passes: the sum of the intervals they read |
| `SpinWaitEngine.ScheduleIsRunningSum` | Walter.Timers/Other/SpinWaitTimer.cs:124-128 | after pass k the scheduled point is the sum of the intervals read on passes 0..k, whether or not their ticks were delivered |
| `SpinWaitEngine.ScheduleOfFixedInterval` | Walter.Timers/Other/SpinWaitTimer.cs:127 | n passes at a fixed interval I accumulate n·I |
| `SpinWaitEngine.FixedIntervalHasNoDrift` | Walter.Timers/Other/SpinWaitTimer.cs:114-127 | at a fixed interval the k-th scheduled point is (k+1)·I, however late earlier ticks were |
| `SpinWaitEngine.DeliveredSource` | Walter.Timers/Other/SpinWaitTimer.cs:137-145 | every delivered tick is the record of a delivered pass, and delivered ticks keep pass order |
| `SpinWaitEngine.DeliveredTicksAreOnTime` | Walter.Timers/Other/SpinWaitTimer.cs:131-138 | every delivered tick is late by at least 0 and by less than the threshold read on its pass |
| `SpinWaitEngine.DeliveredCountsBounded` | Walter.Timers/Other/SpinWaitTimer.cs:128-145 | when pass k carries count k+1, delivered counts lie in 1..passes and strictly increase |
| `SpinWaitEngine.DeliveredCountsIncrease` | Walter.Timers/Other/SpinWaitTimer.cs:113-145 | while at most int.MaxValue passes have run, delivered `TimerCount`s are strictly increasing |
| `SpinWaitEngine.CountWrapsAfterIntMax` | Walter.Timers/Other/SpinWaitTimer.cs:113-128 | in a run of more than int.MaxValue passes, pass int.MaxValue−1 carries count int.MaxValue and the next pass carries int.MinValue. Counts then stop increasing, so the bound of `DeliveredCountsIncrease` is tight |
| `SpinWaitEngine.ExecutionTimeCoversPreviousLateness` | Walter.Timers/Other/SpinWaitTimer.cs:121-122 | on a non-decreasing stopwatch with non-negative readings, `CallbackFunctionExecutionTime` is the first reading on the first pass. Later it is at least the previous pass's lateness, so it is never negative |
| `SpinWaitEngine.DeliveredAllPasses` | Walter.Timers/Other/SpinWaitTimer.cs:137-145 | if no pass is suppressed, the delivered ticks are exactly the pass records, in order |
| `SpinWaitEngine.DefaultThresholdDeliversEveryPass` | Walter.Timers/Other/SpinWaitTimer.cs:13 | under the default threshold long.MaxValue no tick is suppressed. Delivered counts are then 1, 2, 3, … with no gaps |
| `SpinWaitEngine.ScheduleNonNegative` | Walter.Timers/Other/SpinWaitTimer.cs:127 | non-negative intervals give a non-negative schedule |
| `SpinWait.IntervalRoundTrip` | Walter.Timers/Other/SpinWaitTimer.cs:35-44 | reading `Interval` back gives the value set iff the value is ≤ 4,294,967. Any read-back is ≤ 4,294,967 |
| `SpinWait.NonzeroIntervalCanStoreZero` | Walter.Timers/Other/SpinWaitTimer.cs:40-44 | the setter accepts 536,870,912 ms, and that value wraps to a stored interval of 0 µs |
| `SpinWait.MicroSecondsOf` | Walter.Timers/Other/SpinWaitTimer.cs:43 | the stored microseconds are `value*1000` for values up to 4,294,967, and that product modulo 2^32 otherwise |
| `SpinWait.IntervalOf` | Walter.Timers/Other/SpinWaitTimer.cs:35 | the getter reads any 32-bit stored value as whole milliseconds, and never above 4,294,967 |
| `SpinWait.LateThreshold` | Walter.Timers/Other/SpinWaitTimer.cs:27 | the stored threshold is always ≥ 1. A non-positive setting stores long.MaxValue and a positive one is kept |
| `SpinWait.NonPositiveThresholdNeverSuppresses` | Walter.Timers/Other/SpinWaitTimer.cs:27 | in a run where every pass read the threshold stored for a non-positive setting (with non-negative intervals and readings below long.MaxValue), every pass is delivered and the ticks are the pass records in order |
| `SpinWait.SpinWaitTimer.constructor` | Walter.Timers/Other/SpinWaitTimer.cs:12-22 | a new timer is not disposed and not running. Its stop flag is set, its threshold is long.MaxValue and its interval is 1000 µs (reads back as 1) |
| `SpinWait.SpinWaitTimer.Interval` | Walter.Timers/Other/SpinWaitTimer.cs:35 | the `Interval` getter never reads above 4,294,967 |
| `SpinWait.SpinWaitTimer.IsRunning` | Walter.Timers/Other/SpinWaitTimer.cs:49 | a timer whose worker is not alive has its stop flag set |
| `SpinWait.SpinWaitTimer.SetInterval` | Walter.Timers/Other/SpinWaitTimer.cs:36-45 | disposed → ObjectDisposed; 0 → ArgumentOutOfRange with the stored µs unchanged; otherwise stores `value*1000` wrapped to 32 bits; nothing else changes |
| `SpinWait.SpinWaitTimer.SetIgnoreEventIfLateBy` | Walter.Timers/Other/SpinWaitTimer.cs:24-28 | stores `LateThreshold(value)` with no disposal check; nothing else changes |
| `SpinWait.SpinWaitTimer.Start` | Walter.Timers/Other/SpinWaitTimer.cs:51-68 | disposed → ObjectDisposed. On a timer whose worker is alive it succeeds and changes nothing. Otherwise it clears the stop flag and starts a worker |
| `SpinWait.SpinWaitTimer.Stop` | Walter.Timers/Other/SpinWaitTimer.cs:70-74 | disposed → ObjectDisposed; otherwise sets the stop flag without waiting |
| `SpinWait.SpinWaitTimer.StopAndWaitFor` | Walter.Timers/Other/SpinWaitTimer.cs:82-92 | disposed → ObjectDisposed. Otherwise it always sets the stop flag. It returns true at once if no worker is alive or it is called on the worker. Otherwise it returns whether the join saw the worker end (always with an infinite timeout). A negative timeout other than -1 → ArgumentOutOfRange |
| `SpinWait.SpinWaitTimer.StopAndWait` | Walter.Timers/Other/SpinWaitTimer.cs:76-80 | disposed → ObjectDisposed. Otherwise it sets the stop flag and waits for the worker to end, except on the worker's own thread |
| `SpinWait.SpinWaitTimer.WorkerChecksStopFlag` | Walter.Timers/Other/SpinWaitTimer.cs:119 | a worker that reads the stop flag set ends its thread; otherwise nothing changes |
| `SpinWait.SpinWaitTimer.Dispose` | Walter.Timers/Other/SpinWaitTimer.cs:157-172 | idempotent. The first call stops and waits for a live worker, marks the timer disposed and clears the subscribers. The invariant keeps the stop flag set ever after |
| `SpinWait.DisposedIsTerminal` | Walter.Timers/Other/SpinWaitTimer.cs:151-155 | starting a disposed timer fails with ObjectDisposed |
| `TimerQueue.StopCalls` | Walter.Timers/Windows/TimerQueueTimer.cs:101-122 | a stop makes TimeEndPeriod then one delete, plus exactly one retry when the first failure is not ERROR_IO_PENDING. It ends one period |
| `TimerQueue.StartCalls` | Walter.Timers/Windows/TimerQueueTimer.cs:52-65 | a start begins a period, creates the timer with due time and period equal to the interval, and ends the period again on failure. The net balance is 1 iff creation succeeded |
| `TimerQueue.Retries` | Walter.Timers/Windows/TimerQueueTimer.cs:104-107 | a retry happens only after the first delete failed, and not for ERROR_IO_PENDING |
| `TimerQueue.Deleted` | Walter.Timers/Windows/TimerQueueTimer.cs:104-121 | the handle is released iff the first delete succeeds, fails with ERROR_IO_PENDING, or its retry succeeds |
| `TimerQueue.TimerQueueTimer.constructor` | Walter.Timers/Windows/TimerQueueTimer.cs:19-24 | a new timer has interval 1, no handle, no subscribers and no native calls |
| `TimerQueue.TimerQueueTimer.IsRunning` | Walter.Timers/Windows/TimerQueueTimer.cs:43 | running is holding a handle; while no stop has failed both deletes, it is exactly having one TimeBeginPeriod open |
| `TimerQueue.TimerQueueTimer.SetInterval` | Walter.Timers/Windows/TimerQueueTimer.cs:26-38 | disposed → ObjectDisposed; 0 → ArgumentOutOfRange with the interval unchanged; otherwise stores the value exactly |
| `TimerQueue.TimerQueueTimer.Start` | Walter.Timers/Windows/TimerQueueTimer.cs:45-66 | disposed → ObjectDisposed. Running → InvalidOperation. Otherwise it logs `StartCalls`. On success it keeps the new handle. On failure it stays stopped and throws Win32 with the last error |
| `TimerQueue.TimerQueueTimer.StopInternal` | Walter.Timers/Windows/TimerQueueTimer.cs:101-122 | logs `StopCalls`. The handle is cleared iff the first delete succeeded, failed with 997, or its retry succeeded. Otherwise it throws Win32 with the retry's error and keeps the handle (still running) |
| `TimerQueue.TimerQueueTimer.StopEffect` | Walter.Timers/Windows/TimerQueueTimer.cs:68-76 | defines the effect shared by `Stop`, both `StopAndWait`s and `Abort`: disposed → ObjectDisposed, stopped → InvalidOperation, both unchanged; running → the `StopInternal` effect |
| `TimerQueue.TimerQueueTimer.Stop` | Walter.Timers/Windows/TimerQueueTimer.cs:68-76 | disposed → ObjectDisposed; not running → InvalidOperation; otherwise `StopInternal` |
| `TimerQueue.TimerQueueTimer.StopAndWait` | Walter.Timers/Windows/TimerQueueTimer.cs:78-81 | the same effect as `Stop` |
| `TimerQueue.TimerQueueTimer.Abort` | Walter.Timers/Windows/TimerQueueTimer.cs:89-92 | the same effect as `Stop` |
| `TimerQueue.TimerQueueTimer.StopAndWaitFor` | Walter.Timers/Windows/TimerQueueTimer.cs:83-87 | the effect of `Stop`, with the timeout ignored; true whenever `Stop` returns normally |
| `TimerQueue.TimerQueueTimer.Dispose` | Walter.Timers/Windows/TimerQueueTimer.cs:136-152 | idempotent. It sets disposed before stopping and calls `StopInternal` only if running. Subscribers are cleared unless that stop throws. A second call changes nothing |
| `TimerQueue.FailedDeleteKeepsRunning` | Walter.Timers/Windows/TimerQueueTimer.cs:112-121 | after both deletes fail the stop throws Win32 and the timer still reports running. A later `Stop` that deletes is accepted and stops it |
| `WinMm.StartCalls` | Walter.Timers/Windows/WinMMTimer.cs:72-81 | a start begins a period and sets the event with the interval and resolution. It ends the period again when the id is 0. The net balance is 1 iff the id is nonzero |
| `WinMm.StopCalls` | Walter.Timers/Windows/WinMMTimer.cs:111-116 | a stop kills the event and ends one period |
| `WinMm.WinMmTimer.constructor` | Walter.Timers/Windows/WinMMTimer.cs:20-25 | a new timer has resolution 0, interval 1, and is not running |
| `WinMm.WinMmTimer.IsRunning` | Walter.Timers/Windows/WinMMTimer.cs:63 | running is exactly having one TimeBeginPeriod open |
| `WinMm.WinMmTimer.SetInterval` | Walter.Timers/Windows/WinMMTimer.cs:32-47 | disposed → ObjectDisposed; 0 → ArgumentOutOfRange with interval and resolution unchanged. Otherwise it stores the value and the resolution becomes min(old resolution, value), so resolution ≤ interval |
| `WinMm.WinMmTimer.SetResolution` | Walter.Timers/Windows/WinMMTimer.cs:50-59 | disposed → ObjectDisposed; otherwise stores any value, unclamped |
| `WinMm.WinMmTimer.Start` | Walter.Timers/Windows/WinMMTimer.cs:65-82 | disposed → ObjectDisposed. Running → InvalidOperation. Otherwise it logs `StartCalls` and stores the id. A nonzero id means running. Id 0 throws Win32 with the last error and stays stopped |
| `WinMm.WinMmTimer.StopInternal` | Walter.Timers/Windows/WinMMTimer.cs:111-116 | logs `StopCalls` and sets the id to 0 (not running) |
| `WinMm.WinMmTimer.StopEffect` | Walter.Timers/Windows/WinMMTimer.cs:84-92 | defines the effect shared by `Stop`, both `StopAndWait`s and `Abort`: disposed → ObjectDisposed, stopped → InvalidOperation, both unchanged; running → stopped with the kill and end-period calls logged |
| `WinMm.WinMmTimer.Stop` | Walter.Timers/Windows/WinMMTimer.cs:84-92 | disposed → ObjectDisposed; not running → InvalidOperation; otherwise stops |
| `WinMm.WinMmTimer.StopAndWait` | Walter.Timers/Windows/WinMMTimer.cs:94-97 | the same effect as `Stop` |
| `WinMm.WinMmTimer.Abort` | Walter.Timers/Windows/WinMMTimer.cs:105-108 | the same effect as `Stop` |
| `WinMm.WinMmTimer.StopAndWaitFor` | Walter.Timers/Windows/WinMMTimer.cs:99-103 | the effect of `Stop`, with the timeout ignored; true whenever `Stop` returns normally |
| `WinMm.WinMmTimer.Dispose` | Walter.Timers/Windows/WinMMTimer.cs:136-150 | idempotent. It sets disposed, stops only if running, then clears subscribers. The invariant keeps exactly one period open while running |
| `NanoSleep.IntervalSplitRoundTrip` | Walter.Timers/Linux/NanoSleepTimer.cs:70-88 | the pair the setter writes reads back through the getter as exactly the value set |
| `NanoSleep.IntervalTimespec` | Walter.Timers/Linux/NanoSleepTimer.cs:85-86 | the setter's split has `tv_sec = value/1000` and whole-millisecond `tv_nsec` in 0..999,000,000 |
| `NanoSleep.Milliseconds` | Walter.Timers/Linux/NanoSleepTimer.cs:70-80 | a valid pair reads back as a non-negative count of ms whose seconds are `tv_sec` and whose remainder is the ms of `tv_nsec` |
| `NanoSleep.TickStep` | Walter.Timers/Linux/NanoSleepTimer.cs:116-131 | fires iff elapsed ms ≥ interval. Otherwise it always sleeps, because SafeDelay is 0. The sleep request has `tv_sec` 0 and `tv_nsec` (interval − elapsed)·10^6 |
| `NanoSleep.SleepRequestWithinOneSecond` | Walter.Timers/Linux/NanoSleepTimer.cs:124-129 | the sleep request's `tv_nsec` stays ≤ 999,999,999 iff less than 1000 ms are left |
| `NanoSleep.TickGenerator` | Walter.Timers/Linux/NanoSleepTimer.cs:99-136 | each pass makes the `TickStep` decision on what it observed. A pass runs iff the flag sampled before it was set. At most one more pass runs after the flag is sampled clear |
| `NanoSleep.NanoSleepTimer.constructor` | Walter.Timers/Linux/NanoSleepTimer.cs:17-23 | a new timer has a zeroed pending pair (interval 0) and is not running |
| `NanoSleep.NanoSleepTimer.Interval` | Walter.Timers/Linux/NanoSleepTimer.cs:68-80 | the getter's seconds are the pending `tv_sec` and its remainder, in ms, is the pending `tv_nsec` |
| `NanoSleep.NanoSleepTimer.IsRunning` | Walter.Timers/Linux/NanoSleepTimer.cs:23 | the auto-property `IsRunning` |
| `NanoSleep.NanoSleepTimer.SetInterval` | Walter.Timers/Linux/NanoSleepTimer.cs:81-88 | accepts every value, 0 included, never fails, and stores the split, so `Interval()` reads back the value |
| `NanoSleep.NanoSleepTimer.Start` | Walter.Timers/Linux/NanoSleepTimer.cs:25-37 | no guard: it always sets running and starts one more worker |
| `NanoSleep.NanoSleepTimer.Stop` | Walter.Timers/Linux/NanoSleepTimer.cs:39-50 | afterwards not running. A stopped timer is left as it was |
| `NanoSleep.NanoSleepTimer.StopAndWait` | Walter.Timers/Linux/NanoSleepTimer.cs:52-55 | the same effect as `Stop` |
| `NanoSleep.NanoSleepTimer.Abort` | Walter.Timers/Linux/NanoSleepTimer.cs:63-66 | the same effect as `Stop` |
| `NanoSleep.NanoSleepTimer.StopAndWaitFor` | Walter.Timers/Linux/NanoSleepTimer.cs:57-61 | the effect of `Stop`; returns true, with the timeout ignored |
| `NanoSleep.NanoSleepTimer.Dispose` | Walter.Timers/Linux/NanoSleepTimer.cs:91-97 | stops if running and clears subscribers. There is no disposed state |
| `TimerEvents.SetSubscribers` | Walter.Timers/TimerEvent.cs:21 | replacing a timer's invocation list changes nothing else about the timer |
| `TimerEvents.TimerEvent.constructor` | Walter.Timers/TimerEvent.cs:17-22 | the signal starts unsignalled. The bridge appends itself to the timer's `Elapsed` list and changes nothing else in the timer |
| `TimerEvents.TimerEvent.TimerOnElapsed` | Walter.Timers/TimerEvent.cs:24-27 | a tick sets the single slot. An already pending signal stays one signal, so ticks coalesce. After the signal is released, a tick fails with ObjectDisposed |
| `TimerEvents.TimerEvent.WaitOne` | Walter.Timers/TimerEvent.cs:29-35 | not running → InvalidOperation, with the signal untouched. A released signal → ObjectDisposed. Otherwise the wait consumes the signal |
| `TimerEvents.TimerEvent.WaitOneFor` | Walter.Timers/TimerEvent.cs:37-43 | not running → InvalidOperation, with the signal untouched. A released signal → ObjectDisposed. Otherwise it returns whether a signal was pending or a tick came in time, and consumes it |
| `TimerEvents.TimerEvent.Dispose` | Walter.Timers/TimerEvent.cs:45-49 | removes itself from the timer's `Elapsed` list and releases the signal. The timer's running and disposed state is untouched |
| `TimerEvents.TicksCoalesce` | Walter.Timers/TimerEvent.cs:24-42 | two ticks followed by two timed waits give one true and then one false |
| `TimerEvents.WaitOnStoppedTimer` | Walter.Timers/TimerEvent.cs:29-32 | waiting on a bridge over a timer that was never started fails with InvalidOperation |
| `TimerFactory.Create` | Walter.Timers/TimerFactory.cs:10-20 | Linux (checked first) → NanoSleep; else Windows → TimerQueue; else a PlatformNotSupported error whose message contains the OS description |
| `TimerFactory.UnsupportedMessage` | Walter.Timers/TimerFactory.cs:19 | the exception message for an unsupported host contains the host's OS description |
| `TimerFactory.CreateNeverChoosesWinMmOrSpinWait` | Walter.Timers/TimerFactory.cs:15-17 | neither `WinMmTimer` nor `SpinWaitTimer` is ever chosen |

## Left out

- Threads, locks, `Interlocked`, `volatile` and `Thread.SpinWait` are not modelled.
  Each flag or field write is a sequential state update. What a worker reads
  concurrently becomes an input of the loop methods. A worker's exit is the explicit
  step `WorkerChecksStopFlag`.
- `SpinWaitTimer.Abort` is left out. It calls `Thread.Abort`, which is
  runtime-dependent forced termination. It is not part of the sequential core.
- `SpinWaitTimer.IsRunning` is modelled as the `threadAlive` flag.
  `Thread.IsAlive` timing is not modelled.
- The stopwatch (`HiResStopwatch`, with its `double` tick conversion) is a
  sequence of integer readings. `SpinWaitEngine.NotificationTimer` observes a
  finite prefix of the run. A pass still spinning when the trace ends is not logged.
- `SpinWaitEngine.NotificationTimer` treats the `long` values (schedule,
  readings, lateness) as unbounded. Overflow of a `long` needs 2^63 µs. The `int`
  pass counter is wrapped explicitly.
- Event delivery (`Elapsed?.Invoke`) is modelled as the list of delivered
  records. The subscriber handlers are not run, and the native callbacks of the
  Windows timers (`TimerCallbackMethod`) are not modelled.
- `NanoSleepTimer`'s `Interval` getter is modelled exactly as
  `tv_sec·1000 + tv_nsec/10^6`. The source computes it in `double` and truncates,
  which can round one millisecond down. The `(int)(… * 1e6)` conversion of the
  sleep request is modelled as exact integer multiplication. The `nanosleep`
  call itself is not modelled.
- `NanoSleep.TickGenerator` takes each pass's two reads of `Interval` to see the
  same value. The restart of the stopwatch on a fire is part of the environment's
  readings.
- `NanoSleepTimer.Stop`'s `Join(1000)` and the stopwatch start in `Start` have
  no effect on the modelled state.
- Finalizers, `GC.SuppressFinalize` and the `Dispose(false)` path are
  garbage-collector behaviour and are not modelled.
- The callback delegates kept alive in `_callback` are not modelled.
- The native calls' own semantics are not modelled: timer resolution, callback
  threads, and the `TimeBeginPeriod`/`TimeEndPeriod` return codes. The results
  that the code inspects are inputs.
- TimerDemo/Program.cs, ITimer.cs, ITimerEvent.cs and WindowsNativeMethods.cs
  are not part of this model, except `ITimer` as `AnyTimer` and the two constants
  `ERROR_IO_PENDING` and `INVALID_HANDLE_VALUE`.
- `TimerEvents.TimerEvent.WaitOneFor`: the timeout is not checked. A negative
  timeout other than -1, which `WaitHandle.WaitOne` rejects, is not modelled.
- `TimerEvents.TimerEvent.WaitOne`: a wait with no signal pending blocks until the
  next tick. It is modelled as returning after that tick's signal has been
  consumed. A tick that never comes (blocking forever) is not modelled.
- `SpinWait.SpinWaitTimer.StopAndWaitFor`: whether the worker ends within a finite
  timeout is an input. With an infinite timeout the worker is taken to end, which
  assumes that subscriber handlers return.

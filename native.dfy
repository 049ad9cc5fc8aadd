/** The Windows native calls the timers make, recorded in the order they are
    made. Native results are supplied to the timer methods as parameters. */
module Native {

  /** ERROR_IO_PENDING, the "callback still in flight" result of DeleteTimerQueueTimer. */
  const ERROR_IO_PENDING: int := 997
  /** INVALID_HANDLE_VALUE as completion event: wait for running callbacks. */
  const INVALID_HANDLE_VALUE: int := -1
  /** IntPtr.Zero. */
  const NULL: int := 0

  datatype NativeCall =
    | TimeBeginPeriod(period: int)
    | TimeEndPeriod(period: int)
    | CreateTimerQueueTimer(dueTime: int, period: int)
    | DeleteTimerQueueTimer(timer: int, completionEvent: int)
    | TimeSetEvent(delay: int, resolution: int)
    | TimeKillEvent(timerId: int)

  /** Number of TimeBeginPeriod calls minus number of TimeEndPeriod calls. */
  function PeriodBalance(calls: seq<NativeCall>): int
  {
    if calls == [] then 0
    else PeriodBalance(calls[..|calls| - 1]) + PeriodDelta(calls[|calls| - 1])
  }

  function PeriodDelta(c: NativeCall): int
  {
    match c
    case TimeBeginPeriod(_) => 1
    case TimeEndPeriod(_) => -1
    case _ => 0
  }

  /** The balance of a log extended by more calls is the sum of the two balances. */
  lemma {:induction false} PeriodBalanceAppend(a: seq<NativeCall>, b: seq<NativeCall>)
    ensures PeriodBalance(a + b) == PeriodBalance(a) + PeriodBalance(b)
  {
    if b != [] {
      var b' := b[..|b| - 1];
      assert (a + b)[..|a + b| - 1] == a + b';
      assert (a + b)[|a + b| - 1] == b[|b| - 1];
      PeriodBalanceAppend(a, b');
    } else {
      assert a + b == a;
    }
  }

  lemma PeriodBalanceOne(c: NativeCall)
    ensures PeriodBalance([c]) == PeriodDelta(c)
  {
    assert [c][..0] == [];
  }

  /** Balance of a two-call log. */
  lemma PeriodBalanceTwo(c: NativeCall, d: NativeCall)
    ensures PeriodBalance([c, d]) == PeriodDelta(c) + PeriodDelta(d)
  {
    PeriodBalanceOne(c);
    PeriodBalanceOne(d);
    PeriodBalanceAppend([c], [d]);
    assert [c] + [d] == [c, d];
  }
}

/** The record a spin-wait timer delivers with each tick. Its four values are
    fixed at construction and only read afterwards, so it is a datatype. */
module SpinWaitEventArgs {

  datatype SpinWaitTimerEventArgs = SpinWaitTimerEventArgs(
    /** Number of the loop pass that produced the tick, counted from 1. */
    TimerCount: int,
    /** Clock reading, in microseconds since the worker started, that ended the wait. */
    ElapsedMicroseconds: int,
    /** How far that reading lies past the scheduled point. */
    TimerLateBy: int,
    /** Time from the previous scheduled point to the top of this pass: the
        previous handler's run time plus loop overhead. */
    CallbackFunctionExecutionTime: int)
}

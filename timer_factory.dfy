/** The platform selector: picks a timer backend from the host's identity. */
module TimerFactory {
  import opened Errors

  /** What the runtime reports about the host: whether it is Linux, whether
      it is Windows, and its description string. */
  datatype Host = Host(isLinux: bool, isWindows: bool, osDescription: string)

  datatype TimerKind = NanoSleepTimer | TimerQueueTimer | WinMmTimer | SpinWaitTimer

  /** The message of the exception for an unsupported host names the host. */
  function UnsupportedMessage(osDescription: string): (message: string)
    ensures Contains(message, osDescription)
  {
    var message := "Platform " + osDescription + " is not supported.";
    assert OccursAt(osDescription, message, 9);
    message
  }

  predicate OccursAt(sub: string, s: string, i: nat) {
    i + |sub| <= |s| && s[i..i + |sub|] == sub
  }

  predicate Contains(s: string, sub: string) {
    exists i :: 0 <= i <= |s| && OccursAt(sub, s, i)
  }

  /** `Create`. Linux is checked first; Windows gets the timer-queue backend;
      any other host is an error naming the host. */
  function Create(host: Host): (r: Result<TimerKind>)
    ensures r.Ok? <==> host.isLinux || host.isWindows
    ensures host.isLinux ==> r == Ok(NanoSleepTimer)
    ensures !host.isLinux && host.isWindows ==> r == Ok(TimerQueueTimer)
    ensures r.Err? ==> r.error.PlatformNotSupported?
    ensures r.Err? ==> Contains(r.error.message, host.osDescription)
  {
    if host.isLinux then Ok(NanoSleepTimer)
    else if host.isWindows then Ok(TimerQueueTimer)
    else
      Err(PlatformNotSupported(UnsupportedMessage(host.osDescription)))
  }

  /** Neither the multimedia timer nor the spin-wait timer is ever chosen. */
  lemma CreateNeverChoosesWinMmOrSpinWait(host: Host)
    ensures Create(host) != Ok(WinMmTimer)
    ensures Create(host) != Ok(SpinWaitTimer)
  {
  }
}

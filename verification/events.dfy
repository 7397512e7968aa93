/** The calls the service makes on its collaborators (monitor, settings,
    updater), in the order it makes them.  A query call records the answer
    it received, so a trace is a complete record of one interaction. */
module Events {

  datatype Event =
    | RegisterInstance                      // monitor.RegisterInstance()
    | UpdaterInit                           // updater.Init()
    | ResetUserActivity                     // settings.ResetUserActivity()
    | AbortRequested(aborted: bool)         // monitor.abortRequested() and its answer
    | SettingsReload(changed: bool)         // settings.Reload() and its answer
    | UpdaterReload                         // updater.Reload()
    | GetCurrentUpdateOperation(code: int)  // updater.GetCurrentUpdateOperation() and its answer
    | Update(full: bool)                    // updater.Update(full)
    | WaitForAbort(seconds: int, aborted: bool) // monitor.waitForAbort(seconds) and its answer
    | UpdaterExit                           // updater.Exit()
    | UnregisterInstance                    // monitor.UnregisterInstance()

  /** An event in which the service learns that abort has been requested. */
  predicate IsAbortObservation(ev: Event) {
    ev == AbortRequested(true) || (ev.WaitForAbort? && ev.aborted)
  }

  /** An event of the instance lifecycle (Init/Exit), as opposed to the loop. */
  predicate IsLifecycle(ev: Event) {
    ev in {RegisterInstance, UpdaterInit, ResetUserActivity, UpdaterExit, UnregisterInstance}
  }

  /** Number of events of `e` that satisfy `p`. */
  function Count(e: seq<Event>, p: Event -> bool): (n: nat)
    ensures n <= |e|
  {
    if |e| == 0 then 0 else (if p(e[0]) then 1 else 0) + Count(e[1..], p)
  }

  lemma {:induction false} CountAppend(a: seq<Event>, b: seq<Event>, p: Event -> bool)
    ensures Count(a + b, p) == Count(a, p) + Count(b, p)
    decreases |a|
  {
    if |a| == 0 {
      assert a + b == b;
    } else {
      assert (a + b)[1..] == a[1..] + b;
      CountAppend(a[1..], b, p);
    }
  }
}

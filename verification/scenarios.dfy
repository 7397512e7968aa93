/** Three concrete runs of the service, each with its complete call trace. */
module Scenarios {
  import opened Events
  import opened Service

  /** An iteration with unchanged settings and no update due. */
  const IdleIteration: seq<Event> :=
    [AbortRequested(false), SettingsReload(false), GetCurrentUpdateOperation(0),
     WaitForAbort(15, false)]

  /** Settings unchanged, no update due, abort noticed at the third abort
      check: two waits, no update, then Exit.  The notifications delivered
      during the second wait change nothing. */
  lemma IdleRunThenAbort()
    ensures ProgramTrace([Tick(false, false, 0, 0, false),
                          Tick(false, false, 0, 3, false),
                          Tick(true, true, 1, 0, true)])
      == [RegisterInstance, UpdaterInit, ResetUserActivity]
         + IdleIteration + IdleIteration + [AbortRequested(true)]
         + [UpdaterExit, UnregisterInstance]
  {
    var t1, t2, t3 := Tick(false, false, 0, 0, false), Tick(false, false, 0, 3, false),
                      Tick(true, true, 1, 0, true);
    CallbacksSilent(3);
    assert [t1, t2, t3][1..] == [t2, t3] && [t2, t3][1..] == [t3];
    assert TickEvents(t1) == IdleIteration && TickEvents(t2) == IdleIteration;
    assert RunTrace([t3]) == Run([AbortRequested(true)], AbortSeen);
    assert RunTrace([t2, t3]) == Run(IdleIteration + [AbortRequested(true)], AbortSeen);
    assert RunTrace([t1, t2, t3]) ==
      Run(IdleIteration + (IdleIteration + [AbortRequested(true)]), AbortSeen);
  }

  /** A full update on the first iteration, none on the second, abort
      reported by the second wait: one Update(true) and no third iteration,
      even though the script would answer one. */
  lemma FullUpdateThenAbortDuringWait()
    ensures ProgramTrace([Tick(false, false, 1, 0, false),
                          Tick(false, false, 0, 0, true),
                          Tick(false, true, 2, 0, false)])
      == [RegisterInstance, UpdaterInit, ResetUserActivity]
         + [AbortRequested(false), SettingsReload(false), GetCurrentUpdateOperation(1),
            Update(true), WaitForAbort(15, false)]
         + [AbortRequested(false), SettingsReload(false), GetCurrentUpdateOperation(0),
            WaitForAbort(15, true)]
         + [UpdaterExit, UnregisterInstance]
  {
    var t1, t2, t3 := Tick(false, false, 1, 0, false), Tick(false, false, 0, 0, true),
                      Tick(false, true, 2, 0, false);
    assert [t1, t2, t3][1..] == [t2, t3];
    assert RunTrace([t2, t3]) == Run(TickEvents(t2), AbortDuringWait);
  }

  /** The settings change only on the third iteration: the updater is
      reloaded once, there, before that iteration's query; a differential
      update follows.  The script ends with the loop still running, so Run
      has not returned. */
  lemma ReloadOnThirdIteration()
    ensures RunTrace([Tick(false, false, 0, 0, false),
                      Tick(false, false, 0, 0, false),
                      Tick(false, true, 2, 0, false)])
      == Run(IdleIteration + IdleIteration
             + [AbortRequested(false), SettingsReload(true), UpdaterReload,
                GetCurrentUpdateOperation(2), Update(false), WaitForAbort(15, false)],
             OutOfScript)
  {
    var idle, change := Tick(false, false, 0, 0, false), Tick(false, true, 2, 0, false);
    assert [idle, idle, change][1..] == [idle, change] && [idle, change][1..] == [change];
    assert [change][1..] == [];
    var changeCalls := [AbortRequested(false), SettingsReload(true), UpdaterReload,
                        GetCurrentUpdateOperation(2), Update(false), WaitForAbort(15, false)];
    assert TickEvents(idle) == IdleIteration && TickEvents(change) == changeCalls;
    assert RunTrace([change]) == Run(changeCalls, OutOfScript);
    assert RunTrace([idle, change]) == Run(IdleIteration + changeCalls, OutOfScript);
    assert RunTrace([idle, idle, change]) ==
      Run(IdleIteration + (IdleIteration + changeCalls), OutOfScript);
  }
}

/** Ordering and dispatch properties of the loop of MediathekViewService.Run,
    stated on positions of the call trace it makes. */
module LoopProperties {
  import opened Events
  import opened Service
  import opened TraceShape

  /** When settings.Reload() answers true, the very next call is
      updater.Reload() and the one after it is the operation query; when it
      answers false, the query comes next.  updater.Reload() is never called
      otherwise. */
  lemma ReloadBeforeQuery(script: seq<Tick>)
    ensures var e := RunTrace(script).events;
      forall i :: 0 <= i < |e| && e[i] == SettingsReload(true) ==>
        i + 2 < |e| && e[i + 1] == UpdaterReload && e[i + 2].GetCurrentUpdateOperation?
    ensures var e := RunTrace(script).events;
      forall i :: 0 <= i < |e| && e[i] == SettingsReload(false) ==>
        i + 1 < |e| && e[i + 1].GetCurrentUpdateOperation?
    ensures var e := RunTrace(script).events;
      forall i :: 0 <= i < |e| && e[i] == UpdaterReload ==>
        0 < i && e[i - 1] == SettingsReload(true)
  {
    var run := RunTrace(script);
    var e := run.events;
    RunTraceShape(script);
    assert EndsAs(e, run.ending);
    forall i | 0 <= i < |e| && e[i] == SettingsReload(true)
      ensures i + 2 < |e| && e[i + 1] == UpdaterReload && e[i + 2].GetCurrentUpdateOperation?
    {
      assert i + 1 < |e|;
      assert Follows(e[i], e[i + 1]);
      assert i + 2 < |e|;
      assert Follows(e[i + 1], e[i + 2]);
    }
    forall i | 0 <= i < |e| && e[i] == SettingsReload(false)
      ensures i + 1 < |e| && e[i + 1].GetCurrentUpdateOperation?
    {
      assert i + 1 < |e|;
      assert Follows(e[i], e[i + 1]);
    }
    forall i | 0 <= i < |e| && e[i] == UpdaterReload
      ensures 0 < i && e[i - 1] == SettingsReload(true)
    {
      assert Follows(e[i - 1], e[i]);
    }
  }

  /** After the operation query comes exactly the update its answer calls
      for: Update(true) for code 1, Update(false) for code 2, and straight
      the wait for any other code.  Every Update is preceded by the query
      that asked for it and followed by the wait, so an iteration issues at
      most one update. */
  lemma DispatchExact(script: seq<Tick>)
    ensures var e := RunTrace(script).events;
      forall i :: 0 <= i < |e| && e[i].GetCurrentUpdateOperation? ==>
        && i + 1 < |e|
        && (e[i].code == FullUpdateCode ==> e[i + 1] == Update(true))
        && (e[i].code == DifferentialUpdateCode ==> e[i + 1] == Update(false))
        && (e[i].code != FullUpdateCode && e[i].code != DifferentialUpdateCode ==>
              e[i + 1].WaitForAbort?)
    ensures var e := RunTrace(script).events;
      forall i :: 0 <= i < |e| && e[i].Update? ==>
        && 0 < i
        && e[i - 1] == GetCurrentUpdateOperation(
             if e[i].full then FullUpdateCode else DifferentialUpdateCode)
        && i + 1 < |e| && e[i + 1].WaitForAbort?
  {
    var run := RunTrace(script);
    var e := run.events;
    RunTraceShape(script);
    forall i | 0 <= i < |e| && e[i].GetCurrentUpdateOperation?
      ensures i + 1 < |e| && Follows(e[i], e[i + 1])
    {
      assert e[i] != e[|e| - 1] by { assert EndsAs(e, run.ending); }
    }
    forall i | 0 <= i < |e| && e[i].Update?
      ensures 0 < i && Follows(e[i - 1], e[i])
      ensures i + 1 < |e| && Follows(e[i], e[i + 1])
    {
      assert e[i] != e[|e| - 1] by { assert EndsAs(e, run.ending); }
    }
  }

  /** Every wait passes 15 seconds and closes its iteration: the next call,
      if any, is the abort check that opens the next iteration. */
  lemma WaitClosesIteration(script: seq<Tick>)
    ensures var e := RunTrace(script).events;
      forall i :: 0 <= i < |e| && e[i].WaitForAbort? ==>
        && e[i].seconds == WaitSeconds
        && (i + 1 == |e| || e[i + 1].AbortRequested?)
    ensures var e := RunTrace(script).events;
      forall i :: 0 <= i < |e| && e[i].AbortRequested? ==> i == 0 || e[i - 1].WaitForAbort?
  {
    var run := RunTrace(script);
    var e := run.events;
    RunTraceShape(script);
    forall i | 0 <= i < |e| && e[i].WaitForAbort?
      ensures e[i].seconds == WaitSeconds
      ensures i + 1 == |e| || e[i + 1].AbortRequested?
    {
      if i > 0 {
        assert Follows(e[i - 1], e[i]);
      }
      if i + 1 < |e| {
        assert Follows(e[i], e[i + 1]);
      } else {
        assert EndsAs(e, run.ending);
      }
    }
    forall i | 0 <= i < |e| && e[i].AbortRequested? && i > 0
      ensures e[i - 1].WaitForAbort?
    {
      assert Follows(e[i - 1], e[i]);
    }
  }

  /** An observed abort is the last call of the run: once abortRequested or
      waitForAbort answers true, no reload, query, update or wait follows.
      Conversely Run returns exactly when its last call observed an abort. */
  lemma AbortEndsRun(script: seq<Tick>)
    ensures var e := RunTrace(script).events;
      forall i :: 0 <= i < |e| && IsAbortObservation(e[i]) ==> i == |e| - 1
    ensures var run := RunTrace(script);
      run.ending != OutOfScript <==>
        |run.events| > 0 && IsAbortObservation(run.events[|run.events| - 1])
    ensures var run := RunTrace(script);
      run.ending == AbortSeen <==>
        |run.events| > 0 && run.events[|run.events| - 1] == AbortRequested(true)
  {
    var run := RunTrace(script);
    var e := run.events;
    RunTraceShape(script);
    forall i | 0 <= i < |e| - 1
      ensures !IsAbortObservation(e[i])
    {
      assert Follows(e[i], e[i + 1]);
    }
    assert EndsAs(e, run.ending);
  }

  /** The script with every settings-changed notification removed. */
  function Quiet(script: seq<Tick>): (q: seq<Tick>)
    ensures |q| == |script|
    ensures forall k :: 0 <= k < |q| ==> q[k] == script[k].(notifications := 0)
  {
    if |script| == 0 then [] else [script[0].(notifications := 0)] + Quiet(script[1..])
  }

  /** onSettingsChanged has no effect on the loop: a run with any pattern of
      notifications makes the same calls, and ends the same way, as the run
      with none. */
  lemma {:induction false} CallbacksInvisible(script: seq<Tick>)
    ensures RunTrace(script) == RunTrace(Quiet(script))
    ensures ProgramTrace(script) == ProgramTrace(Quiet(script))
    decreases |script|
  {
    if |script| > 0 {
      var t := script[0];
      CallbacksSilent(t.notifications);
      CallbacksSilent(0);
      assert TickEvents(t) == TickEvents(t.(notifications := 0));
      assert Quiet(script)[1..] == Quiet(script[1..]);
      CallbacksInvisible(script[1..]);
    }
  }
}

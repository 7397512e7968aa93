/** The shape of every trace the loop of MediathekViewService.Run can make,
    stated as an automaton over consecutive calls, independently of the
    script that drives the loop. */
module TraceShape {
  import opened Events
  import opened Service

  /** May call `b` come directly after call `a` inside the loop? */
  predicate Follows(a: Event, b: Event) {
    match a
    case AbortRequested(aborted) => !aborted && b.SettingsReload?
    case SettingsReload(changed) =>
      if changed then b == UpdaterReload else b.GetCurrentUpdateOperation?
    case UpdaterReload => b.GetCurrentUpdateOperation?
    case GetCurrentUpdateOperation(code) =>
      if code == FullUpdateCode then b == Update(true)
      else if code == DifferentialUpdateCode then b == Update(false)
      else b.WaitForAbort? && b.seconds == WaitSeconds
    case Update(_) => b.WaitForAbort? && b.seconds == WaitSeconds
    case WaitForAbort(_, aborted) => !aborted && b.AbortRequested?
    case _ => false
  }

  /** Every pair of consecutive calls is allowed by `Follows`. */
  predicate Chained(e: seq<Event>) {
    forall i :: 0 <= i < |e| - 1 ==> Follows(e[i], e[i + 1])
  }

  /** The last call of a run, according to how the run ended. */
  predicate EndsAs(e: seq<Event>, ending: Ending) {
    match ending
    case AbortSeen => |e| > 0 && e[|e| - 1] == AbortRequested(true)
    case AbortDuringWait => |e| > 0 && e[|e| - 1] == WaitForAbort(WaitSeconds, true)
    case OutOfScript => |e| == 0 || e[|e| - 1] == WaitForAbort(WaitSeconds, false)
  }

  /** A run starts with the abort check, steps by `Follows`, and stops on the
      call that observed the abort (or between iterations, when the script
      is used up). */
  predicate IsRunTrace(e: seq<Event>, ending: Ending) {
    && (|e| > 0 ==> e[0].AbortRequested?)
    && Chained(e)
    && EndsAs(e, ending)
  }

  lemma ChainedAppend(a: seq<Event>, b: seq<Event>)
    requires Chained(a) && Chained(b)
    requires |a| > 0 && |b| > 0 ==> Follows(a[|a| - 1], b[0])
    ensures Chained(a + b)
  {
    forall i | 0 <= i < |a + b| - 1
      ensures Follows((a + b)[i], (a + b)[i + 1])
    {
      if i < |a| - 1 {
        assert (a + b)[i] == a[i] && (a + b)[i + 1] == a[i + 1];
      } else if i == |a| - 1 {
        assert (a + b)[i] == a[|a| - 1] && (a + b)[i + 1] == b[0];
      } else {
        assert (a + b)[i] == b[i - |a|] && (a + b)[i + 1] == b[i - |a| + 1];
      }
    }
  }

  /** One iteration starts with the abort check, is chained, and ends with
      the abort check (abort requested) or with the wait. */
  lemma TickShape(t: Tick)
    ensures |TickEvents(t)| > 0
    ensures TickEvents(t)[0] == AbortRequested(t.abortRequested)
    ensures Chained(TickEvents(t))
    ensures TickEvents(t)[|TickEvents(t)| - 1] ==
      if t.abortRequested then AbortRequested(true) else WaitForAbort(WaitSeconds, t.waitAborted)
  {
    CallbacksSilent(t.notifications);
    if !t.abortRequested {
      var reload := if t.settingsChanged then [UpdaterReload] else [];
      var head := [AbortRequested(false), SettingsReload(t.settingsChanged)] + reload;
      var query := [GetCurrentUpdateOperation(t.opCode)] + Dispatch(t.opCode)
        + [WaitForAbort(WaitSeconds, t.waitAborted)];
      assert TickEvents(t) == head + query;
      assert Chained(head);
      assert Chained(query);
      ChainedAppend(head, query);
    }
  }

  /** Every run of the loop has the shape described by `IsRunTrace`. */
  lemma {:induction false} RunTraceShape(script: seq<Tick>)
    ensures IsRunTrace(RunTrace(script).events, RunTrace(script).ending)
    decreases |script|
  {
    if |script| > 0 {
      var t := script[0];
      TickShape(t);
      if !Ends(t) {
        var rest := RunTrace(script[1..]);
        RunTraceShape(script[1..]);
        ChainedAppend(TickEvents(t), rest.events);
        var e := TickEvents(t) + rest.events;
        assert e[0] == TickEvents(t)[0];
        if |rest.events| > 0 {
          assert e[|e| - 1] == rest.events[|rest.events| - 1];
        }
      }
    }
  }
}

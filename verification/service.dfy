/** The MediathekView background service: its lifecycle (Init, Run, Exit)
    and the update-scheduling loop of Run.

    The monitor, the settings and the updater are collaborators whose
    behaviour is not part of this model.  Every answer they give to the loop
    is supplied by a script, one `Tick` per loop iteration, and the model
    computes the exact sequence of calls the service makes on them. */
module Service {
  import opened Events

  /** The interval, in seconds, passed to monitor.waitForAbort on every tick. */
  const WaitSeconds: int := 15

  /** The operation codes the updater reports. */
  const FullUpdateCode: int := 1
  const DifferentialUpdateCode: int := 2

  /** The collaborators' answers during one iteration of the loop.
      `notifications` is the number of settings-changed notifications the
      host delivers to the monitor while the iteration waits. */
  datatype Tick = Tick(
    abortRequested: bool,   // answer of monitor.abortRequested()
    settingsChanged: bool,  // answer of settings.Reload()
    opCode: int,            // answer of updater.GetCurrentUpdateOperation()
    notifications: nat,     // onSettingsChanged deliveries during the wait
    waitAborted: bool       // answer of monitor.waitForAbort(15)
  )

  /** How a run of the loop ended.  `OutOfScript` means the script supplied
      no answers for a further iteration: the loop is still running. */
  datatype Ending = AbortSeen | AbortDuringWait | OutOfScript

  datatype Run = Run(events: seq<Event>, ending: Ending)

  /** The update call issued for an operation code: code 1 is a full update,
      code 2 a differential one, anything else is no update. */
  function Dispatch(code: int): seq<Event> {
    if code == FullUpdateCode then [Update(true)]
    else if code == DifferentialUpdateCode then [Update(false)]
    else []
  }

  /** Each operation code starts at most one update: a full one exactly for
      code 1, a differential one exactly for code 2, none otherwise. */
  lemma DispatchByCode(code: int)
    ensures |Dispatch(code)| <= 1
    ensures Update(true) in Dispatch(code) <==> code == FullUpdateCode
    ensures Update(false) in Dispatch(code) <==> code == DifferentialUpdateCode
    ensures Dispatch(code) == [] <==> code != FullUpdateCode && code != DifferentialUpdateCode
  {
  }

  /** MediathekViewService.ReloadSettings: online reconfiguration is not
      supported, so the handler calls no collaborator. */
  function ReloadSettings(): seq<Event> {
    []
  }

  /** MediathekViewMonitor.onSettingsChanged: forwards to ReloadSettings. */
  function OnSettingsChanged(): seq<Event> {
    ReloadSettings()
  }

  /** The calls made by `n` deliveries of the settings-changed callback. */
  function Callbacks(n: nat): seq<Event> {
    if n == 0 then [] else OnSettingsChanged() + Callbacks(n - 1)
  }

  /** Does this iteration end the loop? */
  predicate Ends(t: Tick) {
    t.abortRequested || t.waitAborted
  }

  /** The updater reload issued when the settings report a change. */
  function ReloadCalls(changed: bool): seq<Event> {
    if changed then [UpdaterReload] else []
  }

  /** The calls of one pass of the loop body, once abortRequested answered
      false: reload the settings, reload the updater on a change, query and
      dispatch the operation, wait for abort. */
  function BodyCalls(t: Tick): seq<Event> {
    [SettingsReload(t.settingsChanged)]
    + ReloadCalls(t.settingsChanged)
    + [GetCurrentUpdateOperation(t.opCode)]
    + Dispatch(t.opCode)
    + [WaitForAbort(WaitSeconds, t.waitAborted)]
    + Callbacks(t.notifications)
  }

  /** The calls of one iteration of the loop: the abort check, followed by
      the loop body unless the check reports abort. */
  function TickEvents(t: Tick): seq<Event> {
    if t.abortRequested then [AbortRequested(true)]
    else [AbortRequested(false)] + BodyCalls(t)
  }

  /** MediathekViewService.Run driven by `script`: the calls made and how the
      loop ended. */
  function RunTrace(script: seq<Tick>): (r: Run)
    ensures |r.events| == 0 <==> |script| == 0
    decreases |script|
  {
    if |script| == 0 then Run([], OutOfScript)
    else
      var t := script[0];
      if t.abortRequested then Run(TickEvents(t), AbortSeen)
      else if t.waitAborted then Run(TickEvents(t), AbortDuringWait)
      else
        var rest := RunTrace(script[1..]);
        Run(TickEvents(t) + rest.events, rest.ending)
  }

  /** The loop returns exactly when some iteration of the script observes an
      abort, from abortRequested or from waitForAbort; it returns through
      abortRequested only if some iteration's check answered true.  The
      iterations after the one that observed the abort are never reached. */
  lemma {:induction false} RunReturnsIffAbortObserved(script: seq<Tick>)
    ensures RunTrace(script).ending == OutOfScript <==>
      forall k :: 0 <= k < |script| ==> !Ends(script[k])
    ensures RunTrace(script).ending == AbortSeen ==>
      exists k :: 0 <= k < |script| && script[k].abortRequested
    ensures forall k :: 0 <= k < |script| && Ends(script[k]) ==>
      RunTrace(script) == RunTrace(script[..k + 1])
    decreases |script|
  {
    if |script| > 0 {
      RunReturnsIffAbortObserved(script[1..]);
      assert forall k :: 1 <= k < |script| ==> script[k] == script[1..][k - 1];
      forall k | 1 <= k < |script| && Ends(script[k])
        ensures RunTrace(script) == RunTrace(script[..k + 1])
      {
        if !Ends(script[0]) {
          assert script[..k + 1][1..] == script[1..][..k];
        }
      }
    }
  }

  /** MediathekViewService.Init: register, initialise the updater, reset
      the user activity. */
  function InitTrace(): seq<Event> {
    [RegisterInstance, UpdaterInit, ResetUserActivity]
  }

  /** MediathekViewService.Exit: shut the updater down, then unregister. */
  function ExitTrace(): seq<Event> {
    [UpdaterExit, UnregisterInstance]
  }

  /** The script's main code: Init, then Run, then Exit once Run returns. */
  function ProgramTrace(script: seq<Tick>): seq<Event> {
    var run := RunTrace(script);
    InitTrace() + run.events + (if run.ending == OutOfScript then [] else ExitTrace())
  }

  /** The settings-changed callback makes no call at all, however often the
      host delivers it. */
  lemma {:induction false} CallbacksSilent(n: nat)
    ensures Callbacks(n) == []
  {
    if n > 0 {
      CallbacksSilent(n - 1);
    }
  }

  /** The order of the calls of one pass of the loop body, once
      abortRequested answered false: the settings reload comes first; the
      updater is reloaded, right after it, exactly when the settings report
      a change; the operation query follows (at `q`); an update is started
      right after the query for codes 1 (full) and 2 (differential) only; the
      15-second wait is the last call. */
  predicate InBodyOrder(t: Tick, events: seq<Event>) {
    var q := if t.settingsChanged then 2 else 1;
    && |events| == q + 2 + (if t.opCode == FullUpdateCode || t.opCode == DifferentialUpdateCode then 1 else 0)
    && events[0] == SettingsReload(t.settingsChanged)
    && (t.settingsChanged ==> events[1] == UpdaterReload)
    && events[q] == GetCurrentUpdateOperation(t.opCode)
    && (t.opCode == FullUpdateCode ==> events[q + 1] == Update(true))
    && (t.opCode == DifferentialUpdateCode ==> events[q + 1] == Update(false))
    && events[|events| - 1] == WaitForAbort(WaitSeconds, t.waitAborted)
  }

  /** One pass of the body of the loop in MediathekViewService.Run, after
      abortRequested answered false: its calls come in body order, and the
      updater reload and each kind of update occur exactly when the answers
      ask for them. */
  method LoopBody(t: Tick) returns (events: seq<Event>)
    ensures InBodyOrder(t, events)
    ensures UpdaterReload in events <==> t.settingsChanged
    ensures Update(true) in events <==> t.opCode == FullUpdateCode
    ensures Update(false) in events <==> t.opCode == DifferentialUpdateCode
  {
    events := [SettingsReload(t.settingsChanged)];
    if t.settingsChanged {
      events := events + [UpdaterReload];
    }
    events := events + [GetCurrentUpdateOperation(t.opCode)];
    if t.opCode == FullUpdateCode {
      events := events + [Update(true)];
    } else if t.opCode == DifferentialUpdateCode {
      events := events + [Update(false)];
    }
    events := events + [WaitForAbort(WaitSeconds, t.waitAborted)];
  }

  /** The iteration's calls in `RunTrace` are in body order. */
  lemma BodyCallsInOrder(t: Tick)
    ensures InBodyOrder(t, BodyCalls(t))
  {
    CallbacksSilent(t.notifications);
  }

  /** The body order leaves no freedom: any calls in that order are exactly
      the iteration's calls in `RunTrace`, whatever notifications arrive
      during the wait. */
  lemma BodyOrderDetermined(t: Tick, events: seq<Event>)
    requires InBodyOrder(t, events)
    ensures events == BodyCalls(t)
  {
    CallbacksSilent(t.notifications);
    var b := BodyCalls(t);
    assert b == [SettingsReload(t.settingsChanged)] + ReloadCalls(t.settingsChanged)
      + [GetCurrentUpdateOperation(t.opCode)] + Dispatch(t.opCode)
      + [WaitForAbort(WaitSeconds, t.waitAborted)];
    assert |b| == |events|;
    forall k | 0 <= k < |b|
      ensures b[k] == events[k]
    {
    }
  }

  /** MediathekViewService.Run as the source writes it: a while loop on
      abortRequested that breaks when waitForAbort reports abort.  It makes
      exactly the calls of `RunTrace`. */
  method RunLoop(script: seq<Tick>) returns (events: seq<Event>, ending: Ending)
    ensures Run(events, ending) == RunTrace(script)
  {
    events := [];
    ending := OutOfScript;
    var i := 0;
    while i < |script|
      invariant 0 <= i <= |script|
      invariant ending == OutOfScript
      invariant events + RunTrace(script[i..]).events == RunTrace(script).events
      invariant RunTrace(script[i..]).ending == RunTrace(script).ending
      decreases |script| - i
    {
      var t := script[i];
      assert script[i..][0] == t;
      if t.abortRequested {
        events := events + [AbortRequested(true)];
        ending := AbortSeen;
        break;
      }
      var body := LoopBody(t);
      BodyOrderDetermined(t, body);
      assert [AbortRequested(false)] + body == TickEvents(t);
      events := events + ([AbortRequested(false)] + body);
      if t.waitAborted {
        ending := AbortDuringWait;
        break;
      }
      assert script[i..][1..] == script[i + 1..];
      i := i + 1;
    }
  }
}

/** The lifecycle bracket of the service's main code: Init, Run, Exit. */
module Lifecycle {
  import opened Events
  import opened Service
  import opened TraceShape

  /** The loop itself never registers, initialises, resets, shuts down or
      unregisters anything. */
  lemma RunMakesNoLifecycleCall(script: seq<Tick>)
    ensures var e := RunTrace(script).events;
      forall i :: 0 <= i < |e| ==> !IsLifecycle(e[i])
  {
    var run := RunTrace(script);
    var e := run.events;
    RunTraceShape(script);
    forall i | 0 <= i < |e|
      ensures !IsLifecycle(e[i])
    {
      if i < |e| - 1 {
        assert Follows(e[i], e[i + 1]);
      } else {
        assert EndsAs(e, run.ending);
      }
    }
  }

  /** Init opens the program: register the instance, initialise the
      updater, reset the user activity, before any call of the loop. */
  lemma InitOpensProgram(script: seq<Tick>)
    ensures var p := ProgramTrace(script);
      |p| >= 3 && p[..3] == [RegisterInstance, UpdaterInit, ResetUserActivity]
    ensures var p := ProgramTrace(script);
      p[3..3 + |RunTrace(script).events|] == RunTrace(script).events
  {
  }

  /** Exit runs exactly when Run has returned: it shuts the updater down and
      then unregisters, after every call of the loop. */
  lemma ExitClosesProgram(script: seq<Tick>)
    ensures var p := ProgramTrace(script);
      var n := 3 + |RunTrace(script).events|;
      && n <= |p|
      && (RunTrace(script).ending != OutOfScript <==> |p| == n + 2)
      && (|p| == n + 2 ==> p[n..] == [UpdaterExit, UnregisterInstance])
    ensures RunTrace(script).ending == OutOfScript ==>
      ProgramTrace(script) == [RegisterInstance, UpdaterInit, ResetUserActivity]
        + RunTrace(script).events
  {
  }

  /** The program registers the instance first, then initialises the updater,
      then resets user activity; once Run returns it shuts the updater down
      and unregisters last.  RegisterInstance happens once, at the very
      start; UnregisterInstance at most once, at the very end, and only if
      Run returned. */
  lemma LifecycleBrackets(script: seq<Tick>)
    ensures var p := ProgramTrace(script);
      |p| >= 3 && p[0] == RegisterInstance && p[1] == UpdaterInit && p[2] == ResetUserActivity
    ensures var p := ProgramTrace(script);
      RunTrace(script).ending != OutOfScript ==>
        |p| >= 5 && p[|p| - 2] == UpdaterExit && p[|p| - 1] == UnregisterInstance
    ensures var p := ProgramTrace(script);
      RunTrace(script).ending == OutOfScript ==>
        forall i :: 0 <= i < |p| ==> p[i] != UpdaterExit && p[i] != UnregisterInstance
    ensures var p := ProgramTrace(script);
      forall i :: 0 <= i < |p| && p[i] == RegisterInstance ==> i == 0
    ensures var p := ProgramTrace(script);
      forall i :: 0 <= i < |p| && p[i] == UnregisterInstance ==>
        i == |p| - 1 && RunTrace(script).ending != OutOfScript
  {
    var run := RunTrace(script);
    var e := run.events;
    var p := ProgramTrace(script);
    RunMakesNoLifecycleCall(script);
    var tail := if run.ending == OutOfScript then [] else ExitTrace();
    assert p == InitTrace() + e + tail;
    forall i | 3 <= i < 3 + |e|
      ensures !IsLifecycle(p[i])
    {
      assert p[i] == e[i - 3];
      assert !IsLifecycle(RunTrace(script).events[i - 3]);
    }
    forall i | 3 + |e| <= i < |p|
      ensures p[i] == tail[i - 3 - |e|]
    {
    }
  }
}

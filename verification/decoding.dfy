/** Reading the collaborators' answers back out of a call trace.  Because
    every query call records its answer, the trace of a run determines the
    answers the loop acted on, and `Decode` recovers them: decoding the
    trace of a script gives the answers the loop observed (`DecodeRun`), and
    every trace `Decode` accepts is the trace of the decoded answers
    (`RunDecode`).  Answers the loop never looked at, notifications and the
    iterations after an abort leave no trace and are not recovered. */
module Decoding {
  import opened Events
  import opened Service
  import opened TraceShape
  import opened LoopProperties

  datatype Option<T> = None | Some(value: T)

  /** The answers of an iteration that are visible in its calls.  When
      abortRequested answers true nothing else is asked; notifications make
      no call. */
  function Observed(t: Tick): Tick {
    if t.abortRequested then Tick(true, false, 0, 0, false)
    else t.(notifications := 0)
  }

  /** The iterations the loop executes on `script`, as observed. */
  function ObservedScript(script: seq<Tick>): (r: seq<Tick>)
    ensures |r| <= |script|
    decreases |script|
  {
    if |script| == 0 then []
    else if Ends(script[0]) then [Observed(script[0])]
    else [Observed(script[0])] + ObservedScript(script[1..])
  }

  /** The answers of the iteration at the head of `e`, read off the calls
      that carry them; the caller still checks the calls themselves. */
  function Candidate(e: seq<Event>): Option<Tick> {
    if |e| == 0 || !e[0].AbortRequested? then None
    else if e[0].aborted then Some(Tick(true, false, 0, 0, false))
    else if |e| < 2 || !e[1].SettingsReload? then None
    else
      var changed := e[1].changed;
      var q := if changed then 3 else 2;
      if |e| <= q || !e[q].GetCurrentUpdateOperation? then None
      else
        var code := e[q].code;
        var w := q + 1 + |Dispatch(code)|;
        if |e| <= w || !e[w].WaitForAbort? then None
        else Some(Tick(false, changed, code, 0, e[w].aborted))
  }

  /** The iteration at the head of `e`, if `e` starts with one. */
  function ParseTick(e: seq<Event>): (r: Option<Tick>)
    ensures r.Some? ==> |TickEvents(r.value)| <= |e| && e[..|TickEvents(r.value)|] == TickEvents(r.value)
  {
    match Candidate(e)
    case None => None
    case Some(t) =>
      var n := |TickEvents(t)|;
      if n <= |e| && e[..n] == TickEvents(t) then Some(t) else None
  }

  /** The iterations whose calls make up `e`, or None if `e` is not the
      trace of a run. */
  function Decode(e: seq<Event>): Option<seq<Tick>>
    decreases |e|
  {
    if |e| == 0 then Some([])
    else
      match ParseTick(e)
      case None => None
      case Some(t) =>
        var n := |TickEvents(t)|;
        if Ends(t) then (if n == |e| then Some([t]) else None)
        else
          match Decode(e[n..])
          case None => None
          case Some(rest) => Some([t] + rest)
  }

  lemma ObservedSameCalls(t: Tick)
    ensures TickEvents(Observed(t)) == TickEvents(t)
    ensures Ends(Observed(t)) == Ends(t)
  {
    CallbacksSilent(t.notifications);
    CallbacksSilent(0);
  }

  /** The head iteration of a run is read back as its observed answers,
      whatever follows it. */
  lemma ParseTickEvents(t: Tick, rest: seq<Event>)
    ensures ParseTick(TickEvents(t) + rest) == Some(Observed(t))
  {
    var e := TickEvents(t) + rest;
    CallbacksSilent(t.notifications);
    ObservedSameCalls(t);
    if !t.abortRequested {
      var q := if t.settingsChanged then 3 else 2;
      var w := q + 1 + |Dispatch(t.opCode)|;
      assert e[0] == AbortRequested(false);
      assert e[1] == SettingsReload(t.settingsChanged);
      assert e[q] == GetCurrentUpdateOperation(t.opCode);
      assert e[w] == WaitForAbort(WaitSeconds, t.waitAborted);
      assert Candidate(e) == Some(Observed(t));
    } else {
      assert Candidate(e) == Some(Observed(t));
    }
    assert e[..|TickEvents(t)|] == TickEvents(t);
  }

  /** Decoding the trace of a run gives back the answers the loop acted
      on, iteration by iteration. */
  lemma {:induction false} DecodeRun(script: seq<Tick>)
    ensures Decode(RunTrace(script).events) == Some(ObservedScript(script))
    decreases |script|
  {
    if |script| > 0 {
      var t := script[0];
      ObservedSameCalls(t);
      if Ends(t) {
        ParseTickEvents(t, []);
        assert TickEvents(t) + [] == TickEvents(t);
      } else {
        var rest := RunTrace(script[1..]).events;
        var e := TickEvents(t) + rest;
        ParseTickEvents(t, rest);
        assert e[|TickEvents(t)|..] == rest;
        DecodeRun(script[1..]);
      }
    }
  }

  /** Whatever `Decode` accepts is exactly the trace of running the loop
      on the answers it decoded. */
  lemma {:induction false} RunDecode(e: seq<Event>)
    ensures Decode(e).Some? ==> RunTrace(Decode(e).value).events == e
    decreases |e|
  {
    if |e| > 0 && Decode(e).Some? {
      var t, n := DecodeSplit(e);
      if Ends(t) {
        RunSingle(t);
      } else {
        var rest := Decode(e[n..]).value;
        RunDecode(e[n..]);
        RunEventsPrefix(e, t, rest);
      }
    }
  }

  /** A decodable, non-empty trace starts with the `n` calls of a whole
      iteration `t`; it is either the last one or followed by a decodable
      rest. */
  lemma DecodeSplit(e: seq<Event>) returns (t: Tick, n: nat)
    requires |e| > 0 && Decode(e).Some?
    ensures ParseTick(e) == Some(t) && n == |TickEvents(t)|
    ensures 0 < n <= |e| && e[..n] == TickEvents(t)
    ensures Ends(t) ==> e == TickEvents(t) && Decode(e) == Some([t])
    ensures !Ends(t) ==> Decode(e[n..]).Some? && Decode(e) == Some([t] + Decode(e[n..]).value)
  {
    t := ParseTick(e).value;
    n := |TickEvents(t)|;
    assert TickEvents(t)[0].AbortRequested?;
    if Ends(t) {
      assert e == e[..n];
    }
  }

  /** A script whose first iteration ends the loop runs that iteration only. */
  lemma RunSingle(t: Tick)
    requires Ends(t)
    ensures RunTrace([t]).events == TickEvents(t)
  {
  }

  /** A trace that starts with the calls of a non-final iteration and
      continues with the calls of the run of `rest` is the trace of that
      iteration followed by `rest`. */
  lemma RunEventsPrefix(e: seq<Event>, t: Tick, rest: seq<Tick>)
    requires !Ends(t)
    requires |TickEvents(t)| <= |e| && e[..|TickEvents(t)|] == TickEvents(t)
    requires RunTrace(rest).events == e[|TickEvents(t)|..]
    ensures RunTrace([t] + rest).events == e
  {
    RunTraceCons(t, rest);
    assert e == e[..|TickEvents(t)|] + e[|TickEvents(t)|..];
  }

  /** A run whose first iteration does not end the loop continues with the
      run of the remaining script. */
  lemma RunTraceCons(t: Tick, rest: seq<Tick>)
    requires !Ends(t)
    ensures RunTrace([t] + rest) ==
      Run(TickEvents(t) + RunTrace(rest).events, RunTrace(rest).ending)
  {
    assert ([t] + rest)[1..] == rest;
  }

  /** The observed answers drive the loop to exactly the same calls and the
      same ending as the full script. */
  lemma ObservedScriptSameRun(script: seq<Tick>)
    ensures RunTrace(ObservedScript(script)) == RunTrace(script)
  {
    DecodeRun(script);
    RunDecode(RunTrace(script).events);
    AbortEndsRun(script);
    AbortEndsRun(ObservedScript(script));
  }

  lemma RunTraceSuffix(e: seq<Event>, n: nat, ending: Ending)
    requires IsRunTrace(e, ending)
    requires 0 < n < |e| && e[n].AbortRequested?
    ensures IsRunTrace(e[n..], ending)
  {
    var f := e[n..];
    forall i | 0 <= i < |f| - 1
      ensures Follows(f[i], f[i + 1])
    {
      assert f[i] == e[n + i] && f[i + 1] == e[n + i + 1];
    }
    assert f[|f| - 1] == e[|e| - 1];
  }

  /** In a trace of the right shape, an observed abort is the last call. */
  lemma AbortObservationIsLast(e: seq<Event>, ending: Ending, i: nat)
    requires IsRunTrace(e, ending)
    requires i < |e| && IsAbortObservation(e[i])
    ensures i == |e| - 1
  {
    forall j | 0 <= j < |e| - 1
      ensures !IsAbortObservation(e[j])
    {
      assert Follows(e[j], e[j + 1]);
    }
  }

  /** An iteration that passes the abort check is that check followed by
      the calls of the body, in body order. */
  lemma TickEventsAt(t: Tick)
    requires !t.abortRequested
    ensures TickEvents(t) == [AbortRequested(false)] + BodyCalls(t)
    ensures InBodyOrder(t, BodyCalls(t))
  {
    BodyCallsInOrder(t);
  }

  /** A run trace that does not start with an observed abort starts with a
      whole iteration, which `ParseTick` reads. */
  lemma HeadIteration(e: seq<Event>, ending: Ending) returns (tick: Tick)
    requires IsRunTrace(e, ending)
    requires |e| > 0 && e[0] == AbortRequested(false)
    ensures !tick.abortRequested
    ensures ParseTick(e) == Some(tick)
    ensures |TickEvents(tick)| < |e| ==>
      !tick.waitAborted && e[|TickEvents(tick)|].AbortRequested?
    ensures |TickEvents(tick)| == |e| ==>
      ending == if tick.waitAborted then AbortDuringWait else OutOfScript
  {
    assert EndsAs(e, ending);
    assert Follows(e[0], e[1]);
    var changed := e[1].changed;
    var q := if changed then 3 else 2;
    assert Follows(e[1], e[2]);
    if changed {
      assert Follows(e[2], e[3]);
    }
    var code := e[q].code;
    var d := Dispatch(code);
    var w := q + 1 + |d|;
    assert Follows(e[q], e[q + 1]);
    if |d| == 1 {
      assert Follows(e[q + 1], e[q + 2]);
    }
    tick := Tick(false, changed, code, 0, e[w].aborted);
    assert Candidate(e) == Some(tick);
    CallbacksSilent(0);
    var n := w + 1;
    var body := e[1..n];
    assert InBodyOrder(tick, body);
    BodyOrderDetermined(tick, body);
    TickEventsAt(tick);
    assert e[..n] == [e[0]] + body;
    if n < |e| {
      assert Follows(e[w], e[n]);
    }
  }

  /** The iteration at the head of a non-empty run trace: where it ends,
      and what remains after it. */
  lemma Head(e: seq<Event>, ending: Ending) returns (tick: Tick)
    requires IsRunTrace(e, ending) && |e| > 0
    ensures ParseTick(e) == Some(tick)
    ensures Ends(tick) ==>
      && |TickEvents(tick)| == |e|
      && ending == (if tick.abortRequested then AbortSeen else AbortDuringWait)
    ensures !Ends(tick) && |TickEvents(tick)| == |e| ==> ending == OutOfScript
    ensures |TickEvents(tick)| < |e| ==> !Ends(tick) && IsRunTrace(e[|TickEvents(tick)|..], ending)
  {
    assert EndsAs(e, ending);
    if e[0] == AbortRequested(true) {
      AbortObservationIsLast(e, ending, 0);
      tick := Tick(true, false, 0, 0, false);
      assert e == TickEvents(tick);
    } else {
      tick := HeadIteration(e, ending);
      var n := |TickEvents(tick)|;
      if n < |e| {
        RunTraceSuffix(e, n, ending);
      }
    }
  }

  /** A trace that is one final iteration decodes to that iteration. */
  lemma DecodeLast(e: seq<Event>, ending: Ending, tick: Tick)
    requires |e| > 0 && ParseTick(e) == Some(tick) && Ends(tick) && |TickEvents(tick)| == |e|
    requires ending == if tick.abortRequested then AbortSeen else AbortDuringWait
    ensures Decode(e) == Some([tick])
    ensures RunTrace([tick]) == Run(e, ending)
  {
    assert e == e[..|TickEvents(tick)|];
  }

  /** A trace that is a non-final iteration followed by a decodable rest
      decodes to that iteration followed by the rest. */
  lemma DecodeCons(e: seq<Event>, ending: Ending, tick: Tick, rest: seq<Tick>)
    requires |e| > 0 && ParseTick(e) == Some(tick) && !Ends(tick)
    requires Decode(e[|TickEvents(tick)|..]) == Some(rest)
    requires RunTrace(rest) == Run(e[|TickEvents(tick)|..], ending)
    ensures Decode(e) == Some([tick] + rest)
    ensures RunTrace([tick] + rest) == Run(e, ending)
  {
    RunEventsPrefix(e, tick, rest);
    RunTraceCons(tick, rest);
  }

  /** The converse of `RunTraceShape`: every sequence of calls with the
      shape `IsRunTrace` is the trace of some run of the loop, namely the run
      on the answers `Decode` reads from it, and that run ends as stated. */
  lemma {:induction false} ShapeIsExact(e: seq<Event>, ending: Ending)
    requires IsRunTrace(e, ending)
    ensures Decode(e).Some?
    ensures RunTrace(Decode(e).value) == Run(e, ending)
    decreases |e|
  {
    if |e| == 0 {
      assert EndsAs(e, ending);
    } else {
      var tick := Head(e, ending);
      var n := |TickEvents(tick)|;
      if Ends(tick) {
        DecodeLast(e, ending, tick);
      } else {
        if n < |e| {
          ShapeIsExact(e[n..], ending);
        } else {
          assert e[n..] == [];
        }
        DecodeCons(e, ending, tick, Decode(e[n..]).value);
      }
    }
  }
}

/** How many calls of each kind the loop of MediathekViewService.Run makes,
    relative to one another. */
module Counting {
  import opened Events
  import opened Service

  predicate PassesAbortCheck(ev: Event) { ev == AbortRequested(false) }
  predicate IsSettingsChange(ev: Event) { ev == SettingsReload(true) }
  predicate IsUpdaterReload(ev: Event) { ev == UpdaterReload }
  predicate IsQuery(ev: Event) { ev.GetCurrentUpdateOperation? }
  predicate IsUpdate(ev: Event) { ev.Update? }
  predicate IsWait(ev: Event) { ev.WaitForAbort? && ev.seconds == WaitSeconds }

  lemma CountSingle(x: Event, p: Event -> bool)
    ensures Count([x], p) == if p(x) then 1 else 0
  {
    assert [x][1..] == [];
  }

  /** Counts over a sequence that is either empty or holds one event. */
  lemma CountAtMostOne(s: seq<Event>, p: Event -> bool)
    requires |s| <= 1
    ensures Count(s, p) == if |s| == 1 && p(s[0]) then 1 else 0
  {
    if |s| == 1 {
      assert s == [s[0]];
      CountSingle(s[0], p);
    }
  }

  lemma CountPieces(a: seq<Event>, b: seq<Event>, c: seq<Event>, d: seq<Event>, e: seq<Event>,
                    f: seq<Event>, p: Event -> bool)
    requires |a| <= 1 && |b| <= 1 && |c| <= 1 && |d| <= 1 && |e| <= 1 && |f| <= 1
    ensures Count(a + (b + (c + (d + (e + f)))), p) ==
      (if |a| == 1 && p(a[0]) then 1 else 0) + (if |b| == 1 && p(b[0]) then 1 else 0)
      + (if |c| == 1 && p(c[0]) then 1 else 0) + (if |d| == 1 && p(d[0]) then 1 else 0)
      + (if |e| == 1 && p(e[0]) then 1 else 0) + (if |f| == 1 && p(f[0]) then 1 else 0)
  {
    CountAppend(e, f, p);
    CountAppend(d, e + f, p);
    CountAppend(c, d + (e + f), p);
    CountAppend(b, c + (d + (e + f)), p);
    CountAppend(a, b + (c + (d + (e + f))), p);
    CountAtMostOne(a, p);
    CountAtMostOne(b, p);
    CountAtMostOne(c, p);
    CountAtMostOne(d, p);
    CountAtMostOne(e, p);
    CountAtMostOne(f, p);
  }

  /** The calls of an iteration that passed the abort check, as pieces of
      at most one call each. */
  lemma PassedTickPieces(t: Tick) returns (pieces: seq<seq<Event>>)
    requires !t.abortRequested
    ensures |pieces| == 6
    ensures forall k :: 0 <= k < 6 ==> |pieces[k]| <= 1
    ensures TickEvents(t) ==
      pieces[0] + (pieces[1] + (pieces[2] + (pieces[3] + (pieces[4] + pieces[5]))))
    ensures pieces[0] == [AbortRequested(false)]
    ensures pieces[1] == [SettingsReload(t.settingsChanged)]
    ensures pieces[2] == if t.settingsChanged then [UpdaterReload] else []
    ensures pieces[3] == [GetCurrentUpdateOperation(t.opCode)]
    ensures pieces[4] == Dispatch(t.opCode)
    ensures pieces[5] == [WaitForAbort(WaitSeconds, t.waitAborted)]
  {
    CallbacksSilent(t.notifications);
    pieces := [[AbortRequested(false)], [SettingsReload(t.settingsChanged)],
               if t.settingsChanged then [UpdaterReload] else [],
               [GetCurrentUpdateOperation(t.opCode)], Dispatch(t.opCode),
               [WaitForAbort(WaitSeconds, t.waitAborted)]];
  }

  /** Counting `p` over an iteration that passed the abort check. */
  lemma PassedTickCount(t: Tick, p: Event -> bool)
    requires !t.abortRequested
    ensures Count(TickEvents(t), p) ==
      (if p(AbortRequested(false)) then 1 else 0)
      + (if p(SettingsReload(t.settingsChanged)) then 1 else 0)
      + (if t.settingsChanged && p(UpdaterReload) then 1 else 0)
      + (if p(GetCurrentUpdateOperation(t.opCode)) then 1 else 0)
      + (if |Dispatch(t.opCode)| == 1 && p(Dispatch(t.opCode)[0]) then 1 else 0)
      + (if p(WaitForAbort(WaitSeconds, t.waitAborted)) then 1 else 0)
  {
    var pieces := PassedTickPieces(t);
    CountPieces(pieces[0], pieces[1], pieces[2], pieces[3], pieces[4], pieces[5], p);
  }

  /** The calls of a single iteration, counted by kind. */
  lemma TickCounts(t: Tick)
    ensures Count(TickEvents(t), PassesAbortCheck) == if t.abortRequested then 0 else 1
    ensures Count(TickEvents(t), IsQuery) == Count(TickEvents(t), PassesAbortCheck)
    ensures Count(TickEvents(t), IsWait) == Count(TickEvents(t), PassesAbortCheck)
    ensures Count(TickEvents(t), IsSettingsChange) == Count(TickEvents(t), IsUpdaterReload)
    ensures Count(TickEvents(t), IsUpdaterReload) ==
      if !t.abortRequested && t.settingsChanged then 1 else 0
    ensures Count(TickEvents(t), IsUpdate) ==
      if !t.abortRequested && (t.opCode == FullUpdateCode || t.opCode == DifferentialUpdateCode)
      then 1 else 0
  {
    if t.abortRequested {
      CountSingle(AbortRequested(true), PassesAbortCheck);
      CountSingle(AbortRequested(true), IsQuery);
      CountSingle(AbortRequested(true), IsWait);
      CountSingle(AbortRequested(true), IsSettingsChange);
      CountSingle(AbortRequested(true), IsUpdaterReload);
      CountSingle(AbortRequested(true), IsUpdate);
    } else {
      PassedTickCount(t, PassesAbortCheck);
      PassedTickCount(t, IsQuery);
      PassedTickCount(t, IsWait);
      PassedTickCount(t, IsSettingsChange);
      PassedTickCount(t, IsUpdaterReload);
      PassedTickCount(t, IsUpdate);
    }
  }

  /** Over a whole run: every iteration that passes the abort check makes
      exactly one operation query and exactly one 15-second wait; there are
      no more updates than queries; and updater.Reload() is called exactly
      as often as settings.Reload() reports a change. */
  lemma {:induction false} IterationCounts(script: seq<Tick>)
    ensures var e := RunTrace(script).events;
      Count(e, IsQuery) == Count(e, PassesAbortCheck)
    ensures var e := RunTrace(script).events;
      Count(e, IsWait) == Count(e, PassesAbortCheck)
    ensures var e := RunTrace(script).events;
      Count(e, IsUpdate) <= Count(e, IsQuery)
    ensures var e := RunTrace(script).events;
      Count(e, IsUpdaterReload) == Count(e, IsSettingsChange)
    decreases |script|
  {
    if |script| > 0 {
      var t := script[0];
      TickCounts(t);
      if !Ends(t) {
        var rest := RunTrace(script[1..]).events;
        IterationCounts(script[1..]);
        CountAppend(TickEvents(t), rest, PassesAbortCheck);
        CountAppend(TickEvents(t), rest, IsQuery);
        CountAppend(TickEvents(t), rest, IsWait);
        CountAppend(TickEvents(t), rest, IsSettingsChange);
        CountAppend(TickEvents(t), rest, IsUpdaterReload);
        CountAppend(TickEvents(t), rest, IsUpdate);
      }
    }
  }
}

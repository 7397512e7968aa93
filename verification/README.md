# MediathekView service loop — a Dafny model

This project models the background service of the MediathekView Kodi add-on
(`service.py`): its lifecycle (`Init`, `Run`, `Exit`, run in that order by the
script's main code) and the update-scheduling loop inside `Run`. On each
iteration the loop checks whether abort was requested and asks the settings
whether they changed. If they did, it reloads the updater. It then asks the
updater for the current operation code: code 1 starts a full update, code 2 a
differential one, and any other code starts nothing. Finally it waits up to 15
seconds for abort and leaves the loop if the wait reports abort.

The monitor (`MediathekViewMonitor`, service.py:36, a `KodiInterlockedMonitor`),
the settings and the updater are collaborators. The monitor's own
`onSettingsChanged` is modelled; the rest of their code is not part of this
model. Every answer they give is
supplied by a script, one `Tick` per iteration:

- the answer of `abortRequested()`;
- the answer of `settings.Reload()`;
- the operation code;
- the answer of `waitForAbort(15)`;
- the number of settings-changed notifications the host delivers during the wait.

From the script the model computes the exact sequence of calls the service
makes on its collaborators (`Events.Event`). Each query call records the
answer it got. The trace is therefore a complete record of the interaction.

Modules:

- `Events` (events.dfy): the call events and counting over traces.
- `Service` (service.dfy): `Dispatch`, the settings-changed callback, one
  iteration (`TickEvents`), the loop as a function (`RunTrace`) and as the
  source's `while`/`break` loop (`RunLoop`), and `InitTrace`, `ExitTrace`,
  `ProgramTrace`.
- `TraceShape` (shape.dfy): an automaton over consecutive calls (`Follows`,
  `IsRunTrace`). It describes every loop trace without reference to the script.
- `LoopProperties` (loop_properties.dfy): reload ordering, exact dispatch, the
  wait closing each iteration, abort ending the run, and the callback having no
  effect.
- `Counting` (counting.dfy): call counts per iteration and per run.
- `Lifecycle` (lifecycle.dfy): the Init/Exit bracket around the loop.
- `Decoding` (decoding.dfy): reads the answers back out of a trace.
  Decoding the trace of a script gives the answers the loop observed
  (`ObservedScript`). Every trace that `Decode` accepts is the trace of the
  loop run on the decoded answers. The automaton is proved exact. `RunTrace`
  is not injective: answers the loop never looked at, notifications and the
  iterations after an abort leave no trace.
- `Scenarios` (scenarios.dfy): three concrete runs with their full traces.

A finite script can run out while the loop is still running. `RunTrace` then
reports `OutOfScript`, and `ProgramTrace` contains no `Exit` calls, because
`Run` has not returned.

## Model

| member | source | states |
|---|---|---|
| Service.RunTrace | service.py:59-80 | a run makes calls exactly when the script offers at least one iteration: even an immediate abort costs one `abortRequested` call |
| Service.RunReturnsIffAbortObserved | service.py:59-80 | `Run` returns exactly when some iteration observes an abort (from `abortRequested` or from `waitForAbort`); returning through `abortRequested` needs an iteration whose check answered true; the first iteration that observes abort is the last one, so nothing the script offers after it affects the run |
| Service.LoopBody | service.py:62-79 | one pass of the loop body after the abort check answered false: `settings.Reload()` comes first; `updater.Reload()` follows it exactly when the settings report a change; the operation query comes next; `Update(true)` is made exactly for code 1 and `Update(false)` exactly for code 2, right after the query; `waitForAbort(15)` is the last call; the pass makes 3 to 5 calls accordingly |
| Service.BodyCallsInOrder | service.py:62-79 | the calls of an iteration in `RunTrace` are in the body order `LoopBody` states, whatever notifications arrive during the wait |
| Service.BodyOrderDetermined | service.py:62-79 | the order stated for `LoopBody` leaves no freedom: any calls in that order are exactly the calls of an iteration of `RunTrace`, which is how `RunLoop` is tied to `RunTrace` |
| Service.DispatchByCode | service.py:67-75 | at most one update per operation code: `Update(true)` exactly for code 1, `Update(false)` exactly for code 2, none for any other code |
| Service.RunLoop | service.py:59-80 | the source's `while not abortRequested()` loop with `break` on `waitForAbort(15)` makes exactly the calls of `RunTrace` and ends the same way |
| Service.CallbacksSilent | service.py:87-94 | `ReloadSettings` (body `pass`), reached through `onSettingsChanged`, makes no call, however often it is delivered |
| TraceShape.TickShape | service.py:61-77 | every iteration starts with the abort check, steps only by the automaton `Follows`, and ends with the abort check (if it answered true) or with the 15-second wait |
| TraceShape.RunTraceShape | service.py:59-79 | every run trace is accepted by the automaton `IsRunTrace`: it starts with the abort check, each call follows its predecessor by `Follows`, and the last call matches how the run ended |
| LoopProperties.ReloadBeforeQuery | service.py:62-67 | `settings.Reload()` answering true is immediately followed by `updater.Reload()` and then by the operation query; answering false is followed by the query; `updater.Reload()` never happens otherwise |
| LoopProperties.DispatchExact | service.py:67-75 | after a query answering 1 comes `Update(true)`; after 2, `Update(false)`; after any other code, directly the wait. Every `Update` is preceded by the query that asked for it and followed by the wait, so an iteration makes at most one update |
| LoopProperties.WaitClosesIteration | service.py:76-79 | every wait passes 15 seconds and is the last call of its iteration: the next call, if any, is the next abort check; every abort check but the first follows a wait |
| LoopProperties.AbortEndsRun | service.py:61-79 | a call observing abort (`abortRequested` or `waitForAbort` answering true) is the last call of the run, so no reload, query, update or wait follows it; the run returned if and only if its last call observed abort, and returned through `abortRequested` if and only if that call was the abort check |
| LoopProperties.CallbacksInvisible | service.py:41-42 | the settings-changed callback has no effect: a run (and the whole program) with any pattern of notifications makes the same calls and ends the same way as with none |
| Counting.TickCounts | service.py:61-77 | one iteration that passes the abort check makes one query and one wait; it makes one `updater.Reload()` exactly when the settings changed, and one update exactly when the code is 1 or 2; an iteration stopped at the abort check makes none of these |
| Counting.IterationCounts | service.py:61-79 | over a run, queries and 15-second waits each equal the abort checks that answered false; updates never outnumber queries; `updater.Reload()` is called as often as `settings.Reload()` reports a change |
| Lifecycle.RunMakesNoLifecycleCall | service.py:59-80 | the loop never registers, initialises, resets, shuts down or unregisters |
| Lifecycle.InitOpensProgram | service.py:53-57 | `Init` makes `RegisterInstance`, `updater.Init`, `ResetUserActivity`, in that order, before any call of the loop, which follows directly |
| Lifecycle.ExitClosesProgram | service.py:82-85 | `Exit` follows the loop's last call exactly when `Run` has returned, and then makes `updater.Exit` followed by `UnregisterInstance` and nothing else; while `Run` has not returned, the program is exactly Init's three calls followed by the loop's calls |
| Lifecycle.LifecycleBrackets | service.py:97-101 | the program starts `RegisterInstance`, `updater.Init`, `ResetUserActivity` (Init); once `Run` returns it ends `updater.Exit`, `UnregisterInstance` (Exit), and while `Run` has not returned neither Exit call happens; `RegisterInstance` occurs only first and `UnregisterInstance` only last |
| Decoding.DecodeRun | service.py:61-79 | decoding the trace of a run gives back, iteration by iteration, every answer the loop acted on |
| Decoding.RunDecode | service.py:61-79 | whatever `Decode` accepts is exactly the trace of the loop run on the decoded answers |
| Decoding.ObservedScriptSameRun | service.py:61-79 | the answers visible in the trace drive the loop to the same calls and the same ending as the full script |
| Decoding.ShapeIsExact | service.py:59-79 | the converse of `RunTraceShape`: every call sequence accepted by `IsRunTrace` is the trace of some run, which ends as the automaton says |
| Scenarios.IdleRunThenAbort | service.py:59-80 | settings unchanged, no update due, abort at the third check: two waits, no update, then Exit, exact trace |
| Scenarios.FullUpdateThenAbortDuringWait | service.py:67-79 | a full update, then abort reported by the second wait: one `Update(true)` and no third iteration, exact trace |
| Scenarios.ReloadOnThirdIteration | service.py:62-75 | a settings change on the third iteration only: one `updater.Reload()`, before that iteration's query, then a differential update; with the script exhausted `Run` has not returned; exact trace |

## Left out

- Logging (`self.info`, `getNewLogger`, `setTopic`): it makes no collaborator call that affects control flow.
- Object construction in `__init__` (service.py:45-51) and `del service`: plumbing with no behaviour to state.
- The internals of `KodiInterlockedMonitor`, `KodiService`, `Settings`, `Notifier` and `MediathekViewUpdater`: they are not part of this model. They appear only as the calls recorded in the trace and the answers supplied by the script.
- Timing of `waitForAbort`: how long it blocks and when it returns early. Only its argument (15) and its boolean answer are modelled.
- Asynchronous delivery of `onSettingsChanged`: a tick carries only the number of notifications delivered during its wait. The callback makes no call, so where exactly it lands does not matter.
- Exceptions raised by collaborators: `service.py` has no `try`/`except`, so an exception would leave `Init`, `Run` or `Exit` and skip the remaining calls. The model assumes every collaborator call returns. If `updater.Exit()` raises, `UnregisterInstance` is skipped (service.py:84-85); the model does not model that failure.
- Non-boolean answers of `settings.Reload()`: the code tests `is True`, so a truthy non-boolean value would not reload the updater. The model takes the answer as a boolean, where `is True` and truth coincide.
- Non-integer operation codes: the code compares with `== 1` and `== 2`, and in Python a non-integer that equals 1 or 2 under `==` (`True`, `1.0`, `2.0`) behaves as that code. The model takes the code as an integer, which covers these values through the integer they equal; every other value starts no update, as every integer other than 1 and 2 does here.
- Abort after it was observed: once the loop has observed abort it makes no further call, so the answers the script gives later are never asked for. The script may report abort as cleared again afterwards, and no property depends on that.
- Endless runs: a script is finite, so a run that never observes abort is modelled only up to the end of its script (`OutOfScript`).
- The comment at service.py:76 says the loop waits 60 seconds; the code passes 15. The model follows the code.

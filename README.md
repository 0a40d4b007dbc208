# BasicWatcher: a verified model of a window state and title watcher

`BasicWatcher` watches one operating-system window. It polls the window's
visibility, title and existence, keeps the latest values in fields that
callers can read, and raises three events: VisibilityChanged, TitleChanged
(with the old and new title) and Disposed. The constructor polls once,
synchronously. A background thread then polls every 10 ms while the
`isRunning` flag holds. The flag is cleared by `Dispose()`, or by the
cycle that finds the window gone.

The model has three modules:

- `PollCycle` (`poll_cycle.dfy`) covers one poll cycle. `Snapshot` is a
  poll result, `Event` is a raised event and `State` is the watcher's
  fields. `Raised(prev, results)` gives the events of one `Update`, in
  order. `Step(st, results)` gives the fields after it, and
  `Stopped(st)` gives the fields after `Dispose()`.
- `PollLoop` (`poll_loop.dfy`) covers the background loop, run one cycle
  after another. `Loop(st, polls)` runs it over a given sequence of poll
  results. It returns the final state, the events in order and the number
  of `Update` calls. Induction lemmas state how the loop ends.
- `Watcher` (`basic_watcher.dfy`) holds the class `BasicWatcher`. Its
  fields are updated in place, and every raise call appends its event to
  an `events` log. The constructor, `Update`, `Dispose` and the loop `Run`
  are each proved against the functions above. Two client methods show
  what a caller can rely on.

Three behaviours of the code are easy to miss:

- In the cycle that finds the window gone, VisibilityChanged is still
  raised when the visibility differs, before Disposed. Only TitleChanged
  is suppressed.
- Disposed is raised even by the constructor's first poll, when there is
  no previous result.
- VisibilityChanged carries no old or new value. The code raises it with
  empty event arguments.

## Model

| member | source | states |
|---|---|---|
| PollCycle.Raised | src/BasicWatcher.cs:101-116 | One update raises at most two events. The first poll, with no previous result, raises only Disposed, and only if the window is gone. |
| PollCycle.RaisedCharacterised | src/BasicWatcher.cs:101-116 | VisibilityChanged is raised iff a previous poll exists and its visibility differs, and then comes first. Disposed is raised iff the new result is disposed, exactly once and last. TitleChanged is raised iff a previous poll exists, the result is not disposed and the titles differ; it carries (previous title, new title) and comes last. No event is raised twice. |
| PollCycle.Step | src/BasicWatcher.cs:93-111 | After an update, `lastPoll`, the visibility, the title and the disposed flag come from the new result alone, whatever the previous state was. The running flag is cleared exactly when the result is disposed and is never set. The resulting state is consistent. |
| PollCycle.Unpolled | src/BasicWatcher.cs:27-28 | Before the first poll there is no last poll result, the running flag is set and the window is not disposed. |
| PollCycle.Stopped | src/BasicWatcher.cs:86-89 | Disposing clears the running flag, changes no other field and keeps the state consistent. |
| PollCycle.StoppedIdempotent | src/BasicWatcher.cs:86-89 | Disposing twice has the same effect as disposing once. |
| PollCycle.IdenticalPollIsQuiet | src/BasicWatcher.cs:101-116 | A poll result equal to the stored, non-disposed one raises no event and leaves the state, including the running flag, unchanged. |
| PollCycle.FirstPollSeedsState | src/BasicWatcher.cs:69 | The constructor's poll stores its result, leaves the loop running unless the window is gone, and raises only Disposed, and only if the window is gone. |
| PollCycle.TitleChangeScenario | src/BasicWatcher.cs:113-116 | Changing only the title from "A" to "B" raises exactly TitleChanged("A", "B"). |
| PollCycle.VisibilityChangeScenario | src/BasicWatcher.cs:101-104 | Changing only the visibility raises exactly VisibilityChanged. |
| PollCycle.DisposalScenario | src/BasicWatcher.cs:101-111 | A window that vanishes while its visibility and title also change raises VisibilityChanged and then Disposed, and no TitleChanged. |
| PollLoop.Loop | src/BasicWatcher.cs:75-79 | The loop performs at most one update per poll result, never sets the running flag, and keeps the state consistent. |
| PollLoop.LoopUnfold | src/BasicWatcher.cs:75-79 | While the flag holds, one iteration is an update with the next poll result followed by the rest of the loop. |
| PollLoop.StoppedLoopIsInert | src/BasicWatcher.cs:75 | Once the running flag is clear, the loop performs no update, raises nothing and changes nothing. |
| PollLoop.LoopExit | src/BasicWatcher.cs:75-79 | The loop skips poll results only after the flag is cleared. If the loop clears the flag itself, the last result it processed was disposed. |
| PollLoop.LoopStopsAtFirstDisposal | src/BasicWatcher.cs:106-110 | A running loop processes exactly the results up to and including the first disposed one. It ends stopped and disposed, with Disposed as its last event. Later results make no difference. |
| PollLoop.DisposedAtMostOnce | src/BasicWatcher.cs:106-110 | Over any run, Disposed is raised at most once, and no event follows it. |
| PollLoop.LoopMirrorsLastPoll | src/BasicWatcher.cs:93-99 | After the loop, `lastPoll` and the readable fields equal the last processed poll result. With no update, the state and events are unchanged. |
| PollLoop.LoopConcatFinal | src/BasicWatcher.cs:75-79 | The state after a loop over `a + b` is the state after a loop over `b` that starts where the loop over `a` ended. |
| PollLoop.LoopConcatEvents | src/BasicWatcher.cs:75-79 | The events of a loop over `a + b` are the events of the loop over `a`, followed by those of the loop over `b` that continues it. |
| PollLoop.LoopConcatUpdates | src/BasicWatcher.cs:75-79 | The update count of a loop over `a + b` is the count over `a` plus the count over `b` when the loop continues from there. |
| PollLoop.LoopConcat | src/BasicWatcher.cs:75-79 | Running the loop over `a` and then over `b` is the same as running it over `a + b`. |
| PollLoop.DisposedStateIsInert | src/BasicWatcher.cs:106-110 | Once the stored poll result reports the window gone, the loop performs no further update, raises nothing and changes nothing. |
| PollLoop.Lifetime | src/BasicWatcher.cs:65-81 | Over a watcher's whole life (the constructor's poll, then the loop), Disposed is raised at most once and only as the last event. A watcher whose first poll finds the window gone raises only Disposed, during construction, and never polls again. A watcher still running at the end has processed every poll result and raised no Disposed. |
| PollLoop.NoDisposalWhileRunning | src/BasicWatcher.cs:106-110 | A loop still running at its end has raised no Disposed. |
| Watcher.BasicWatcher.constructor | src/BasicWatcher.cs:65-81 | Construction performs exactly one update, with the first poll result. The state mirrors that result and the flag is set unless the window is gone. The only possible event is Disposed, raised before any caller can attach a handler. |
| Watcher.BasicWatcher.Dispose | src/BasicWatcher.cs:86-89 | Dispose clears `isRunning` and changes no other field and no event. |
| Watcher.BasicWatcher.Update | src/BasicWatcher.cs:91-117 | The fields become `Step` of the old fields. The events are the old events followed by `Raised(old lastPoll, results)`. |
| Watcher.BasicWatcher.Run | src/BasicWatcher.cs:75-79 | The fields, the events and the update count are those of `Loop` from the old state. A stopped watcher's run changes nothing. Results are skipped only after the flag is cleared, and the flag is never set again. |

## Left out

- Threads, `Thread.Sleep(10)` and the `keepAlive` flag (background or foreground thread) are not modelled. The loop runs sequentially over a finite sequence of poll results, so it also ends when that sequence runs out.
- The race between `Dispose()` on the caller's thread and the loop's unsynchronised read of `isRunning` is not modelled. `Dispose()` takes effect between two cycles. In the code, a dispose issued during the sleep still allows one more `Update`.
- `WindowPoller` and its `Poll()` OS call are not part of this model. Each poll result is an input `Snapshot`, and the window handle is not represented.
- The constructors that take a `Process` or a `WindowInfo` only look up a handle through foreign types. They are not modelled.
- The base class `Watcher` is not part of this model. Its `IsVisible` and `Title` storage are fields of `BasicWatcher`, and its `Raise*` methods and .NET event invocation become appends to the `events` log. The title before the first poll, a null string in .NET, is modelled as the empty string. The constructor's poll overwrites it in any case.
- When handlers are attached is not modelled. `events` records every raise call, not the deliveries a handler receives. The constructor's poll (src/BasicWatcher.cs:69) runs before any caller can subscribe, so a Disposed event raised there reaches no handler. The background thread can also raise events before the caller subscribes.
- Handlers are assumed to return normally. In the code, an exception thrown by a handler escapes `Update`. For example, a throwing Disposed handler at src/BasicWatcher.cs:108 skips `isRunning = false` at line 109, and the loop keeps polling. The model cannot express this.

/**
 One poll cycle of a window watcher: what a single `Update` does to the
 watcher's state and which events it raises, as functions of the previous
 poll result and the new one.
 */
module PollCycle {

  datatype Option<+T> = None | Some(value: T)

  /** The result of polling the window once: visibility, title text and
      whether the window no longer exists. */
  datatype Snapshot = Snapshot(visible: bool, title: string, disposed: bool)

  /** The events a watcher raises. VisibilityChanged carries no payload
      (the source raises it with empty event arguments); TitleChanged
      carries the previous and the new title. */
  datatype Event =
    | VisibilityChanged
    | Disposed
    | TitleChanged(oldTitle: string, newTitle: string)

  /** The watcher's state: the stored last poll result, the three fields a
      caller can read, and the flag the background loop tests. */
  datatype State = State(
    lastPoll: Option<Snapshot>,
    isVisible: bool,
    title: string,
    isDisposed: bool,
    isRunning: bool)

  /** The state of a watcher whose fields are initialised but which has
      not polled yet: no last poll, the running flag set. */
  function Unpolled(): (st: State)
    ensures st.lastPoll.None? && st.isRunning && !st.isDisposed
  {
    State(None, false, "", false, true)
  }

  /** The readable fields mirror the last poll result, and a watcher that
      has seen its window disposed is no longer running. */
  predicate Consistent(st: State)
  {
    (st.lastPoll.Some? ==>
       st.isVisible == st.lastPoll.value.visible &&
       st.title == st.lastPoll.value.title &&
       st.isDisposed == st.lastPoll.value.disposed) &&
    (st.isDisposed ==> !st.isRunning)
  }

  /** Whether an event is a TitleChanged one. */
  predicate IsTitleChange(e: Event)
  {
    e.TitleChanged?
  }

  /** Whether the visibility differs from a previous poll result. */
  predicate VisibilityDiffers(prev: Option<Snapshot>, results: Snapshot)
  {
    prev.Some? && results.visible != prev.value.visible
  }

  /** Whether the title differs from a previous poll result. */
  predicate TitleDiffers(prev: Option<Snapshot>, results: Snapshot)
  {
    prev.Some? && results.title != prev.value.title
  }

  /** The events one `Update` raises, in order, given the previous poll
      result (None before the first poll) and the new one: a visibility
      change first, then either Disposed, which ends the cycle, or a title
      change. */
  function Raised(prev: Option<Snapshot>, results: Snapshot): (r: seq<Event>)
    ensures |r| <= 2
    // the very first poll raises no change, only a disposal
    ensures prev.None? ==> r == if results.disposed then [Disposed] else []
  {
    if VisibilityDiffers(prev, results) then
      if results.disposed then [VisibilityChanged, Disposed]
      else if TitleDiffers(prev, results) then
        [VisibilityChanged, TitleChanged(prev.value.title, results.title)]
      else [VisibilityChanged]
    else
      if results.disposed then [Disposed]
      else if TitleDiffers(prev, results) then [TitleChanged(prev.value.title, results.title)]
      else []
  }

  /** Which events one `Update` raises, and in which order. */
  lemma RaisedCharacterised(prev: Option<Snapshot>, results: Snapshot)
    ensures var r := Raised(prev, results);
      forall e :: multiset(r)[e] <= 1
    // visibility: raised iff the visibility differs, and then first
    ensures var r := Raised(prev, results);
      (VisibilityChanged in r <==> prev.Some? && prev.value.visible != results.visible) &&
      (VisibilityChanged in r ==> r[0] == VisibilityChanged)
    // disposal: raised iff the window is gone, exactly once, and last
    ensures var r := Raised(prev, results);
      (Disposed in r <==> results.disposed) &&
      (results.disposed ==> multiset(r)[Disposed] == 1 && r[|r| - 1] == Disposed)
    // title: raised iff not disposed and the title differs, and then last
    ensures var r := Raised(prev, results);
      (exists e :: e in r && IsTitleChange(e)) <==>
        prev.Some? && !results.disposed && prev.value.title != results.title
    ensures var r := Raised(prev, results);
      forall e :: e in r && IsTitleChange(e) ==>
        prev.Some? && e == TitleChanged(prev.value.title, results.title) && r[|r| - 1] == e
  {
    var r := Raised(prev, results);
    if !results.disposed && TitleDiffers(prev, results) {
      var change := TitleChanged(prev.value.title, results.title);
      assert IsTitleChange(change) && r[|r| - 1] == change;
    }
  }

  /** The state after one `Update` with the poll result `results`. */
  function Step(st: State, results: Snapshot): (r: State)
    // the stored poll and the readable fields come from `results` alone
    ensures r.lastPoll == Some(results)
    ensures r.isVisible == results.visible && r.title == results.title
    ensures r.isDisposed == results.disposed
    // the flag is only ever cleared, and cleared exactly when the window is gone
    ensures r.isRunning ==> st.isRunning
    ensures results.disposed ==> !r.isRunning
    ensures !results.disposed ==> r.isRunning == st.isRunning
    ensures Consistent(r)
  {
    State(Some(results), results.visible, results.title, results.disposed,
          if results.disposed then false else st.isRunning)
  }

  /** The state after `Dispose`: the flag cleared, nothing else touched. */
  function Stopped(st: State): (r: State)
    ensures !r.isRunning
    ensures r.lastPoll == st.lastPoll && r.isVisible == st.isVisible
    ensures r.title == st.title && r.isDisposed == st.isDisposed
    ensures Consistent(st) ==> Consistent(r)
  {
    st.(isRunning := false)
  }

  /** Disposing twice is disposing once. */
  lemma StoppedIdempotent(st: State)
    ensures Stopped(Stopped(st)) == Stopped(st)
  {
  }

  /** Polling a window whose state equals the stored, non-disposed result
      raises nothing and leaves a consistent state exactly as it was. */
  lemma IdenticalPollIsQuiet(st: State, s: Snapshot)
    requires Consistent(st) && st.lastPoll == Some(s) && !s.disposed
    ensures Raised(st.lastPoll, s) == []
    ensures Step(st, s) == st
  {
  }

  /** The first cycle: from the unpolled state, the result is stored, the
      flag stays set unless the window is already gone, and the only event
      possible is Disposed. */
  lemma FirstPollSeedsState(s: Snapshot)
    ensures Step(Unpolled(), s).lastPoll == Some(s)
    ensures Step(Unpolled(), s).isRunning == !s.disposed
    ensures Raised(Unpolled().lastPoll, s) == if s.disposed then [Disposed] else []
  {
  }

  /** A title change alone raises exactly one TitleChanged with both titles. */
  lemma TitleChangeScenario()
    ensures Raised(Some(Snapshot(true, "A", false)), Snapshot(true, "B", false))
            == [TitleChanged("A", "B")]
  {
  }

  /** A visibility change alone raises exactly one VisibilityChanged. */
  lemma VisibilityChangeScenario()
    ensures Raised(Some(Snapshot(true, "A", false)), Snapshot(false, "A", false))
            == [VisibilityChanged]
  {
  }

  /** When the window vanishes while its visibility and title also change,
      VisibilityChanged is still raised, before Disposed, and the title
      change is not reported. */
  lemma DisposalScenario()
    ensures Raised(Some(Snapshot(true, "A", false)), Snapshot(false, "B", true))
            == [VisibilityChanged, Disposed]
  {
  }
}

/**
 The watcher for one window handle. Its fields are updated in place by
 `Update`; the constructor takes one synchronous poll and the background
 loop is `Run`, which consumes poll results while the running flag holds.
 The window poller is not modelled: each `Update` receives the result of
 the poll as a parameter. Raising an event appends it to `events`,
 whether or not a handler is attached.
 */
module Watcher {
  import opened PollCycle
  import opened PollLoop

  class BasicWatcher {
    var lastPoll: Option<Snapshot>
    var isVisible: bool
    var title: string
    var isDisposed: bool
    var isRunning: bool
    /** Every event raised so far, in the order it was raised. This records
        raise calls, not deliveries: an event raised before a handler is
        attached reaches no one. */
    var events: seq<Event>

    /** The watcher's fields as a state value. */
    function Abs(): State
      reads this
    {
      State(lastPoll, isVisible, title, isDisposed, isRunning)
    }

    ghost predicate Valid()
      reads this
    {
      Consistent(Abs())
    }

    /** Initialises the fields, polls the window once synchronously, and
        leaves the watcher ready for its background loop. */
    constructor (first: Snapshot)
      ensures Valid()
      ensures Abs() == Step(Unpolled(), first)
      ensures events == Raised(None, first)
      ensures lastPoll == Some(first)
      ensures isRunning == !first.disposed
      ensures events == if first.disposed then [Disposed] else []
    {
      lastPoll := None;
      isVisible := false;
      title := "";
      isDisposed := false;
      isRunning := true;
      events := [];
      new;
      Update(first);
    }

    /** Requests the background loop to stop; nothing else changes. */
    method Dispose()
      modifies this
      ensures Abs() == Stopped(old(Abs()))
      ensures !isRunning
      ensures lastPoll == old(lastPoll) && isVisible == old(isVisible)
      ensures title == old(title) && isDisposed == old(isDisposed)
      ensures events == old(events)
      ensures old(Valid()) ==> Valid()
    {
      isRunning := false;
    }

    /** One poll cycle with the poll result `results`. */
    method Update(results: Snapshot)
      modifies this
      ensures Valid()
      ensures Abs() == Step(old(Abs()), results)
      ensures events == old(events) + Raised(old(lastPoll), results)
      ensures lastPoll == Some(results)
      ensures isVisible == results.visible && title == results.title
      ensures isDisposed == results.disposed
      ensures isRunning == (old(isRunning) && !results.disposed)
    {
      var prev := lastPoll;
      lastPoll := Some(results);

      isVisible := results.visible;
      title := results.title;
      isDisposed := results.disposed;

      if prev.Some? && results.visible != prev.value.visible {
        events := events + [VisibilityChanged];
      }

      if results.disposed {
        events := events + [Disposed];
        isRunning := false;
        return;
      }

      if prev.Some? && results.title != prev.value.title {
        events := events + [TitleChanged(prev.value.title, results.title)];
      }
    }

    /** The background loop: while the running flag holds and a poll result
        is left, performs one `Update` with it. Returns how many `Update`
        calls were made. */
    method Run(polls: seq<Snapshot>) returns (updates: nat)
      requires Valid()
      modifies this
      ensures Valid()
      ensures Abs() == Loop(old(Abs()), polls).final
      ensures events == old(events) + Loop(old(Abs()), polls).events
      ensures updates == Loop(old(Abs()), polls).updates
      ensures updates <= |polls|
      ensures updates < |polls| ==> !isRunning
      ensures !old(isRunning) ==> updates == 0 && Abs() == old(Abs()) && events == old(events)
      ensures isRunning ==> old(isRunning)
    {
      ghost var start := Abs();
      ghost var before := events;
      ghost var whole := Loop(start, polls);
      updates := 0;
      while isRunning && updates < |polls|
        invariant updates <= |polls|
        invariant Valid()
        invariant Loop(Abs(), polls[updates..]).final == whole.final
        invariant events + Loop(Abs(), polls[updates..]).events == before + whole.events
        invariant updates + Loop(Abs(), polls[updates..]).updates == whole.updates
        decreases |polls| - updates
      {
        ghost var st := Abs();
        ghost var ev := events;
        LoopUnfold(st, polls, updates);
        Update(polls[updates]);
        updates := updates + 1;
        ghost var rest := Loop(Abs(), polls[updates..]);
        assert ev + (Raised(st.lastPoll, polls[updates - 1]) + rest.events) == events + rest.events;
      }
      LoopExit(start, polls);
    }
  }

  /** A caller constructs a watcher, lets the loop run, disposes it, and
      lets the loop run again: the second run does nothing. */
  method DisposeStopsWatcher(first: Snapshot, polls: seq<Snapshot>, more: seq<Snapshot>)
  {
    var w := new BasicWatcher(first);
    var n := w.Run(polls);
    w.Dispose();
    var state, seen := w.Abs(), w.events;
    var m := w.Run(more);
    assert m == 0 && w.Abs() == state && w.events == seen;
  }

  /** If the first poll already reports the window gone, the watcher raises
      Disposed once, during construction, and its loop never polls. */
  method GoneAtConstruction(first: Snapshot, polls: seq<Snapshot>)
    requires first.disposed
  {
    var w := new BasicWatcher(first);
    var n := w.Run(polls);
    assert n == 0 && w.events == [Disposed] && w.isDisposed;
  }
}

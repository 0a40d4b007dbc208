/**
 The background sampling loop of a window watcher, sequentialised: the
 loop tests the running flag, then performs one `Update` with the next
 poll result, and stops once the flag is clear or the given poll results
 are used up.
 */
module PollLoop {
  import opened PollCycle

  /** What a run of the loop produces: the final state, the events raised
      in order, and how many `Update` calls were made. */
  datatype Trace = Trace(final: State, events: seq<Event>, updates: nat)

  /** Runs the loop from `st` over the successive poll results `polls`. */
  function Loop(st: State, polls: seq<Snapshot>): (r: Trace)
    ensures r.updates <= |polls|
    ensures r.final.isRunning ==> st.isRunning
    ensures Consistent(st) ==> Consistent(r.final)
    decreases |polls|
  {
    if !st.isRunning || polls == [] then
      Trace(st, [], 0)
    else
      var rest := Loop(Step(st, polls[0]), polls[1..]);
      Trace(rest.final, Raised(st.lastPoll, polls[0]) + rest.events, rest.updates + 1)
  }

  /** One cycle of a running loop over the suffix `polls[i..]`: an
      `Update` with `polls[i]`, then the loop over `polls[i + 1..]`. */
  lemma LoopUnfold(st: State, polls: seq<Snapshot>, i: nat)
    requires st.isRunning && i < |polls|
    ensures var rest := Loop(Step(st, polls[i]), polls[i + 1..]);
      Loop(st, polls[i..])
        == Trace(rest.final, Raised(st.lastPoll, polls[i]) + rest.events, rest.updates + 1)
  {
    assert polls[i..][0] == polls[i];
    assert polls[i..][1..] == polls[i + 1..];
  }

  /** A stopped watcher's loop performs no `Update`: no event, no change. */
  lemma StoppedLoopIsInert(st: State, polls: seq<Snapshot>)
    requires !st.isRunning
    ensures Loop(st, polls) == Trace(st, [], 0)
  {
  }

  /** The loop leaves early only because the flag was cleared, and on its
      own it clears the flag only on a disposed poll result, which is then
      the last one it processed. */
  lemma {:induction false} LoopExit(st: State, polls: seq<Snapshot>)
    ensures var r := Loop(st, polls);
      r.updates < |polls| ==> !r.final.isRunning
    ensures var r := Loop(st, polls);
      st.isRunning && !r.final.isRunning ==>
        0 < r.updates && polls[r.updates - 1].disposed && r.final.isDisposed
    decreases |polls|
  {
    if st.isRunning && polls != [] {
      LoopExit(Step(st, polls[0]), polls[1..]);
    }
  }

  /** A running loop stops at the first disposed poll result: it performs
      exactly the updates up to and including it, ends with Disposed, and
      what follows in `polls` makes no difference. */
  lemma {:induction false} LoopStopsAtFirstDisposal(st: State, polls: seq<Snapshot>, k: nat)
    requires st.isRunning
    requires k < |polls| && polls[k].disposed
    requires forall j :: 0 <= j < k ==> !polls[j].disposed
    ensures var r := Loop(st, polls);
      r.updates == k + 1 && !r.final.isRunning && r.final.isDisposed &&
      r.final.lastPoll == Some(polls[k]) &&
      |r.events| > 0 && r.events[|r.events| - 1] == Disposed
    ensures Loop(st, polls) == Loop(st, polls[..k + 1])
    decreases k
  {
    var prefix := polls[..k + 1];
    var next := Step(st, polls[0]);
    assert prefix[0] == polls[0];
    var rest := Loop(next, polls[1..]);
    var restPrefix := Loop(next, prefix[1..]);
    assert Loop(st, polls) == Trace(rest.final, Raised(st.lastPoll, polls[0]) + rest.events, rest.updates + 1);
    assert Loop(st, prefix) == Trace(restPrefix.final, Raised(st.lastPoll, polls[0]) + restPrefix.events, restPrefix.updates + 1);
    if k == 0 {
      StoppedLoopIsInert(next, polls[1..]);
      StoppedLoopIsInert(next, prefix[1..]);
    } else {
      assert polls[1..][k - 1] == polls[k];
      assert prefix[1..] == polls[1..][..k];
      LoopStopsAtFirstDisposal(next, polls[1..], k - 1);
    }
  }

  /** Disposed is raised at most once over a whole run, and once it is
      raised no further event follows it. */
  lemma {:induction false} DisposedAtMostOnce(st: State, polls: seq<Snapshot>)
    ensures var r := Loop(st, polls);
      multiset(r.events)[Disposed] <= 1 &&
      (Disposed in r.events ==> r.events[|r.events| - 1] == Disposed)
    decreases |polls|
  {
    if st.isRunning && polls != [] {
      var next := Step(st, polls[0]);
      var head := Raised(st.lastPoll, polls[0]);
      var rest := Loop(next, polls[1..]);
      if polls[0].disposed {
        StoppedLoopIsInert(next, polls[1..]);
        assert Loop(st, polls).events == head;
      } else {
        DisposedAtMostOnce(next, polls[1..]);
        assert Disposed !in head;
        assert multiset(head + rest.events) == multiset(head) + multiset(rest.events);
        if rest.events == [] {
          assert head + rest.events == head;
        }
      }
    }
  }

  /** After the loop, the readable state mirrors the last poll result it
      processed; with no update the state is untouched. */
  lemma {:induction false} LoopMirrorsLastPoll(st: State, polls: seq<Snapshot>)
    ensures var r := Loop(st, polls);
      r.updates == 0 ==> r.final == st && r.events == []
    ensures var r := Loop(st, polls);
      r.updates > 0 ==>
        r.final.lastPoll == Some(polls[r.updates - 1]) &&
        r.final.isVisible == polls[r.updates - 1].visible &&
        r.final.title == polls[r.updates - 1].title &&
        r.final.isDisposed == polls[r.updates - 1].disposed
    decreases |polls|
  {
    if st.isRunning && polls != [] {
      var next := Step(st, polls[0]);
      LoopMirrorsLastPoll(next, polls[1..]);
      var rest := Loop(next, polls[1..]);
      if rest.updates > 0 {
        assert polls[1..][rest.updates - 1] == polls[rest.updates];
      }
    }
  }

  /** The state at the end of a loop over `a + b` is the state at the end
      of a loop over `b` started where the loop over `a` ended. */
  lemma {:induction false} LoopConcatFinal(st: State, a: seq<Snapshot>, b: seq<Snapshot>)
    ensures Loop(st, a + b).final == Loop(Loop(st, a).final, b).final
    decreases |a|
  {
    if a == [] {
      assert a + b == b;
    } else if st.isRunning {
      LoopConcatFinal(Step(st, a[0]), a[1..], b);
      LoopUnfold(st, a + b, 0);
      assert (a + b)[0..] == a + b;
      assert (a + b)[1..] == a[1..] + b;
    }
  }

  /** The events of a loop over `a + b` are those of the loop over `a`
      followed by those of the loop over `b` that continues it. */
  lemma {:induction false} LoopConcatEvents(st: State, a: seq<Snapshot>, b: seq<Snapshot>)
    ensures Loop(st, a + b).events == Loop(st, a).events + Loop(Loop(st, a).final, b).events
    decreases |a|
  {
    if a == [] {
      assert a + b == b;
    } else if st.isRunning {
      var next := Step(st, a[0]);
      LoopConcatEvents(next, a[1..], b);
      LoopUnfold(st, a + b, 0);
      assert (a + b)[0..] == a + b;
      assert (a + b)[1..] == a[1..] + b;
      var head := Raised(st.lastPoll, a[0]);
      var ra := Loop(next, a[1..]);
      var rb := Loop(ra.final, b);
      assert head + (ra.events + rb.events) == (head + ra.events) + rb.events;
    }
  }

  /** The updates of a loop over `a + b` are those of the loop over `a`
      plus those of the loop over `b` that continues it. */
  lemma {:induction false} LoopConcatUpdates(st: State, a: seq<Snapshot>, b: seq<Snapshot>)
    ensures Loop(st, a + b).updates == Loop(st, a).updates + Loop(Loop(st, a).final, b).updates
    decreases |a|
  {
    if a == [] {
      assert a + b == b;
    } else if st.isRunning {
      LoopConcatUpdates(Step(st, a[0]), a[1..], b);
      LoopUnfold(st, a + b, 0);
      assert (a + b)[0..] == a + b;
      assert (a + b)[1..] == a[1..] + b;
    }
  }

  /** Running the loop over `a` and then over `b` is running it over
      `a + b`: the loop can be paused between cycles (for instance for the
      caller to dispose the watcher) without changing what it does. */
  lemma LoopConcat(st: State, a: seq<Snapshot>, b: seq<Snapshot>)
    ensures var ra := Loop(st, a);
      var rb := Loop(ra.final, b);
      Loop(st, a + b) == Trace(rb.final, ra.events + rb.events, ra.updates + rb.updates)
  {
    LoopConcatFinal(st, a, b);
    LoopConcatEvents(st, a, b);
    LoopConcatUpdates(st, a, b);
  }

  /** Once the watcher holds a poll result that reports the window gone,
      the loop performs no further `Update` and raises nothing. */
  lemma DisposedStateIsInert(st: State, polls: seq<Snapshot>)
    requires Consistent(st) && st.isDisposed
    ensures Loop(st, polls) == Trace(st, [], 0)
  {
  }

  /** A watcher's whole life: the constructor's one synchronous poll
      `first`, then the loop over `polls`. Disposed is raised at most once
      and only as the last event, the loop polls only if the first result
      did not report the window gone, and a watcher still running at the
      end has never seen its window disposed. */
  lemma {:induction false} Lifetime(first: Snapshot, polls: seq<Snapshot>)
    ensures var r := Loop(Step(Unpolled(), first), polls);
      var all := Raised(None, first) + r.events;
      multiset(all)[Disposed] <= 1 && (Disposed in all ==> all[|all| - 1] == Disposed)
    ensures var r := Loop(Step(Unpolled(), first), polls);
      first.disposed ==> r.updates == 0 && Raised(None, first) + r.events == [Disposed]
    ensures var r := Loop(Step(Unpolled(), first), polls);
      r.final.isRunning ==>
        Disposed !in Raised(None, first) + r.events && r.updates == |polls|
  {
    var seeded := Step(Unpolled(), first);
    var r := Loop(seeded, polls);
    var all := Raised(None, first) + r.events;
    if first.disposed {
      StoppedLoopIsInert(seeded, polls);
      assert all == [Disposed];
    } else {
      assert Raised(None, first) == [];
      assert all == r.events;
      DisposedAtMostOnce(seeded, polls);
      LoopExit(seeded, polls);
      NoDisposalWhileRunning(seeded, polls);
    }
  }

  /** A loop that is still running at its end has raised no Disposed. */
  lemma {:induction false} NoDisposalWhileRunning(st: State, polls: seq<Snapshot>)
    ensures Loop(st, polls).final.isRunning ==> Disposed !in Loop(st, polls).events
    decreases |polls|
  {
    if st.isRunning && polls != [] {
      var next := Step(st, polls[0]);
      NoDisposalWhileRunning(next, polls[1..]);
    }
  }
}

/** Safety of the sequencer over arbitrary event traces: groups start front
    to back, a group starts only once every task of the previous one was
    reported finished, and the callback runs at most once, after which
    nothing reacts. */
module SequencerSafety {
  import opened Values
  import opened Sequencer

  // ---------------------------------------------------------------------
  // Views of the log

  /** The groups passed to `gulp.start`, in call order. */
  function Starts(log: seq<Action>): (r: seq<seq<Value>>)
    decreases |log|
  {
    if |log| == 0 then []
    else
      var last := log[|log| - 1];
      Starts(log[..|log| - 1]) + (if last.Start? then [last.tasks] else [])
  }

  /** How often the completion callback was called. */
  function Calls(log: seq<Action>): (r: nat)
    decreases |log|
  {
    if |log| == 0 then 0
    else Calls(log[..|log| - 1]) + (if log[|log| - 1].Called? then 1 else 0)
  }

  /** The groups as `gulp.start` receives them, in argument order. */
  function Expected(taskSets: seq<Value>): (r: seq<seq<Value>>) {
    seq(|taskSets|, i requires 0 <= i < |taskSets| => Members(taskSets[i]))
  }

  predicate OnlyStarts(log: seq<Action>) {
    forall i :: 0 <= i < |log| ==> log[i].Start?
  }

  /** What validation guarantees of the groups the sequencer runs: at least
      one, each non-empty and made of task names only. */
  predicate Runnable(taskSets: seq<Value>) {
    && |taskSets| > 0
    && (forall i :: 0 <= i < |taskSets| ==> |Members(taskSets[i])| > 0)
    && (forall i, j :: 0 <= i < |taskSets| && 0 <= j < |Members(taskSets[i])| ==> Members(taskSets[i])[j].Str?)
  }

  /** The invariant of a run over the groups `orig`:
      - the queue is a suffix of `orig` and the groups before it were started,
        in order, each exactly once;
      - the current group holds task names only;
      - while listening, the current group is non-empty and nothing but
        starts has happened;
      - after the listeners are gone, only the last entry of the log may be
        a report, and it is a call of the callback exactly when there is
        one. */
  ghost predicate Inv(orig: seq<Value>, s: State) {
    && Runnable(orig)
    && |s.queue| <= |orig|
    && s.queue == orig[|orig| - |s.queue|..]
    && Starts(s.log) == Expected(orig[..|orig| - |s.queue|])
    && (forall j :: 0 <= j < |s.current| ==> s.current[j].Str?)
    && (s.listening ==> |s.current| > 0 && OnlyStarts(s.log))
    && (!s.listening ==>
          && |s.log| > 0
          && OnlyStarts(s.log[..|s.log| - 1])
          && (s.log[|s.log| - 1].Called? <==> s.hasCallback))
  }

  // ---------------------------------------------------------------------
  // Helper facts about the log views

  lemma StartsAppend(log: seq<Action>, tail: seq<Action>)
    requires |tail| <= 1
    ensures Starts(log + tail) == Starts(log) + (if |tail| == 1 && tail[0].Start? then [tail[0].tasks] else [])
  {
    if |tail| == 1 {
      assert (log + tail)[..|log + tail| - 1] == log;
    } else {
      assert log + tail == log;
    }
  }

  lemma CallsAppend(log: seq<Action>, a: Action)
    ensures Calls(log + [a]) == Calls(log) + (if a.Called? then 1 else 0)
  {
    assert (log + [a])[..|log|] == log;
  }

  lemma {:induction false} OnlyStartsNoCalls(log: seq<Action>)
    requires OnlyStarts(log)
    ensures Calls(log) == 0
    decreases |log|
  {
    if |log| > 0 {
      OnlyStartsNoCalls(log[..|log| - 1]);
    }
  }

  lemma ExpectedExtend(orig: seq<Value>, k: nat)
    requires k < |orig|
    ensures Expected(orig[..k + 1]) == Expected(orig[..k]) + [Members(orig[k])]
  {
  }

  // ---------------------------------------------------------------------
  // The invariant holds from the start and is kept by every event

  lemma BeginInv(orig: seq<Value>, hasCallback: bool)
    requires Runnable(orig)
    ensures Inv(orig, Begin(orig, hasCallback))
  {
    var s := Begin(orig, hasCallback);
    assert orig[..0] == [];
    ExpectedExtend(orig, 0);
    StartsAppend([], [Start(Members(orig[0]))]);
    assert s.queue == orig[|orig| - |s.queue|..];
    assert Members(orig[0]) == Members(orig[0 + 0]);
  }

  /** Starting the next group, or finishing when none is left, from a
      listening state whose current group has just emptied. */
  lemma RunNextSetInv(orig: seq<Value>, s: State)
    requires Runnable(orig) && s.listening && OnlyStarts(s.log)
    requires |s.queue| <= |orig| && s.queue == orig[|orig| - |s.queue|..]
    requires Starts(s.log) == Expected(orig[..|orig| - |s.queue|])
    requires forall j :: 0 <= j < |s.current| ==> s.current[j].Str?
    ensures Inv(orig, RunNextSet(s))
  {
    var r := RunNextSet(s);
    var k := |orig| - |s.queue|;
    if |s.queue| > 0 {
      assert s.queue[0] == orig[k];
      ExpectedExtend(orig, k);
      StartsAppend(s.log, [Start(Members(s.queue[0]))]);
      assert r.queue == orig[|orig| - |r.queue|..];
      assert |Members(orig[k])| > 0;
      forall j | 0 <= j < |r.current|
        ensures r.current[j].Str?
      {
        assert r.current[j] == Members(orig[k])[j];
      }
    } else {
      StartsAppend(s.log, Report(s.hasCallback, None));
      if |r.log| == |s.log| {
        assert r.log == s.log;
        assert |orig[..k]| > 0;
        assert |Starts(s.log)| > 0;
      }
      assert r.log[..|r.log| - 1] == s.log || r.log == s.log;
    }
  }

  lemma OnErrorInv(orig: seq<Value>, s: State, err: string)
    requires Inv(orig, s) && s.listening
    ensures Inv(orig, OnError(s, err))
  {
    var r := OnError(s, err);
    StartsAppend(s.log, Report(s.hasCallback, Some(err)));
    assert r.log[..|r.log| - 1] == s.log;
  }

  lemma OnTaskEndInv(orig: seq<Value>, s: State, n: Notification)
    requires Inv(orig, s) && s.listening
    ensures Inv(orig, OnTaskEnd(s, n))
  {
    var idx := IndexOf(s.current, Key(n));
    var rest := if idx > -1 then RemoveAt(s.current, idx) else s.current;
    var s' := s.(current := rest);
    assert forall j :: 0 <= j < |rest| ==> rest[j].Str?;
    if |rest| == 0 {
      RunNextSetInv(orig, s');
    }
  }

  lemma DeliverInv(orig: seq<Value>, s: State, e: Event)
    requires Inv(orig, s)
    ensures Inv(orig, Deliver(s, e))
  {
    if s.listening {
      match e
      case TaskErr(err) => OnErrorInv(orig, s, err);
      case TaskStop(n) => OnTaskEndInv(orig, s, n);
    }
  }

  lemma {:induction false} ReplayInv(orig: seq<Value>, s: State, events: seq<Event>)
    requires Inv(orig, s)
    ensures Inv(orig, Replay(s, events))
    decreases |events|
  {
    if |events| > 0 {
      DeliverInv(orig, s, events[0]);
      ReplayInv(orig, Deliver(s, events[0]), events[1..]);
    }
  }

  // ---------------------------------------------------------------------
  // One event at a time

  /** A step moved the sequence on: it consumed a group or removed the
      listeners. */
  predicate Advanced(s: State, r: State) {
    |r.queue| < |s.queue| || (s.listening && !r.listening)
  }

  /** A `task_stop` advances the sequence exactly when it completes the
      single task still pending in the current group. Otherwise it removes
      the first pending entry it matches, and nothing else changes; an event
      it does not match, which includes every bare-string notification,
      changes nothing at all. */
  lemma TaskStopStep(orig: seq<Value>, s: State, n: Notification)
    requires Inv(orig, s) && s.listening
    ensures Advanced(s, Deliver(s, TaskStop(n))) <==> s.current == [Key(n)]
    ensures s.current == [Key(n)] ==> n.Obj?
    ensures !Advanced(s, Deliver(s, TaskStop(n))) ==>
      var r := Deliver(s, TaskStop(n));
      && r.queue == s.queue && r.log == s.log && r.listening
      && (Key(n) in s.current ==> r.current == RemoveAt(s.current, IndexOf(s.current, Key(n))))
      && (Key(n) !in s.current ==> r == s)
    ensures n.Bare? ==> Deliver(s, TaskStop(n)) == s
  {
    if s.current == [Key(n)] {
      assert s.current[0].Str?;
    }
  }

  /** A `task_err` removes the listeners and reports the error at once:
      through the callback if there is one, otherwise by logging it. Every
      later event is ignored, so the report is the last thing done. */
  lemma ErrorHalts(orig: seq<Value>, s: State, err: string, later: seq<Event>)
    requires Inv(orig, s) && s.listening
    ensures
      var r := Replay(s, [TaskErr(err)] + later);
      && !r.listening
      && r.queue == s.queue
      && r.log == s.log + Report(s.hasCallback, Some(err))
      && Calls(r.log) == (if s.hasCallback then 1 else 0)
  {
    assert ([TaskErr(err)] + later)[0] == TaskErr(err);
    assert ([TaskErr(err)] + later)[1..] == later;
    OnlyStartsNoCalls(s.log);
    if s.hasCallback {
      CallsAppend(s.log, Called(Some(err)));
    } else {
      CallsAppend(s.log, Logged(err));
    }
  }

  /** Completing the last task of the last group finishes without an error:
      the callback is called with none, and without a callback nothing is
      reported. */
  lemma ExhaustedFinishes(orig: seq<Value>, s: State, task: string)
    requires Inv(orig, s) && s.listening
    requires |s.queue| == 0 && s.current == [Str(task)]
    ensures
      var r := Deliver(s, TaskStop(Obj(task)));
      && !r.listening
      && r.log == s.log + Report(s.hasCallback, None)
      && Starts(r.log) == Expected(orig)
  {
    var r := Deliver(s, TaskStop(Obj(task)));
    StartsAppend(s.log, Report(s.hasCallback, None));
    assert orig[..|orig|] == orig;
  }

  // ---------------------------------------------------------------------
  // Over traces

  /** The log only grows, the queue only shrinks and the listeners, once
      removed, stay removed. */
  lemma {:induction false} ReplayMonotone(s: State, events: seq<Event>)
    ensures
      var r := Replay(s, events);
      && |r.queue| <= |s.queue|
      && (r.listening ==> s.listening)
      && |s.log| <= |r.log| && r.log[..|s.log|] == s.log
    decreases |events|
  {
    if |events| > 0 && s.listening {
      var s1 := Deliver(s, events[0]);
      ReplayMonotone(s1, events[1..]);
      var r := Replay(s1, events[1..]);
      assert r.log[..|s.log|] == r.log[..|s1.log|][..|s.log|];
    }
  }

  /** The task names reported finished by event objects in a trace. */
  function Reported(events: seq<Event>): (r: multiset<Value>)
    decreases |events|
  {
    if |events| == 0 then multiset{}
    else
      var e := events[0];
      (if e.TaskStop? && e.note.Obj? then multiset{Str(e.note.task)} else multiset{})
        + Reported(events[1..])
  }

  lemma {:induction false} ReportedAppend(events: seq<Event>, e: Event)
    ensures Reported(events + [e]) == Reported(events) + Reported([e])
    decreases |events|
  {
    if |events| > 0 {
      assert (events + [e])[1..] == events[1..] + [e];
      ReportedAppend(events[1..], e);
    } else {
      assert events + [e] == [e];
    }
  }

  /** One event that leaves the sequence on the same group removes at most
      the task it reports, and only when reported by an event object. */
  lemma StepAccounted(orig: seq<Value>, s: State, e: Event)
    requires Inv(orig, s) && s.listening
    requires Deliver(s, e).listening && |Deliver(s, e).queue| == |s.queue|
    ensures multiset(s.current) <= multiset(Deliver(s, e).current) + Reported([e])
    ensures Deliver(s, e).log == s.log && Deliver(s, e).queue == s.queue
    ensures Inv(orig, Deliver(s, e))
  {
    var s1 := Deliver(s, e);
    DeliverInv(orig, s, e);
    assert e.TaskStop?;
    TaskStopStep(orig, s, e.note);
    assert Reported([e]) == (if e.note.Obj? then multiset{Str(e.note.task)} else multiset{});
    if Key(e.note) in s.current {
      assert multiset(s.current) == multiset(s1.current) + multiset{Key(e.note)};
    }
  }

  /** While the sequence stays on one group, every entry that left the
      pending set was reported finished by an event object of the trace. */
  lemma {:induction false} PendingAccounted(orig: seq<Value>, s: State, events: seq<Event>)
    requires Inv(orig, s) && s.listening
    requires Replay(s, events).listening && Replay(s, events).queue == s.queue
    ensures multiset(s.current) <= multiset(Replay(s, events).current) + Reported(events)
    ensures Replay(s, events).log == s.log
    decreases |events|
  {
    if |events| > 0 {
      var e := events[0];
      var s1 := Deliver(s, e);
      ReplayMonotone(s1, events[1..]);
      ReplayMonotone(s, [e]);
      assert Replay(s, [e]) == s1;
      StepAccounted(orig, s, e);
      PendingAccounted(orig, s1, events[1..]);
      assert Reported(events) == Reported([e]) + Reported(events[1..]) by {
        assert [e][1..] == [];
      }
    }
  }

  /** No overlap between groups: from any point of a run, the sequence moves
      past the current group (starting the next one, or finishing) only on
      a `task_stop`, and only once every pending task, counted with its
      multiplicity, has been reported finished since that point. */
  lemma GroupDoneBeforeAdvance(orig: seq<Value>, s: State, events: seq<Event>, n: Notification)
    requires Inv(orig, s) && s.listening
    requires Replay(s, events).listening && Replay(s, events).queue == s.queue
    requires Advanced(Replay(s, events), Deliver(Replay(s, events), TaskStop(n)))
    ensures multiset(s.current) <= Reported(events + [TaskStop(n)])
  {
    var r := Replay(s, events);
    PendingAccounted(orig, s, events);
    ReplayInv(orig, s, events);
    TaskStopStep(orig, r, n);
    ReportedAppend(events, TaskStop(n));
    assert Reported([TaskStop(n)]) == multiset{Key(n)};
  }

  /** Facts about the log that follow from the invariant: the callback was
      called at most once, exactly once with a callback after the listeners
      are gone, and only the last entry can be a report. */
  lemma ReportCounts(orig: seq<Value>, s: State)
    requires Inv(orig, s)
    ensures Calls(s.log) == (if s.hasCallback && !s.listening then 1 else 0)
    ensures forall i :: 0 <= i < |s.log| - 1 ==> s.log[i].Start?
  {
    if s.listening {
      OnlyStartsNoCalls(s.log);
    } else {
      var n := |s.log|;
      OnlyStartsNoCalls(s.log[..n - 1]);
      assert s.log == s.log[..n - 1] + [s.log[n - 1]];
      CallsAppend(s.log[..n - 1], s.log[n - 1]);
      forall i | 0 <= i < n - 1
        ensures s.log[i].Start?
      {
        assert s.log[i] == s.log[..n - 1][i];
      }
    }
  }

  lemma ExpectedPrefix(orig: seq<Value>, k: nat)
    requires k <= |orig|
    ensures Expected(orig[..k]) == Expected(orig)[..k]
  {
  }

  /** The started groups of an invariant state are a prefix of the groups,
      and hold task names only. */
  lemma StartsArePrefix(orig: seq<Value>, s: State)
    requires Inv(orig, s)
    ensures |Starts(s.log)| <= |orig|
    ensures Starts(s.log) == Expected(orig)[..|Starts(s.log)|]
    ensures forall i, j :: 0 <= i < |Starts(s.log)| && 0 <= j < |Starts(s.log)[i]| ==> Starts(s.log)[i][j].Str?
  {
    var k := |orig| - |s.queue|;
    ExpectedPrefix(orig, k);
    forall i, j | 0 <= i < |Starts(s.log)| && 0 <= j < |Starts(s.log)[i]|
      ensures Starts(s.log)[i][j].Str?
    {
      assert Starts(s.log)[i] == Members(orig[i]);
    }
  }

  /** Safety of a run of runnable groups over any trace of events. */
  lemma TraceSafety(orig: seq<Value>, hasCallback: bool, events: seq<Event>)
    requires Runnable(orig)
    ensures
      var r := Replay(Begin(orig, hasCallback), events);
      && |Starts(r.log)| <= |orig|
      && Starts(r.log) == Expected(orig)[..|Starts(r.log)|]
      && (forall i, j :: 0 <= i < |Starts(r.log)| && 0 <= j < |Starts(r.log)[i]| ==> Starts(r.log)[i][j].Str?)
      && Calls(r.log) == (if hasCallback && !r.listening then 1 else 0)
  {
    var s0 := Begin(orig, hasCallback);
    BeginInv(orig, hasCallback);
    ReplayInv(orig, s0, events);
    var r := Replay(s0, events);
    ReportCounts(orig, r);
    StartsArePrefix(orig, r);
  }
}

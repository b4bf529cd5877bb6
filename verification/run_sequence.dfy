/** The entry point `runSequence(gulp, ...args)` (index.js:38-113): split off
    the callback, validate, then attach the listeners and start the first
    group. Validation failures are thrown before anything else happens. */
module RunSequence {
  import opened Values
  import opened Validator
  import opened Sequencer
  import opened SequencerSafety

  /** The arguments after `gulp`, split into task groups and callback. */
  datatype Args = Args(taskSets: seq<Value>, callback: Option<Value>)

  /** index.js:45-48: each array argument is copied (a value here, so the
      copy has the caller's contents and later removals from the current
      group cannot reach the caller), and a trailing function is popped off
      as the callback. Only the last argument is looked at. */
  function SplitCallback(args: seq<Value>): (r: Args)
    ensures r.callback.Some? <==> |args| > 0 && args[|args| - 1].Func?
    ensures r.callback.Some? ==> r.callback.value.Func? && r.taskSets + [r.callback.value] == args
    ensures r.callback.None? ==> r.taskSets == args
  {
    if |args| > 0 && args[|args| - 1].Func? then
      Args(args[..|args| - 1], Some(args[|args| - 1]))
    else
      Args(args, None)
  }

  /** What a call of `runSequence` leaves behind: the configuration error it
      threw, if any, and the sequencer state. */
  datatype Launch = Launch(thrown: Option<VerifyError>, state: State)

  /** index.js:107-112: validation runs first; only a list that passes gets
      the listeners attached and its first group started. */
  function Run(gulp: Gulp, args: seq<Value>): (r: Launch)
    ensures r.thrown.Some? <==> !WellFormed(gulp, SplitCallback(args).taskSets)
    ensures r.thrown.Some? ==> r.state.log == [] && !r.state.listening
    ensures r.thrown.None? ==>
      var taskSets := SplitCallback(args).taskSets;
      && r.state.listening
      && r.state.log == [Start(Members(taskSets[0]))]
      && r.state.queue == taskSets[1..]
    ensures r.state.hasCallback <==> SplitCallback(args).callback.Some?
  {
    var a := SplitCallback(args);
    ValidIff(gulp, a.taskSets);
    match VerifyTaskSets(gulp, a.taskSets)
    case Fail(e) => Launch(Some(e), State(a.taskSets, [], false, a.callback.Some?, []))
    case Pass => Launch(None, Begin(a.taskSets, a.callback.Some?))
  }

  /** A list that passes validation is one the sequencer can run: every
      group is non-empty and holds task names only. */
  lemma WellFormedRunnable(gulp: Gulp, taskSets: seq<Value>)
    requires WellFormed(gulp, taskSets)
    ensures Runnable(taskSets)
  {
    forall i | 0 <= i < |taskSets|
      ensures |Members(taskSets[i])| > 0
      ensures forall j :: 0 <= j < |Members(taskSets[i])| ==> Members(taskSets[i])[j].Str?
    {
      assert GroupOk(gulp, taskSets[i], InheritedNames);
    }
  }

  /** Safety of a whole run, whatever events gulp delivers afterwards:
      - the groups started are a prefix of the task groups, in argument
        order, each passed whole to one `gulp.start`, and never the callback;
      - the callback is called at most once, and exactly once after the
        listeners are gone when one was given;
      - once the listeners are gone, no event changes anything. */
  lemma RunSafety(gulp: Gulp, args: seq<Value>, events: seq<Event>, later: seq<Event>)
    requires Run(gulp, args).thrown.None?
    ensures
      var taskSets := SplitCallback(args).taskSets;
      var r := Replay(Run(gulp, args).state, events);
      && |Starts(r.log)| <= |taskSets|
      && Starts(r.log) == Expected(taskSets)[..|Starts(r.log)|]
      && (forall i, j :: 0 <= i < |Starts(r.log)| && 0 <= j < |Starts(r.log)[i]| ==> Starts(r.log)[i][j].Str?)
      && Calls(r.log) == (if r.hasCallback && !r.listening then 1 else 0)
      && (!r.listening ==> Replay(r, later) == r)
  {
    var taskSets := SplitCallback(args).taskSets;
    ValidIff(gulp, taskSets);
    WellFormedRunnable(gulp, taskSets);
    assert Run(gulp, args).state == Begin(taskSets, SplitCallback(args).callback.Some?);
    TraceSafety(taskSets, SplitCallback(args).callback.Some?, events);
  }

  // ---------------------------------------------------------------------
  // Worked runs

  /** A gulp that knows the tasks A, B, C and D. */
  const Abcd := Gulp({"A", "B", "C", "D"})

  /** The call `runSequence(gulp, "A", ["B", "C"], "D", callback)`. */
  const AbcdArgs := [Str("A"), Array([Str("B"), Str("C")]), Str("D"), Func(0)]

  function Done(t: string): (r: Event) {
    TaskStop(Obj(t))
  }

  const A := Str("A")
  const B := Str("B")
  const C := Str("C")
  const D := Str("D")
  const L1 := [Start([A]), Start([B, C])]
  const L2 := L1 + [Start([D])]

  lemma AbcdLaunch()
    ensures Run(Abcd, AbcdArgs) == Launch(None, State([Array([B, C]), D], [A], true, true, [Start([A])]))
  {
    var a := SplitCallback(AbcdArgs);
    assert a.taskSets == [A, Array([B, C]), D];
    assert AvoidsNames([B, C], InheritedNames);
    assert GroupOk(Abcd, a.taskSets[1], InheritedNames);
    assert WellFormed(Abcd, a.taskSets);
  }

  lemma StepA()
    ensures Deliver(State([Array([B, C]), D], [A], true, true, [Start([A])]), Done("A"))
         == State([D], [B, C], true, true, L1)
  {
    assert IndexOf([A], A) == 0;
  }

  lemma StepStaleA()
    ensures Deliver(State([D], [B, C], true, true, L1), Done("A")) == State([D], [B, C], true, true, L1)
  {
    assert A != B && A != C;
    assert IndexOf([C], A) == -1;
    assert IndexOf([B, C], A) == -1;
  }

  lemma StepC()
    ensures Deliver(State([D], [B, C], true, true, L1), Done("C")) == State([D], [B], true, true, L1)
  {
    assert B != C;
    assert IndexOf([C], C) == 0;
    assert IndexOf([B, C], C) == 1;
    assert [B, C][..1] + [B, C][2..] == [B];
  }

  lemma StepB()
    ensures Deliver(State([D], [B], true, true, L1), Done("B")) == State([], [D], true, true, L2)
  {
    assert IndexOf([B], B) == 0;
  }

  lemma StepD()
    ensures Deliver(State([], [D], true, true, L2), Done("D")) == State([], [], false, true, L2 + [Called(None)])
  {
    assert IndexOf([D], D) == 0;
  }

  lemma StepBFirst()
    ensures Deliver(State([D], [B, C], true, true, L1), Done("B")) == State([D], [C], true, true, L1)
  {
    assert IndexOf([B, C], B) == 0;
    assert [B, C][..0] + [B, C][1..] == [C];
  }

  lemma StepCLast()
    ensures Deliver(State([D], [C], true, true, L1), Done("C")) == State([], [D], true, true, L2)
  {
    assert IndexOf([C], C) == 0;
  }

  /** The other order: after `B` alone `D` has not started; it starts once
      `C` reports too. */
  lemma AbcdOtherOrder()
    ensures
      var s0 := Run(Abcd, AbcdArgs).state;
      && Replay(s0, [Done("A"), Done("B")]).log == [Start([A]), Start([B, C])]
      && Replay(s0, [Done("A"), Done("B"), Done("C")]).log == [Start([A]), Start([B, C]), Start([D])]
  {
    AbcdLaunch();
    StepA(); StepBFirst(); StepCLast();
    var s0 := State([Array([B, C]), D], [A], true, true, [Start([A])]);
    assert Run(Abcd, AbcdArgs).state == s0;
    var s1 := State([D], [B, C], true, true, L1);
    var s2 := State([D], [C], true, true, L1);
    var s3 := State([], [D], true, true, L2);
    assert Replay(s1, [Done("B")]) == s2;
    assert Replay(s0, [Done("A"), Done("B")]) == s2;
    assert Replay(s2, [Done("C")]) == s3;
    assert Replay(s1, [Done("B"), Done("C")]) == s3;
    assert Replay(s0, [Done("A"), Done("B"), Done("C")]) == s3;
  }

  /** `A` starts first; after `A` and `C` alone `D` has not started, and it
      starts once `B` reports too (AbcdOtherOrder shows `B` then `C`); a stale report of `A` while `B` and `C` run is
      ignored; the callback is called once, without an error, after `D`. */
  lemma AbcdInOrder()
    ensures
      var s0 := Run(Abcd, AbcdArgs).state;
      && Run(Abcd, AbcdArgs).thrown.None?
      && s0.log == [Start([A])]
      && Replay(s0, [Done("A"), Done("A"), Done("C")]).log == [Start([A]), Start([B, C])]
      && Replay(s0, [Done("A"), Done("C")]).log == [Start([A]), Start([B, C])]
      && Replay(s0, [Done("A"), Done("C"), Done("B")]).log == [Start([A]), Start([B, C]), Start([D])]
      && Replay(s0, [Done("A"), Done("C"), Done("B"), Done("D")]).log
           == [Start([A]), Start([B, C]), Start([D]), Called(None)]
  {
    AbcdLaunch();
    StepA(); StepStaleA(); StepC(); StepB(); StepD();
    var s0 := State([Array([B, C]), D], [A], true, true, [Start([A])]);
    var s1 := State([D], [B, C], true, true, L1);
    var s2 := State([D], [B], true, true, L1);
    var s3 := State([], [D], true, true, L2);
    var s4 := State([], [], false, true, L2 + [Called(None)]);
    assert Replay(s1, [Done("C")]) == s2;
    assert Replay(s1, [Done("A"), Done("C")]) == s2;
    assert Replay(s0, [Done("A"), Done("A"), Done("C")]) == s2;
    assert Replay(s0, [Done("A"), Done("C")]) == s2;
    assert Replay(s2, [Done("B")]) == s3;
    assert Replay(s1, [Done("C"), Done("B")]) == s3;
    assert Replay(s0, [Done("A"), Done("C"), Done("B")]) == s3;
    assert Replay(s3, [Done("D")]) == s4;
    assert Replay(s2, [Done("B"), Done("D")]) == s4;
    assert Replay(s1, [Done("C"), Done("B"), Done("D")]) == s4;
    assert Replay(s0, [Done("A"), Done("C"), Done("B"), Done("D")]) == s4;
  }

  /** An error while `B` and `C` run calls the callback once with that error;
      `D` never starts, and later reports of `B` and `C` change nothing. */
  lemma AbcdErrorHalts()
    ensures
      var s0 := Run(Abcd, AbcdArgs).state;
      Replay(s0, [Done("A"), TaskErr("boom"), Done("B"), Done("C")]).log
        == [Start([A]), Start([B, C]), Called(Some("boom"))]
  {
    AbcdLaunch();
    StepA();
    var s0 := State([Array([B, C]), D], [A], true, true, [Start([A])]);
    var s1 := State([D], [B, C], true, true, L1);
    var s2 := Deliver(s1, TaskErr("boom"));
    assert s2 == State([D], [B, C], false, true, L1 + [Called(Some("boom"))]);
    assert Replay(s2, [Done("B"), Done("C")]) == s2;
    assert Replay(s1, [TaskErr("boom"), Done("B"), Done("C")]) == s2;
    assert Replay(s0, [Done("A"), TaskErr("boom"), Done("B"), Done("C")]) == s2;
  }

  /** Invalid input throws with nothing started and no listener attached:
      here a name gulp does not know, and an empty argument list that holds
      only a callback. */
  lemma InvalidInputStartsNothing()
    ensures Run(Abcd, [Str("A"), Str("E")]) ==
      Launch(Some(NotConfigured("E")), State([Str("A"), Str("E")], [], false, false, []))
    ensures Run(Abcd, [Func(7)]) == Launch(Some(NoTasks), State([], [], false, true, []))
  {
    assert [Str("A"), Str("E")][1..] == [Str("E")];
  }
}

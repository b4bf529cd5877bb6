/** The event-driven state machine of `runSequence` (index.js:38-113): the
    closures `finish`, `onError`, `onTaskEnd` and `runNextSet`, each as a pure
    step over an immutable state. The EventEmitter is reduced to a flag that
    says whether both listeners are still attached; `gulp.start`, the
    completion callback and `console.log` are reduced to entries in a log. */
module Sequencer {
  import opened Values

  /** The payload of a `task_stop` event: a bare task name, or an event
      object whose `task` property names the task. */
  datatype Notification = Bare(name: string) | Obj(task: string)

  /** An event delivered by gulp. A `task_err` carries an error value, which
      is modelled as an opaque, always truthy, message. */
  datatype Event = TaskStop(note: Notification) | TaskErr(err: string)

  /** What the sequencer does to the outside world. */
  datatype Action =
    | Start(tasks: seq<Value>)     // gulp.start.apply(gulp, command)
    | Called(err: Option<string>)  // callBack(err)
    | Logged(error: string)        // console.log of an error

  /** The variables the closures share.
      - `queue`: `taskSets`, the groups not started yet;
      - `current`: `currentTaskSet`, the still unfinished part of the group
        started last (empty before the first start);
      - `listening`: whether the `task_stop` and `task_err` listeners are
        attached; both are removed together by `finish`;
      - `hasCallback`: whether a completion callback was passed;
      - `log`: everything done so far, oldest first. */
  datatype State = State(
    queue: seq<Value>,
    current: seq<Value>,
    listening: bool,
    hasCallback: bool,
    log: seq<Action>)

  /** index.js:79-81: a group that is not an array is wrapped as a
      one-element array. */
  function Members(command: Value): (r: seq<Value>)
    ensures command.Array? ==> r == command.items
    ensures !command.Array? ==> r == [command]
    ensures r == [] <==> command == Array([])
  {
    if command.Array? then command.items else [command]
  }

  /** The terminal entry `finish(err)` leaves in the log, if any: the callback
      is called whatever `err` is; without a callback only an error is
      logged and success is silent. */
  function Report(hasCallback: bool, err: Option<string>): (r: seq<Action>)
    ensures |r| <= 1
    ensures hasCallback ==> r == [Called(err)]
    ensures !hasCallback ==> (r == [] <==> err.None?)
    ensures !hasCallback && err.Some? ==> r == [Logged(err.value)]
  {
    if hasCallback then [Called(err)]
    else if err.Some? then [Logged(err.value)]
    else []
  }

  /** `finish(err)`, index.js:51-59: remove both listeners, then report. */
  function Finish(s: State, err: Option<string>): (r: State)
    ensures !r.listening
    ensures r.queue == s.queue && r.current == s.current && r.hasCallback == s.hasCallback
    ensures r.log == s.log + Report(s.hasCallback, err)
  {
    s.(listening := false, log := s.log + Report(s.hasCallback, err))
  }

  /** `onError(err)`, index.js:60-62. */
  function OnError(s: State, err: string): (r: State)
    ensures !r.listening
    ensures r.log == s.log + Report(s.hasCallback, Some(err))
    ensures s.hasCallback ==> r.log[|r.log| - 1] == Called(Some(err))
  {
    Finish(s, Some(err))
  }

  /** `runNextSet()`, index.js:75-105: start the front group whole with one
      `gulp.start` call and make it the current group, or finish without an
      error when no group is left. */
  function RunNextSet(s: State): (r: State)
    ensures |s.queue| > 0 ==>
      && r.queue == s.queue[1..]
      && r.current == Members(s.queue[0])
      && r.listening == s.listening
      && r.log == s.log + [Start(Members(s.queue[0]))]
    ensures |s.queue| == 0 ==> r == Finish(s, None)
    ensures r.hasCallback == s.hasCallback
  {
    if |s.queue| > 0 then
      var command := Members(s.queue[0]);
      s.(queue := s.queue[1..], current := command, log := s.log + [Start(command)])
    else
      Finish(s, None)
  }

  /** `currentTaskSet.indexOf(x)`: the first position holding `x`, or -1. */
  function IndexOf(xs: seq<Value>, x: Value): (r: int)
    ensures -1 <= r < |xs|
    ensures r == -1 <==> x !in xs
    ensures r >= 0 ==> xs[r] == x && forall j :: 0 <= j < r ==> xs[j] != x
  {
    if |xs| == 0 then -1
    else if xs[0] == x then 0
    else
      var k := IndexOf(xs[1..], x);
      if k == -1 then -1 else k + 1
  }

  /** The value index.js:65 looks up: `event.task`. On a bare string that
      property is `undefined`, so only an event object names a task. */
  function Key(n: Notification): (r: Value)
    ensures r.Str? <==> n.Obj?
  {
    match n
    case Bare(_) => Undefined
    case Obj(task) => Str(task)
  }

  /** `currentTaskSet.splice(idx, 1)` for a valid index. */
  function RemoveAt(xs: seq<Value>, idx: nat): (r: seq<Value>)
    requires idx < |xs|
    ensures |r| == |xs| - 1
    ensures multiset(r) + multiset{xs[idx]} == multiset(xs)
    ensures forall j :: 0 <= j < idx ==> r[j] == xs[j]
    ensures forall j :: idx <= j < |r| ==> r[j] == xs[j + 1]
  {
    assert xs == xs[..idx] + [xs[idx]] + xs[idx + 1..];
    xs[..idx] + xs[idx + 1..]
  }

  /** `onTaskEnd(event)`, index.js:63-73: drop the first entry of the current
      group equal to the event's key, if any; then, whether or not anything
      was dropped, move on once the current group is empty. */
  function OnTaskEnd(s: State, n: Notification): (r: State)
    ensures Key(n) !in s.current && |s.current| > 0 ==> r == s
    ensures Key(n) in s.current && |s.current| > 1 ==>
      r == s.(current := RemoveAt(s.current, IndexOf(s.current, Key(n))))
    ensures (s.current == [] || s.current == [Key(n)]) ==> r == RunNextSet(s.(current := []))
  {
    var idx := IndexOf(s.current, Key(n));
    var rest := if idx > -1 then RemoveAt(s.current, idx) else s.current;
    var s' := s.(current := rest);
    if |rest| == 0 then RunNextSet(s') else s'
  }

  /** gulp's emitter delivering one event: once `finish` has removed the
      listeners, nothing reacts any more. */
  function Deliver(s: State, e: Event): (r: State)
    ensures !s.listening ==> r == s
    ensures r.hasCallback == s.hasCallback
    ensures |r.queue| <= |s.queue| && (r.listening ==> s.listening)
    ensures |s.log| <= |r.log| && r.log[..|s.log|] == s.log
  {
    if !s.listening then s
    else
      match e
      case TaskStop(n) => OnTaskEnd(s, n)
      case TaskErr(err) => OnError(s, err)
  }

  /** The events of a trace, delivered one after the other. */
  function Replay(s: State, events: seq<Event>): (r: State)
    ensures !s.listening ==> r == s
    ensures r.hasCallback == s.hasCallback
    decreases |events|
  {
    if |events| == 0 then s else Replay(Deliver(s, events[0]), events[1..])
  }

  /** index.js:109-112, once the groups have passed validation: attach both
      listeners, then start the first group. */
  function Begin(taskSets: seq<Value>, hasCallback: bool): (r: State)
    ensures |taskSets| > 0 ==>
      && r.listening
      && r.log == [Start(Members(taskSets[0]))]
      && r.queue == taskSets[1..]
    ensures r.hasCallback == hasCallback
  {
    RunNextSet(State(taskSets, [], true, hasCallback, []))
  }
}

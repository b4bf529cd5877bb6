# run-sequence, modelled in Dafny

run-sequence runs gulp tasks one group after another. The caller passes
gulp, then task groups, then an optional callback. A group is a task name
or an array of names that run together. The library checks the groups,
then listens to gulp's `task_stop` and `task_err` events. It starts each
group with one `gulp.start` call. It moves to the next group once every
task of the current group has reported that it stopped. The sequence ends
when the groups run out or a task fails, and then the callback is called once.

The model has five modules:

- `Values` (values.dfy): the JavaScript values the entry point tells apart
  with `typeof` and `Array.isArray`.
- `Validator` (validator.dfy): `verifyTaskSets` as a recursive function
  returning `Pass` or the first configuration error. It also holds an
  independent description of the inputs it accepts, and lemmas that link the two.
- `Sequencer` (sequencer.dfy): the closures `finish`, `onError`, `onTaskEnd`
  and `runNextSet`, each as a pure step over an immutable state. Removing
  the listeners is a flag. After it is cleared, every later event is ignored.
  Calls of `gulp.start` and of the callback, and logged errors, are entries
  in a log.
- `SequencerSafety` (sequencer_safety.dfy): an invariant kept by every
  event, and lemmas over arbitrary event traces.
- `RunSequence` (run_sequence.dfy): splitting off the callback, validating
  first, and the safety of a whole run. It also has worked runs for
  `"A", ["B", "C"], "D"`.

The model follows the code, including four behaviours that the names in it suggest otherwise:

- Duplicate names are only looked for inside one array. `foundTasks` is
  created fresh on every call, and the fourth argument of the recursive call
  at index.js:33 is ignored. A name may therefore head several top-level
  groups or appear in several arrays (`RepeatAcrossGroupsAccepted`).
- A function given as a group (a "direct handle") is refused. The test at
  index.js:17 looks only at `isGulpTask` and `isArray`, so the
  `!isFunction` at index.js:20 never matters (`FunctionRejected`).
- index.js:65 looks up `event.task` rather than the `task` computed on the
  line before. A bare-string notification therefore never matches a
  pending task (`Sequencer.Key`, `TaskStopStep`).
- The duplicate table `foundTasks` is a plain object (index.js:11). Its
  lookup at index.js:24 is truthy for names inherited from
  `Object.prototype`, such as `toString`. A known task with such a name is
  therefore refused inside an array even when it is listed once
  (`InheritedNameRefused`). The same check with an exact table is modelled
  beside it as `VerifyTaskSetsIntended` (see Findings).

## Model

| member | source | states |
|---|---|---|
| Validator.VerifyTaskSetsWith | index.js:7-36 | "no tasks" is raised exactly for an empty list, and a list passes only if every element is a string or, where arrays are allowed, an array |
| Validator.VerifyEach | index.js:12-35 | the per-element walk never raises "no tasks" and passes only over strings or, where arrays are allowed, arrays |
| Validator.VerifyTaskSets | index.js:107 | the top-level call with plain-object duplicate tables: "no tasks" exactly for an empty list, and only strings and arrays pass |
| Validator.VerifyTaskSetsIntended | index.js:7-36 | the same check with an exact duplicate table: "no tasks" exactly for an empty list, and only strings and arrays pass |
| Validator.ValidIffWith | index.js:7-36 | for any starting duplicate table, the top-level check passes exactly when every group is a known name or a non-empty array of distinct known names that the fresh table does not already answer as seen |
| Validator.ValidIff | index.js:7-36 | the validator as written accepts exactly the non-empty lists whose every group is a known name or a non-empty array of distinct known names, none of them a name inherited from `Object.prototype` |
| Validator.ValidIffIntended | index.js:7-36 | with an exact duplicate table, the check accepts exactly the non-empty lists whose groups are known names or non-empty arrays of distinct known names, whatever the names |
| Validator.NestedPassIff | index.js:11-28 | inside one array, the walk passes exactly when the elements are known names, pairwise distinct, and not already recorded |
| Validator.ErrorExplained | index.js:8-32 | "no tasks" is thrown exactly for the empty list; every other error names a value of the input: not a string, unknown to gulp, an empty array, or a name inside an array that is repeated there or inherited from `Object.prototype` |
| Validator.FunctionRejected | index.js:13-22 | a function group, top-level or inside an array, is refused as an invalid task |
| Validator.NestedArrayRejected | index.js:16-18 | an array inside an array is refused as an invalid task |
| Validator.EmptyArrayRejected | index.js:29-32 | an empty array group is refused with the empty-set error |
| Validator.RepeatInArrayRejected | index.js:23-28 | a known name listed twice in one array is refused as listed more than once |
| Validator.RepeatAcrossGroupsAccepted | index.js:11-33 | a known name may head two top-level groups, and may appear in two different arrays unless it is an inherited property name, which is refused as listed twice: duplicate tracking is per call |
| Validator.InheritedNameRefused | index.js:11-25 | as written, `[["toString"]]` with a known `toString` is refused as listed twice although the name occurs once |
| Validator.InheritedNameAccepted | index.js:23-28 | with an exact table, a known task named `toString` is accepted inside an array |
| Sequencer.Report | index.js:54-58 | at most one report: with a callback it is called with the error or none; without one only an error is logged, and success leaves nothing |
| Sequencer.Finish | index.js:51-59 | finishing removes the listeners, leaves the groups alone, and appends exactly one report or none: the callback call, else a logged error, else nothing |
| Sequencer.OnError | index.js:60-62 | an error removes the listeners and, with a callback, ends the log with a call carrying that error |
| Sequencer.RunNextSet | index.js:75-105 | the front group is removed from the queue, becomes the current group and is passed whole to one start; with no group left the sequence finishes without an error |
| Sequencer.IndexOf | index.js:65 | the first position holding the key, or -1 exactly when the key is absent |
| Sequencer.Key | index.js:64-65 | only an event object yields a task name; a bare string yields `undefined` |
| Sequencer.OnTaskEnd | index.js:63-73 | an unmatched key leaves a non-empty group and everything else unchanged; a match in a larger group removes only its first occurrence; completing the last pending task, or finding the group empty, moves to the next group |
| Sequencer.RemoveAt | index.js:68 | removing one entry keeps the others in order and takes exactly that entry out of the multiset |
| Sequencer.Deliver | index.js:52-53 | once the listeners are removed, an event changes nothing; any event only extends the log, never lengthens the queue, and never re-attaches the listeners |
| Sequencer.Begin | index.js:109-112 | for a non-empty list, the listeners are attached and exactly the first group is started |
| SequencerSafety.BeginInv | index.js:107-112 | a validated run starts in a state that satisfies the run invariant |
| SequencerSafety.DeliverInv | index.js:60-73 | every event keeps the invariant: groups started in order, each once; pending tasks non-empty while listening; at most a final report |
| SequencerSafety.ReplayInv | index.js:60-73 | the invariant holds after any trace of events |
| SequencerSafety.TaskStopStep | index.js:63-73 | a stop event advances exactly when it completes the one task still pending; otherwise it removes only the first matching entry, and a stale or bare notification changes nothing |
| SequencerSafety.ErrorHalts | index.js:51-62 | an error stops the sequence at once with one report of that error; nothing after it changes the log |
| SequencerSafety.ExhaustedFinishes | index.js:102-104 | completing the last task of the last group finishes without an error, after every group was started in order |
| SequencerSafety.ReplayMonotone | index.js:51-105 | over a trace the log only grows, the queue only shrinks, and removed listeners stay removed |
| SequencerSafety.ReportedAppend | index.js:63-64 | the reported task names of a trace extended by one event are those of the trace plus that event's |
| SequencerSafety.PendingAccounted | index.js:63-69 | while the sequence stays on one group, every task that left the pending set was reported by an event object |
| SequencerSafety.GroupDoneBeforeAdvance | index.js:63-72 | the sequence moves past a group only once every pending task, with multiplicity, has been reported finished |
| SequencerSafety.ReportCounts | index.js:51-59 | the callback is called at most once, and exactly once after the listeners are gone when one was given; only the last log entry can be a report |
| RunSequence.SplitCallback | index.js:45-48 | only a trailing function is popped as the callback; the groups are the remaining arguments, in order and unchanged |
| RunSequence.Run | index.js:107-112 | it throws exactly when the groups are not well formed (by the code as written), and then nothing is started and no listener is attached; otherwise the first group is started |
| RunSequence.WellFormedRunnable | index.js:13-32 | a validated list has non-empty groups made of task names only |
| SequencerSafety.StartsArePrefix | index.js:77 | the groups started so far, taken from the front, are a prefix of all groups and hold task names only |
| SequencerSafety.TraceSafety | index.js:51-112 | over any trace from the first start, the started groups are a prefix of the groups in order, hold task names only, and the callback runs at most once, exactly once after finishing when given |
| RunSequence.RunSafety | index.js:38-113 | for any trace, the started groups are a prefix of the argument groups in order, never the callback; the callback runs at most once; after finishing nothing reacts |
| RunSequence.AbcdLaunch | index.js:107-112 | the call with `"A", ["B","C"], "D"` and a callback validates and starts `A` alone |
| RunSequence.AbcdInOrder | index.js:63-104 | `["B","C"]` starts after `A` reports; after `C` alone `D` has not started, and it starts once `B` reports too; a stale `A` is ignored; the callback is called once without an error after `D` |
| RunSequence.AbcdOtherOrder | index.js:63-73 | in the order `B` then `C`, after `B` alone `D` has not started, and it starts once `C` reports too |
| RunSequence.AbcdErrorHalts | index.js:60-62 | an error while `B` and `C` run calls the callback once with it; `D` never starts |
| RunSequence.InvalidInputStartsNothing | index.js:8-21 | an unknown name, or an argument list holding only a callback, throws with nothing started and no listener attached |

## Left out

- Loading the default `gulp` module and the `use`/`bind` export wrappers (index.js:40-42, 115-118) are module plumbing. gulp is a parameter offering `hasTask`.
- The `reduced` computation and its `console.log` calls (index.js:82-99) are left out: the result is never used.
- Running tasks inside `gulp.start` is not modelled. A start is a log entry, and gulp's events are an arbitrary trace.
- If gulp emits an event synchronously from inside `gulp.start`, the model delivers it as the next step. This changes nothing the model observes, because `currentTaskSet` is set before `gulp.start` is called.
- EventEmitter subscription is a single flag. Both listeners are always removed together.
- `chalk` colouring and console text are reduced to a `Logged` entry. Exact error messages are reduced to the `VerifyError` kinds.
- A `task_err` error value is an opaque message that is always truthy. A falsy error value, which would be reported as success, is not modelled.
- A `task_stop` event object is assumed to carry a string `task`.
- Sequencer.Deliver: states the frame of a detached sequencer and the monotone parts of a step only. What an event does to an attached one is stated by OnTaskEnd, TaskStopStep and ErrorHalts.

## Findings

| source | as written | input that shows it | evidently intended | confidence | as-written member | corrected member |
|---|---|---|---|---|---|---|
| index.js:11-27 | `foundTasks` is a plain object literal, so `foundTasks[t]` is truthy for names inherited from `Object.prototype` | gulp has a task `toString`; `runSequence(gulp, ["toString"])` throws "Task toString is listed more than once" though it is listed once | only names recorded earlier in the same array count as seen | medium, not executed | Validator.InheritedNameRefused | Validator.ValidIffIntended |

/** The up-front check of the task groups handed to run-sequence
    (`verifyTaskSets`, index.js:7-36). It either passes or raises the first
    configuration error it meets, walking the list front to back. */
module Validator {
  import opened Values

  /** The host scheduler, reduced to the one query the validator makes. */
  datatype Gulp = Gulp(tasks: set<string>) {
    predicate HasTask(name: string) {
      name in tasks
    }
  }

  /** The configuration errors, one per `throw` of the validator. */
  datatype VerifyError =
    | NoTasks                     // index.js:9
    | InvalidTask(task: Value)    // index.js:18
    | NotConfigured(name: string) // index.js:21
    | ListedTwice(name: string)   // index.js:25
    | EmptyTaskSet                // index.js:31

  datatype Outcome = Pass | Fail(error: VerifyError)

  /** The names every plain JavaScript object answers with a truthy value
      through its prototype (`Object.prototype`). The duplicate table
      `foundTasks = {}` of index.js:11 is such an object, so the lookup
      `foundTasks[t]` of index.js:24 is truthy for these names before anything
      was recorded. */
  const InheritedNames: set<string> := {
    "constructor", "hasOwnProperty", "isPrototypeOf", "propertyIsEnumerable",
    "toLocaleString", "toString", "valueOf", "__proto__",
    "__defineGetter__", "__defineSetter__", "__lookupGetter__", "__lookupSetter__"
  }

  /** `verifyTaskSets(gulp, taskSets, skipArrays)`: an empty list is refused,
      then the elements are checked in order. An array element is checked by
      a nested call with `skipArrays = true`, which starts its own duplicate
      table. `blank` is the set of names a freshly created table already
      answers as seen: `InheritedNames` for the code as written, `{}` for
      an exact table. */
  function VerifyTaskSetsWith(gulp: Gulp, taskSets: seq<Value>, skipArrays: bool, blank: set<string>): (r: Outcome)
    ensures r == Fail(NoTasks) <==> |taskSets| == 0
    ensures r.Pass? ==> forall i :: 0 <= i < |taskSets| ==> taskSets[i].Str? || (!skipArrays && taskSets[i].Array?)
    decreases taskSets, 1
  {
    if |taskSets| == 0 then Fail(NoTasks)
    else VerifyEach(gulp, taskSets, skipArrays, blank, blank)
  }

  /** The `forEach` of index.js:12-35 over the elements still to visit, with
      `found` the names the duplicate table answers as seen so far. The walk
      never raises `NoTasks`, and it passes only over elements that are
      strings or, where arrays are allowed, arrays. */
  function VerifyEach(gulp: Gulp, ts: seq<Value>, skipArrays: bool, blank: set<string>, found: set<string>): (r: Outcome)
    ensures r != Fail(NoTasks)
    ensures r.Pass? ==> forall i :: 0 <= i < |ts| ==> ts[i].Str? || (!skipArrays && ts[i].Array?)
    decreases ts, 0
  {
    if |ts| == 0 then Pass
    else
      var t := ts[0];
      var isGulpTask := t.Str?;
      var isArray := !skipArrays && t.Array?;
      if !isGulpTask && !isArray then Fail(InvalidTask(t))
      else if isGulpTask && !gulp.HasTask(t.s) then Fail(NotConfigured(t.s))
      else if skipArrays && isGulpTask && t.s in found then Fail(ListedTwice(t.s))
      else if isArray && |t.items| == 0 then Fail(EmptyTaskSet)
      else
        var nested := if isArray then VerifyTaskSetsWith(gulp, t.items, true, blank) else Pass;
        if nested.Fail? then nested
        else
          var found' := if skipArrays && isGulpTask then found + {t.s} else found;
          var r := VerifyEach(gulp, ts[1..], skipArrays, blank, found');
          assert r.Pass? ==> forall i :: 1 <= i < |ts| ==> ts[1..][i - 1] == ts[i];
          r
  }

  /** The top-level call of index.js:107, as written: `skipArrays` is left
      undefined and every duplicate table is a plain object. */
  function VerifyTaskSets(gulp: Gulp, taskSets: seq<Value>): (r: Outcome)
    ensures r == Fail(NoTasks) <==> |taskSets| == 0
    ensures r.Pass? ==> forall i :: 0 <= i < |taskSets| ==> taskSets[i].Str? || taskSets[i].Array?
  {
    VerifyTaskSetsWith(gulp, taskSets, false, InheritedNames)
  }

  /** The same check with an exact duplicate table, which answers as seen
      only the names recorded earlier in the same array. */
  function VerifyTaskSetsIntended(gulp: Gulp, taskSets: seq<Value>): (r: Outcome)
    ensures r == Fail(NoTasks) <==> |taskSets| == 0
    ensures r.Pass? ==> forall i :: 0 <= i < |taskSets| ==> taskSets[i].Str? || taskSets[i].Array?
  {
    VerifyTaskSetsWith(gulp, taskSets, false, {})
  }

  // ---------------------------------------------------------------------
  // An independent description of what the validator accepts

  /** Every element is a string naming a task gulp knows. */
  predicate AllKnownNames(gulp: Gulp, items: seq<Value>) {
    forall j :: 0 <= j < |items| ==> items[j].Str? && gulp.HasTask(items[j].s)
  }

  /** No value occurs twice. */
  predicate Distinct(items: seq<Value>) {
    forall j, k :: 0 <= j < k < |items| ==> items[j] != items[k]
  }

  /** No element is a string already in `found`. */
  predicate AvoidsNames(items: seq<Value>, found: set<string>) {
    forall j :: 0 <= j < |items| && items[j].Str? ==> items[j].s !in found
  }

  /** A single task group the validator lets through: a known task name, or
      a non-empty array of distinct known task names, none of which a fresh
      duplicate table already answers as seen. */
  predicate GroupOk(gulp: Gulp, g: Value, blank: set<string>) {
    match g
    case Str(name) => gulp.HasTask(name)
    case Array(items) => |items| > 0 && AllKnownNames(gulp, items) && Distinct(items) && AvoidsNames(items, blank)
    case _ => false
  }

  /** The argument list the validator lets through: non-empty, every group
      acceptable on its own. Nothing relates one group to another. */
  predicate WellFormedWith(gulp: Gulp, taskSets: seq<Value>, blank: set<string>) {
    |taskSets| > 0 && forall i :: 0 <= i < |taskSets| ==> GroupOk(gulp, taskSets[i], blank)
  }

  /** What the code as written lets through. */
  predicate WellFormed(gulp: Gulp, taskSets: seq<Value>) {
    WellFormedWith(gulp, taskSets, InheritedNames)
  }

  /** The nested walk over one array passes exactly when its elements are
      distinct known names, none of them already in `found`. */
  lemma {:induction false} NestedPassIff(gulp: Gulp, items: seq<Value>, blank: set<string>, found: set<string>)
    ensures VerifyEach(gulp, items, true, blank, found) == Pass
        <==> AllKnownNames(gulp, items) && Distinct(items) && AvoidsNames(items, found)
    decreases |items|
  {
    if |items| > 0 {
      var t := items[0];
      var rest := items[1..];
      if t.Str? && gulp.HasTask(t.s) && t.s !in found {
        NestedPassIff(gulp, rest, blank, found + {t.s});
        assert VerifyEach(gulp, items, true, blank, found) == VerifyEach(gulp, rest, true, blank, found + {t.s});
        if AllKnownNames(gulp, items) && Distinct(items) && AvoidsNames(items, found) {
          forall j | 0 <= j < |rest| && rest[j].Str?
            ensures rest[j].s !in found + {t.s}
          {
            assert items[j + 1] == rest[j];
            assert items[0] != items[j + 1];
          }
        }
        if AllKnownNames(gulp, rest) && Distinct(rest) && AvoidsNames(rest, found + {t.s}) {
          forall j, k | 0 <= j < k < |items|
            ensures items[j] != items[k]
          {
            if j > 0 {
              assert items[j] == rest[j - 1] && items[k] == rest[k - 1];
            } else {
              assert items[k] == rest[k - 1];
            }
          }
          forall j | 0 <= j < |items| && items[j].Str?
            ensures items[j].s !in found
          {
            if j > 0 { assert items[j] == rest[j - 1]; }
          }
        }
      } else {
        assert VerifyEach(gulp, items, true, blank, found).Fail?;
        assert !(AllKnownNames(gulp, items) && AvoidsNames(items, found)) by {
          if AllKnownNames(gulp, items) {
            assert items[0].Str? && gulp.HasTask(items[0].s);
          }
        }
      }
    }
  }

  /** The top-level walk passes exactly when every remaining group is
      acceptable on its own; `found` plays no part at this level. */
  lemma {:induction false} TopPassIff(gulp: Gulp, ts: seq<Value>, blank: set<string>, found: set<string>)
    ensures VerifyEach(gulp, ts, false, blank, found) == Pass
        <==> forall i :: 0 <= i < |ts| ==> GroupOk(gulp, ts[i], blank)
    decreases |ts|
  {
    if |ts| > 0 {
      var t := ts[0];
      TopPassIff(gulp, ts[1..], blank, found);
      if t.Array? && |t.items| > 0 {
        NestedPassIff(gulp, t.items, blank, blank);
      }
      assert GroupOk(gulp, t, blank) <==> (VerifyEach(gulp, [t], false, blank, found) == Pass);
      if forall i :: 0 <= i < |ts| ==> GroupOk(gulp, ts[i], blank) {
        forall i | 0 <= i < |ts[1..]|
          ensures GroupOk(gulp, ts[1..][i], blank)
        {
          assert ts[1..][i] == ts[i + 1];
        }
      }
      if GroupOk(gulp, t, blank) && forall i :: 0 <= i < |ts[1..]| ==> GroupOk(gulp, ts[1..][i], blank) {
        forall i | 0 <= i < |ts|
          ensures GroupOk(gulp, ts[i], blank)
        {
          if i > 0 { assert ts[i] == ts[1..][i - 1]; }
        }
      }
    }
  }

  lemma ValidIffWith(gulp: Gulp, taskSets: seq<Value>, blank: set<string>)
    ensures VerifyTaskSetsWith(gulp, taskSets, false, blank) == Pass <==> WellFormedWith(gulp, taskSets, blank)
  {
    TopPassIff(gulp, taskSets, blank, blank);
  }

  /** The validator as written accepts exactly the well-formed lists:
      non-empty, each group a known name or a non-empty array of distinct
      known names none of which is an inherited property name. In particular
      a function, `undefined`, any other non-string, and an array inside an
      array are all refused, while the same name may head several top-level
      groups. */
  lemma ValidIff(gulp: Gulp, taskSets: seq<Value>)
    ensures VerifyTaskSets(gulp, taskSets) == Pass <==> WellFormed(gulp, taskSets)
  {
    ValidIffWith(gulp, taskSets, InheritedNames);
  }

  /** With an exact duplicate table, the check accepts exactly the non-empty
      lists whose groups are known names or non-empty arrays of distinct
      known names, whatever those names are. */
  lemma ValidIffIntended(gulp: Gulp, taskSets: seq<Value>)
    ensures VerifyTaskSetsIntended(gulp, taskSets) == Pass
        <==> |taskSets| > 0 && forall i :: 0 <= i < |taskSets| ==>
               (taskSets[i].Str? && gulp.HasTask(taskSets[i].s)) ||
               (taskSets[i].Array? && |taskSets[i].items| > 0 &&
                AllKnownNames(gulp, taskSets[i].items) && Distinct(taskSets[i].items))
  {
    ValidIffWith(gulp, taskSets, {});
  }

  // ---------------------------------------------------------------------
  // Every configuration error points at a defect of the input

  /** `v` occurs at least twice in `items`. */
  predicate Repeats(items: seq<Value>, v: Value) {
    exists j, k :: 0 <= j < k < |items| && items[j] == v && items[k] == v
  }

  /** What an error raised by the nested walk over `items` says about them,
      `found` being the names the table already answered as seen. */
  predicate NestedExplains(gulp: Gulp, items: seq<Value>, found: set<string>, e: VerifyError) {
    match e
    case InvalidTask(v) => !v.Str? && v in items
    case NotConfigured(name) => !gulp.HasTask(name) && Str(name) in items
    case ListedTwice(name) => Str(name) in items && (name in found || Repeats(items, Str(name)))
    case _ => false
  }

  /** What an error raised by the top-level call says about the groups, a
      fresh duplicate table answering the names in `blank` as seen. */
  predicate Explains(gulp: Gulp, taskSets: seq<Value>, blank: set<string>, e: VerifyError) {
    match e
    case NoTasks => |taskSets| == 0
    case InvalidTask(v) =>
      && !v.Str?
      && exists i :: 0 <= i < |taskSets| &&
           ((taskSets[i] == v && !v.Array?) || (taskSets[i].Array? && v in taskSets[i].items))
    case NotConfigured(name) =>
      && !gulp.HasTask(name)
      && exists i :: 0 <= i < |taskSets| &&
           (taskSets[i] == Str(name) || (taskSets[i].Array? && Str(name) in taskSets[i].items))
    case ListedTwice(name) =>
      exists i :: 0 <= i < |taskSets| && taskSets[i].Array? && Str(name) in taskSets[i].items &&
        (name in blank || Repeats(taskSets[i].items, Str(name)))
    case EmptyTaskSet => Array([]) in taskSets
  }

  lemma {:induction false} NestedErrorExplained(gulp: Gulp, items: seq<Value>, blank: set<string>, found: set<string>, e: VerifyError)
    requires VerifyEach(gulp, items, true, blank, found) == Fail(e)
    ensures NestedExplains(gulp, items, found, e)
    decreases |items|
  {
    var t := items[0];
    var rest := items[1..];
    if t.Str? && gulp.HasTask(t.s) && t.s !in found {
      assert VerifyEach(gulp, rest, true, blank, found + {t.s}) == Fail(e);
      NestedErrorExplained(gulp, rest, blank, found + {t.s}, e);
      if e.ListedTwice? && e.name !in found {
        if e.name == t.s {
          var k :| 0 <= k < |rest| && rest[k] == Str(e.name);
          assert items[0] == Str(e.name) && items[k + 1] == Str(e.name);
        } else {
          var j, k :| 0 <= j < k < |rest| && rest[j] == Str(e.name) && rest[k] == Str(e.name);
          assert items[j + 1] == Str(e.name) && items[k + 1] == Str(e.name);
        }
      }
      match e
      case InvalidTask(v) => assert v in rest;
      case NotConfigured(name) => assert Str(name) in rest;
      case ListedTwice(name) => assert Str(name) in rest;
      case _ =>
    }
  }

  lemma {:induction false} TopErrorExplained(gulp: Gulp, ts: seq<Value>, blank: set<string>, found: set<string>, e: VerifyError)
    requires VerifyEach(gulp, ts, false, blank, found) == Fail(e)
    ensures Explains(gulp, ts, blank, e)
    decreases |ts|
  {
    var t := ts[0];
    if t.Array? && |t.items| > 0 && VerifyTaskSetsWith(gulp, t.items, true, blank).Fail? {
      NestedErrorExplained(gulp, t.items, blank, blank, e);
      match e
      case InvalidTask(v) =>
      case NotConfigured(name) =>
      case ListedTwice(name) =>
    } else if VerifyEach(gulp, ts, false, blank, found) == VerifyEach(gulp, ts[1..], false, blank, found) {
      TopErrorExplained(gulp, ts[1..], blank, found, e);
      match e
      case InvalidTask(v) =>
        var i :| 0 <= i < |ts[1..]| &&
          ((ts[1..][i] == v && !v.Array?) || (ts[1..][i].Array? && v in ts[1..][i].items));
        assert ts[i + 1] == ts[1..][i];
      case NotConfigured(name) =>
        var i :| 0 <= i < |ts[1..]| &&
          (ts[1..][i] == Str(name) || (ts[1..][i].Array? && Str(name) in ts[1..][i].items));
        assert ts[i + 1] == ts[1..][i];
      case ListedTwice(name) =>
        var i :| 0 <= i < |ts[1..]| && ts[1..][i].Array? && Str(name) in ts[1..][i].items &&
          (name in blank || Repeats(ts[1..][i].items, Str(name)));
        assert ts[i + 1] == ts[1..][i];
      case EmptyTaskSet =>
        assert Array([]) in ts[1..];
      case NoTasks =>
    }
  }

  /** A configuration error of the validator as written is never spurious:
      `NoTasks` is raised exactly for the empty list; every other error names
      a value of the input that is at fault: not a string, not known to gulp,
      an empty array, or a name inside an array that is repeated there or
      that a plain object already answers as seen. */
  lemma ErrorExplained(gulp: Gulp, taskSets: seq<Value>, e: VerifyError)
    requires VerifyTaskSets(gulp, taskSets) == Fail(e)
    ensures e == NoTasks <==> |taskSets| == 0
    ensures Explains(gulp, taskSets, InheritedNames, e)
  {
    if |taskSets| > 0 {
      TopErrorExplained(gulp, taskSets, InheritedNames, InheritedNames, e);
    }
  }

  // ---------------------------------------------------------------------
  // Particular inputs

  /** A function group is refused as an invalid task, even though the code
      computes `isFunction`: the test that decides is `!isGulpTask && !isArray`,
      so the later `!isFunction` conjunct never matters. */
  lemma FunctionRejected(gulp: Gulp, handle: nat, rest: seq<Value>)
    ensures VerifyTaskSets(gulp, [Func(handle)] + rest) == Fail(InvalidTask(Func(handle)))
    ensures VerifyTaskSets(gulp, [Array([Func(handle)])] + rest) == Fail(InvalidTask(Func(handle)))
  {
    var b := InheritedNames;
    var ts0 := [Func(handle)] + rest;
    assert ts0[0] == Func(handle);
    assert VerifyEach(gulp, ts0, false, b, b) == Fail(InvalidTask(Func(handle)));
    var ts := [Array([Func(handle)])] + rest;
    assert ts[0] == Array([Func(handle)]);
    assert VerifyEach(gulp, [Func(handle)], true, b, b) == Fail(InvalidTask(Func(handle)));
    assert VerifyTaskSetsWith(gulp, [Func(handle)], true, b) == Fail(InvalidTask(Func(handle)));
    assert VerifyEach(gulp, ts, false, b, b) == Fail(InvalidTask(Func(handle)));
  }

  /** An array inside an array is refused as an invalid task. */
  lemma NestedArrayRejected(gulp: Gulp, items: seq<Value>, rest: seq<Value>)
    ensures VerifyTaskSets(gulp, [Array([Array(items)])] + rest) == Fail(InvalidTask(Array(items)))
  {
    var b := InheritedNames;
    var ts := [Array([Array(items)])] + rest;
    assert ts[0] == Array([Array(items)]);
    assert VerifyEach(gulp, [Array(items)], true, b, b) == Fail(InvalidTask(Array(items)));
    assert VerifyTaskSetsWith(gulp, [Array(items)], true, b) == Fail(InvalidTask(Array(items)));
    assert VerifyEach(gulp, ts, false, b, b) == Fail(InvalidTask(Array(items)));
  }

  /** An empty array group is refused, with that error and no other. */
  lemma EmptyArrayRejected(gulp: Gulp, rest: seq<Value>)
    ensures VerifyTaskSets(gulp, [Array([])] + rest) == Fail(EmptyTaskSet)
  {
    var ts := [Array([])] + rest;
    assert ts[0] == Array([]);
    assert VerifyEach(gulp, ts, false, InheritedNames, InheritedNames) == Fail(EmptyTaskSet);
  }

  /** A known name repeated inside one array is refused as listed twice. */
  lemma RepeatInArrayRejected(gulp: Gulp, name: string, rest: seq<Value>)
    requires gulp.HasTask(name)
    ensures VerifyTaskSets(gulp, [Array([Str(name), Str(name)])] + rest) == Fail(ListedTwice(name))
  {
    var ts := [Array([Str(name), Str(name)])] + rest;
    var b := InheritedNames;
    assert ts[0] == Array([Str(name), Str(name)]);
    assert [Str(name), Str(name)][1..] == [Str(name)];
    if name !in b {
      assert VerifyEach(gulp, [Str(name)], true, b, b + {name}) == Fail(ListedTwice(name));
    }
    assert VerifyEach(gulp, [Str(name), Str(name)], true, b, b) == Fail(ListedTwice(name));
    assert VerifyTaskSetsWith(gulp, [Str(name), Str(name)], true, b) == Fail(ListedTwice(name));
    assert VerifyEach(gulp, ts, false, b, b) == Fail(ListedTwice(name));
  }

  /** Duplicate tracking never spans the top-level list: a known name may
      head two groups, and, unless it is an inherited property name, appear
      in two different arrays. An inherited property name is refused inside
      any array. */
  lemma RepeatAcrossGroupsAccepted(gulp: Gulp, name: string)
    requires gulp.HasTask(name)
    ensures VerifyTaskSets(gulp, [Str(name), Str(name)]) == Pass
    ensures name !in InheritedNames ==>
      VerifyTaskSets(gulp, [Array([Str(name)]), Str(name), Array([Str(name)])]) == Pass
    ensures name in InheritedNames ==>
      VerifyTaskSets(gulp, [Array([Str(name)]), Str(name), Array([Str(name)])]) == Fail(ListedTwice(name))
  {
    ValidIff(gulp, [Str(name), Str(name)]);
    if name !in InheritedNames {
      assert AvoidsNames([Str(name)], InheritedNames);
      ValidIff(gulp, [Array([Str(name)]), Str(name), Array([Str(name)])]);
    } else {
      var b := InheritedNames;
      var ts := [Array([Str(name)]), Str(name), Array([Str(name)])];
      assert ts[0] == Array([Str(name)]);
      assert VerifyEach(gulp, [Str(name)], true, b, b) == Fail(ListedTwice(name));
      assert VerifyTaskSetsWith(gulp, [Str(name)], true, b) == Fail(ListedTwice(name));
      assert VerifyEach(gulp, ts, false, b, b) == Fail(ListedTwice(name));
    }
  }

  // ---------------------------------------------------------------------
  // The duplicate table as written

  /** As written, the first and only listing of a known task called
      `toString` inside an array is refused as "listed more than once",
      because the plain-object table inherits a `toString` property. */
  lemma InheritedNameRefused(gulp: Gulp)
    requires gulp.HasTask("toString")
    ensures !Repeats([Str("toString")], Str("toString"))
    ensures VerifyTaskSets(gulp, [Array([Str("toString")])]) == Fail(ListedTwice("toString"))
  {
    var b := InheritedNames;
    assert "toString" in b;
    assert VerifyEach(gulp, [Str("toString")], true, b, b) == Fail(ListedTwice("toString"));
    assert VerifyTaskSetsWith(gulp, [Str("toString")], true, b) == Fail(ListedTwice("toString"));
    assert VerifyEach(gulp, [Array([Str("toString")])], false, b, b) == Fail(ListedTwice("toString"));
  }

  /** With an exact table, the same input is accepted. */
  lemma InheritedNameAccepted(gulp: Gulp)
    requires gulp.HasTask("toString")
    ensures VerifyTaskSetsIntended(gulp, [Array([Str("toString")])]) == Pass
  {
  }
}

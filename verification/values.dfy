/** The JavaScript values that reach the run-sequence entry point, reduced to
    the distinctions the code makes with `typeof` and `Array.isArray`. */
module Values {

  /** An optional value, for the callback's error argument. */
  datatype Option<+T> = None | Some(value: T)

  /** A JavaScript value as run-sequence sees it.
      - `Str`: a string (a task name);
      - `Func`: a function, identified by an opaque handle;
      - `Array`: an array of values (a concurrent task set);
      - `Undefined`: the `undefined` value;
      - `Other`: any other value (number, boolean, `null`, plain object). */
  datatype Value =
    | Str(s: string)
    | Func(handle: nat)
    | Array(items: seq<Value>)
    | Undefined
    | Other
}

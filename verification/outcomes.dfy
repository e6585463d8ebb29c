/** Failure-compatible result types shared by both collection variants.
    Every exception the Python code can raise on a modelled path becomes an
    `Error` tag; the exception message text is not modelled. */
module Outcomes {

  /** The exceptions the two collection classes raise, or let escape from
      the Python runtime, on the paths this model covers. */
  datatype Error =
    | NotFound          // `get` matched nothing
    | MultipleFound     // `get` matched more than one record
    | InvalidList       // the constructor was given a non-dict element
    | InvalidOperation  // `_get_filtered_list` met an operation it has no branch for
    | TypeError         // wrong call shape, non-dict element, `in` on a non-container, ...
    | AttributeError    // `.lower()` called on something that is not a str
    | ValueError        // a two-way tuple unpacking received more than two parts
    | IndexError        // `__setitem__` with an index outside the list
    | AssertionError    // `assert key_string` on an empty key string
    | PatternError      // the regular expression does not compile (re.error)

  datatype Option<+T> = None | Some(value: T)

  datatype Result<+T> = Ok(value: T) | Err(error: Error) {

    predicate IsFailure() {
      Err?
    }

    function PropagateFailure<U>(): Result<U>
      requires Err?
    {
      Err(error)
    }

    function Extract(): T
      requires Ok?
    {
      value
    }
  }
}

/**
 The failures the command can end with, and the result type that carries them.
 */
module Outcomes {
  import Voices

  datatype Option<+T> = None | Some(value: T)

  /** Why an invocation stops without writing audio. */
  datatype Failure =
    /** Usage error: the catalog has no voice for this language prefix and gender. */
    | NoVoicesFound(prefix: seq<char>, gender: Voices.Gender)
    /** Usage error: the menu choice is outside `1..n`. */
    | InvalidChoice
    /** Usage error: neither `--text` nor `--file` was given. */
    | MissingInput
    /** The uncaught `IndexError` of taking the first element of an empty voice list. */
    | IndexError

  datatype Result<+T> = Ok(value: T) | Err(failure: Failure) {
    predicate IsFailure() { Err? }

    function PropagateFailure<U>(): Result<U>
      requires Err?
    {
      Err(failure)
    }

    function Extract(): T
      requires Ok?
    {
      value
    }
  }
}

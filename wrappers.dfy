/** Failure-compatible wrappers shared by the whole model.

    `Option` stands for a Python value that may be `None`; `Result` stands for a
    computation that may raise an exception nobody in the modelled code catches.
 */
module Wrappers {

  datatype Option<+T> = None | Some(value: T) {
    predicate IsFailure() { None? }

    function PropagateFailure<U>(): Option<U>
      requires None?
    {
      None
    }

    function Extract(): T
      requires Some?
    {
      value
    }
  }

  /** The Python exception kinds the modelled code can raise. */
  datatype Raised =
    | ValueError          // int(), strptime(), date(), fromtimestamp(), tuple unpacking
    | KeyError            // metadata['...'] on an absent tag
    | IndexError          // list index past the end
    | SyntaxError         // a GPS component the restricted evaluator does not accept
    | ZeroDivisionError   // a GPS component `n/0`
    | OverflowError       // date() given a field beyond a C int

  datatype Result<+T> = Ok(value: T) | Err(error: Raised) {
    predicate IsFailure() { Err? }

    function PropagateFailure<U>(): Result<U>
      requires Err?
    {
      Err(error)
    }

    function Extract(): T
      requires Ok?
    {
      value
    }
  }
}

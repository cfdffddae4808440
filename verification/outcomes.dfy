/** Failure-carrying results. Every exception the Python core can raise
    becomes an `Err` carrying the kind of failure. */
module Outcomes {

  /** The exceptions the core raises, named after what goes wrong. */
  datatype Error =
    | InvalidLiteral    // `int(s, 16)` rejects `s` (ValueError)
    | DivisionByZero    // a ZeroDivisionError in colorsys or linspace
    | MissingKey        // a dictionary lookup of an absent key (KeyError)
    | IndexOutOfRange   // indexing an empty list (IndexError)
    | NotEnoughValues   // unpacking the channels of an empty wheel (ValueError)

  datatype Option<+T> = None | Some(value: T)

  datatype Result<+T> = Ok(value: T) | Err(error: Error) {
    predicate IsFailure() {
      Err?
    }

    function PropagateFailure<U>(): Result<U>
      requires Err?
    {
      Err(error)
    }

    function Extract(): T
      requires Ok?
    {
      value
    }
  }
}

/** The failures the library reports through `Result` instead of panicking.
    The library raises an exception value that carries only a message; here
    each message becomes one constructor, so that contracts can say which
    check rejected a call. */
module Errors {

  datatype Error =
    | InvalidLength          // "invalid bit_length" / "invalid byte_length"
    | OutOfBuffer            // "... out of buffer"
    | ValueOutOfRange        // "value out of range"
    | NegativeSeconds        // "CUC time supports only positive seconds"
    | SecondsOutOfRange      // "CUC time supports positive seconds up to ..."
    | NegativeFraction       // "CUC time supports only positive second fractions"
    | InvalidPField          // "invalid p-field for CUC time ..."
    | PacketTooSmall         // "packet size is too small"
    | PacketTooLarge         // "packet size is too large"
    | InconsistentLength     // "inconsistent packet length"

  /** A value or the error that prevented computing it; usable with `:-`. */
  datatype Result<+T> = Ok(value: T) | Err(error: Error) {

    predicate IsFailure() {
      Err?
    }

    function PropagateFailure<U>(): (r: Result<U>)
      requires Err?
      ensures r.Err? && r.error == error
    {
      Err(error)
    }

    function Extract(): T
      requires Ok?
    {
      value
    }
  }

  /** The result of an operation that updates a value in place and reports
      only success or failure. */
  datatype Outcome = Success | Failure(error: Error)
}

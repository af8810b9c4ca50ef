/** Failure-compatible result type shared by every decoder of the model.

    The C++ code decoders never check that the buffer is long enough; the
    model reports such a buffer as `Err(Truncated(needed, available))`
    instead of reading past its end.
 */
module Wrappers {

  /** Why a decoder refused its input. */
  datatype Error =
    /** A field needed `needed` more bytes but only `available` remained. */
    | Truncated(needed: nat, available: nat)

  datatype Result<+T> = Ok(value: T) | Err(error: Error) {

    predicate IsFailure() {
      Err?
    }

    function PropagateFailure<U>(): Result<U>
      requires Err?
    {
      Err(error)
    }

    function Extract(): T
      requires Ok?
    {
      value
    }
  }
}

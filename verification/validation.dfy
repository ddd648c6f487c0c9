/**
 The library's single failure mode. Every public operation first checks its
 arguments against a minimum and, when one is too small, raises `ValueError`
 before computing anything; the library's message names only the minimum. The
 model returns that failure as an `Err` value instead of raising it, and records
 both the rejected value and the minimum.
 */
module Validation {

  /** The rejected value and the minimum it failed to reach. */
  datatype Error = BelowMinimum(value: int, minimum: int)

  /** Either the operation's value or the validation failure it stopped at. */
  datatype Result<+T> = Ok(value: T) | Err(error: Error)

  /** Outcome of one validation step: nothing to report, or the failure. */
  datatype Outcome = Pass | Fail(error: Error)

  /** The validation gate: rejects `value` exactly when it lies below `minimum`. */
  function Validate(value: int, minimum: int): (r: Outcome)
    ensures r.Pass? <==> value >= minimum
    ensures r.Fail? ==> r.error.value == value && r.error.minimum == minimum
  {
    if value < minimum then Fail(BelowMinimum(value, minimum)) else Pass
  }
}

/** Failure-carrying results for the Python exceptions the model can raise. */
module Wrappers {

  datatype Option<+T> = None | Some(value: T)

  /** The Python exception classes the modelled code can raise. */
  datatype Error =
    | ValueError   // int('x'), a failed unpack, math.sqrt of a negative number
    | TypeError    // int(None), sum over a non-number
    | KeyError     // a missing dictionary key

  /** A value, or the exception raised while computing it. */
  datatype Result<+T> = Ok(value: T) | Err(error: Error)

  /** The end of a call run for its side effects: it returned, or it raised. */
  datatype Outcome = Pass | Fail(error: Error)
}

/** Failure-carrying values shared by the whole model. */
module Outcomes {

  /** A value that may be absent (Python's `Optional`, with `None`). */
  datatype Option<+T> = None | Some(value: T)

  /** The ways a request of the service ends without a response body. */
  datatype Error =
    | NotFound         // a handler raised HTTPException(404)
    | IndexError       // a list was indexed past its end
    | AttributeError   // a field was read from None: a record the store did not find, or a missing location
    | ValidationError  // a response model was built with a missing value

  /** Either the value a call produced or the error it raised. */
  datatype Result<+T> = Ok(value: T) | Err(error: Error)
}

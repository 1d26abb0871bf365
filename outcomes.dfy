/** Optional values and results with an error message, used where the Go code
    returns nil or panics. */
module Outcomes {

  datatype Option<+T> = None | Some(value: T)

  /** A Go panic becomes a Failure carrying the panic message. */
  datatype Result<+T> = Success(value: T) | Failure(error: string)
}

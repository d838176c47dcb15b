/** Results of the library's calls: a value, or the documented error code. */
module Outcome {

  datatype Option<+T> = None | Some(value: T)

  /** The error codes the modelled calls document; the names follow `doca_error_t`. */
  datatype Error =
    | Success
    | NotPermitted
    | InUse
    | InvalidValue
    | NoMemory
    | Initialization
    | NotConnected
    | BadState
    | Empty
    | InProgress
    | TooBig

  datatype Result<+T> = Ok(value: T) | Err(error: Error)
}

/** Success-or-failure values standing in for Go's (value, error) and (value, ok) results. */
module Wrappers {

  datatype Option<+T> = None | Some(value: T)

  /** The gRPC status codes that the modelled methods return; a plain Go error reaches the client as Unknown. */
  datatype Code = InvalidArgument | NotFound | AlreadyExists | Aborted | Unknown

  datatype Result<+T> = Ok(value: T) | Err(code: Code)
}

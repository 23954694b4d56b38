/** Option and Result, the two wrappers the jitter buffer model uses for
    "no frame in this slot" / "no origin yet" and for the error that `peek`
    raises. */
module Wrappers {

  datatype Option<+T> = None | Some(value: T)

  datatype Result<+T, +E> = Ok(value: T) | Err(error: E)
}

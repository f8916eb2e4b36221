/** Failure-carrying result types shared by the modules of this model. */
module Wrappers {

  /** A value that may be missing: Go's `nil` interface value or an absent error. */
  datatype Option<+T> = None | Some(value: T)

  /** The outcome of an operation that may panic: `Panic` carries the panic message. */
  datatype Result<+T> = Ok(value: T) | Panic(message: string)
}

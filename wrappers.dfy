/** Java `null` results and thrown exceptions, as explicit values. */
module Wrappers {

  datatype Option<+T> = None | Some(value: T)

  /** The unchecked exceptions the modelled code can raise. */
  datatype Exception =
    | NullPointerException
    | IndexOutOfBoundsException
    | ArrayIndexOutOfBoundsException
    | IllegalArgumentException
    | IllegalStateException

  /** A call that either returns a value or throws. */
  datatype Outcome<+T> = Ok(value: T) | Thrown(error: Exception)
}

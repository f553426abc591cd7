/** The values the register code passes around besides plain integers: the
    Python exceptions it can raise, a Result that carries either a value or one
    of them, optional values, and the bytes a `bytearray`
    accepts. */
module Outcomes {

  /** The exceptions this core can raise.  ValueError: a byte store of a
      value outside 0..255.  IndexError: a store past the end of a
      memoryview.  TypeError: a call that leaves out a required argument. */
  datatype Error = ValueError | IndexError | TypeError

  /** Either the value an operation returns or the exception it raises. */
  datatype Result<+T> = Ok(value: T) | Err(error: Error)

  /** An optional value: an alarm field that is an int or `None`, a
      keyword argument given or left out, an exception raised or not. */
  datatype Option<+T> = None | Some(value: T) {

    /** The value, or `default` when None. */
    function GetOr(default: T): T {
      match this
      case Some(v) => v
      case None => default
    }
  }

  /** The integers a store into a `bytearray` or a byte memoryview accepts. */
  predicate IsByte(x: int) {
    0 <= x < 256
  }

  type byte = x: int | IsByte(x)
}

/** Option and Result values, and the Python exceptions the modelled code can raise. */
module Wrappers {

  datatype Option<+T> = None | Some(value: T)

  datatype Result<+R, +E> = Ok(value: R) | Err(error: E)

  /** The exceptions of the modelled Python code that the model surfaces as values:
      `max()` of an empty sequence (ValueError), `int()` of a non-number (ValueError),
      a missing dictionary key (KeyError) and `input()` at end of input (EOFError). */
  datatype PyError = ValueError | KeyError | EOFError
}

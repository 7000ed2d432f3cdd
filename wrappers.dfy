/** Option and Result types, and the Python exceptions the engine can raise. */
module Wrappers {

  datatype Option<T> = None | Some(value: T)

  /** The exceptions the resolution engine raises on some inputs. */
  datatype Exception =
    | ZeroDivisionError          // tolerance of an empty token against the empty key
    | KeyError(key: Option<string>)  // a dictionary lookup of a missing key (None: the key `None`)
    | AttributeError             // `None.split` on a no-match result
    | UnboundLocalError          // the nickname table was never built
    | TypeError                  // `str + None` in the verbose message of `resolve`

  /** The outcome of an operation that returns a value or raises. */
  datatype Result<T> = Ok(value: T) | Err(error: Exception)
}

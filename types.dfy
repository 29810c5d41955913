/** Small value types shared by every part of the retrieval pipeline. */
module Types {

  /** A value that may be missing, as a `dict.get` without a default would give. */
  datatype Option<T> = None | Some(value: T)
  {
    function GetOr(default: T): T
    {
      match this
      case Some(v) => v
      case None => default
    }
  }

  /** The outcome of an operation that can raise. */
  datatype Result<T, E> = Ok(value: T) | Err(error: E)

  /** The Python exception classes the core raises or tells apart. */
  datatype Raised =
    | RuntimeError  // raised by the search of an empty store and by loading a PDF without usable text; retrieve catches it from the search only
    | ValueError    // raised by `range` for a batch size of 0
    | OtherError    // anything else the backend may raise; never caught by the core
}

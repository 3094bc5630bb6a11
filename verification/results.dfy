/** Failure-carrying values shared by both applications' models. */
module Results {

  /** A value that may be missing: a cancelled prompt, an unparsable entry, an absent row. */
  datatype Option<+T> = None | Some(value: T)
  {
    function GetOr(default: T): T
    {
      match this
      case Some(v) => v
      case None => default
    }
  }

  /** The outcome of an operation that the application may refuse with an error dialog. */
  datatype Result<+T, +E> = Ok(value: T) | Err(error: E)

}

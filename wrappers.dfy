/** Option and Result: the "value or nothing" and "value or error" shapes used
    for Python's `None` and for the exceptions the scraper lets escape. */
module Wrappers {

  datatype Option<T> = None | Some(value: T) {
    /** `dict.get(key, default)` / "attribute or default". */
    function GetOr(default: T): T {
      match this
      case Some(v) => v
      case None => default
    }
  }

  datatype Result<T, E> = Ok(value: T) | Err(error: E)
}

/** Option and Result values shared by the modules of this model. */
module Wrappers {

  datatype Option<T> = None | Some(value: T) {
    /** The carried value, or `default` when there is none. */
    function GetOr(default: T): T {
      match this
      case Some(v) => v
      case None => default
    }
  }

  datatype Result<T, E> = Ok(value: T) | Err(error: E)
}

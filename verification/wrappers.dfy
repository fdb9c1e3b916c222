/** Failure-carrying result types shared by every handler of the model. */
module Wrappers {

  /** Stands in for a Java reference that may be null. */
  datatype Option<+T> = None | Some(value: T) {
    function GetOr(default: T): T {
      match this
      case Some(v) => v
      case None => default
    }
  }

  /** The outcome of a GUI handler: the new contents of the file it rewrites,
      or the message of the dialog it shows instead (nothing is written then). */
  datatype Result<+T> = Ok(value: T) | Err(message: string)
}

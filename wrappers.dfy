/** Option and Result values shared by the other modules. */
module Wrappers {

  /** `None` stands for JavaScript's `undefined` / `null`. */
  datatype Option<+T> = None | Some(value: T) {
    function GetOr(default: T): T {
      match this
      case Some(v) => v
      case None => default
    }
  }

  /** `Failure` stands for an exception thrown inside the computation. */
  datatype Result<+T> = Ok(value: T) | Failure(error: string)
}

/** Option and Result types shared by the whole model: `Option` stands for a
    C# nullable / `FirstOrDefault` result, `Result` for an operation that
    either succeeds or throws / returns an error response. */
module Wrappers {

  datatype Option<+T> = None | Some(value: T) {
    function GetOr(default: T): T {
      match this
      case Some(v) => v
      case None => default
    }
  }

  /** `Failure` carries the message of the exception or error response; it
      never carries a state, so a failed operation leaves its caller's state
      as it was. */
  datatype Result<+T> = Success(value: T) | Failure(error: string)
}

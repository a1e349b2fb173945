/** Option and Result values, and the error replies the HTTP handlers send. */
module Wrappers {

  datatype Option<+T> = None | Some(value: T) {
    /** The value, or `default` when absent. */
    function GetOr(default: T): T {
      match this
      case Some(v) => v
      case None => default
    }
  }

  datatype Result<+R, +E> = Success(value: R) | Failure(error: E)

  /** An error reply of a handler: the HTTP status it stands for and its message. */
  datatype ApiError =
    | BadRequest(message: string)   // 400
    | NotFound(message: string)     // 404
    | ServerError(reason: string)   // 500: a store failure or a runtime exception
  {
    function Status(): int {
      match this
      case BadRequest(_) => 400
      case NotFound(_) => 404
      case ServerError(_) => 500
    }
  }
}

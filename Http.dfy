/** The action results the controllers return, reduced to status code and payload. */
module Http {

  datatype Response<T> =
    | Ok(value: T)                    // 200, also a file result
    | Created(value: T)               // 201 CreatedAtAction
    | NoContent                       // 204
    | BadRequest(message: string)     // 400 with a plain-text body
    | ValidationProblem               // 400 with the model-state errors
    | Unauthorized(message: string)   // 401
    | NotFound                        // 404
    | Conflict(message: string)       // 409
    | ServerError(message: string)    // 500 from StatusCode(500, ...)
    | Unhandled                       // 500: an exception escaped the action
  {
    function StatusCode(): int {
      match this
      case Ok(_) => 200
      case Created(_) => 201
      case NoContent => 204
      case BadRequest(_) => 400
      case ValidationProblem => 400
      case Unauthorized(_) => 401
      case NotFound => 404
      case Conflict(_) => 409
      case ServerError(_) => 500
      case Unhandled => 500
    }
  }
}

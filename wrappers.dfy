/** Option, Result and the error kinds the models throw (expressError.js is not
    part of this model: only the class of each error and its message are kept). */
module Wrappers {

  datatype Option<+T> = None | Some(value: T)

  /** UnauthorizedError, BadRequestError and NotFoundError as the models throw
      them; ServerError stands for an exception raised by the database or by a
      library (unique-key violation, SQL syntax error, bcrypt rejecting its
      argument), which the error handler reports with status 500. */
  datatype Error =
    | BadRequest(message: string)
    | Unauthorized(reason: Option<string>)
    | NotFound(message: string)
    | ServerError

  datatype Result<+T> = Ok(value: T) | Err(error: Error)
}

/** What the services throw. `APIError(statusCode, message)` becomes ApiError;
    a plain `new Error(message)` becomes PlainError; the TypeError of calling
    something that is not a function becomes TypeError; a query or write the
    database refuses (an Invalid Date in a filter) becomes StoreRejected. */
module Errors {

  datatype StatusCode = BadRequest | Forbidden | NotFound

  datatype Failure =
    | ApiError(code: StatusCode, message: string)
    | PlainError(message: string)
    | TypeError(message: string)
    | StoreRejected
}

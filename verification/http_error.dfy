/**
 The error vocabulary shared by the task routes and the error-handling
 middleware: an error that carries the HTTP status it must be answered with,
 and the result type every route operation returns instead of throwing.
 */
module HttpErrors {

  /** An error raised on purpose by a route, with its HTTP status code. */
  datatype HttpError = HttpError(statusCode: int, message: string)

  /** The outcome of a route: a value, or the `HttpError` it throws. */
  datatype Result<+T> = Ok(value: T) | Err(error: HttpError)
}

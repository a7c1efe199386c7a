/**
 The error-handling middleware: the last stop of every failed request. It
 turns whatever a route threw into a status code and a `{message, statusCode}`
 body. Logging the error to the console is I/O and is not modelled.
 */
module ErrorHandler {
  import opened HttpErrors

  /** Anything a route can throw: one of our `HttpError`s, or any other error. */
  datatype Thrown = Http(err: HttpError) | Unexpected(message: string)

  /** The JSON body of an error response. */
  datatype ErrorBody = ErrorBody(message: string, statusCode: int)

  datatype Response = Response(status: int, body: ErrorBody)

  const InternalStatus: int := 500
  const InternalMessage: string := "Internal Server Error"

  /**
   An `HttpError` is answered with its own status and message; every other
   error gets a fixed 500 response, so nothing about it reaches the client.
   */
  function HandleError(thrown: Thrown): (r: Response)
    ensures r.body.statusCode == r.status
    ensures thrown.Http? ==> r.status == thrown.err.statusCode && r.body.message == thrown.err.message
    ensures thrown.Unexpected? ==> r.status == 500 && r.body.message == "Internal Server Error"
  {
    match thrown
    case Http(err) => Response(err.statusCode, ErrorBody(err.message, err.statusCode))
    case Unexpected(_) => Response(InternalStatus, ErrorBody(InternalMessage, InternalStatus))
  }

  /** The fallback response does not depend on the unexpected error at all. */
  lemma FallbackLeaksNothing(a: Thrown, b: Thrown)
    requires a.Unexpected? && b.Unexpected?
    ensures HandleError(a) == HandleError(b)
  {
  }

  /** An `HttpError` can be read back unchanged from the response it produces. */
  lemma HttpErrorRoundTrip(err: HttpError)
    ensures var r := HandleError(Http(err)); HttpError(r.status, r.body.message) == err
  {
  }
}

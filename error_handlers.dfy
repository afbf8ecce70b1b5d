/** app/utils/error_handlers.py: the handler FastAPI calls for any exception a route lets escape. */
module ErrorHandlers {
  import opened Wrappers
  import opened Exceptions
  import opened Response
  import Json

  /** The reply a client sees for a service's outcome: its response, or the generic 500 for any exception. */
  function Handled(r: Result<Response, Exception>): (resp: Response)
    ensures r.Success? ==> resp == r.value
    ensures r.Failure? ==> resp.statusCode == HttpInternalServerError
                           && IsEnvelope(resp, "error", GenericErrorMessage, Json.Null)
  {
    match r
    case Success(response) => response
    case Failure(_) => Error()
  }

  /** Which exception was raised never reaches the client. */
  lemma HandlerHidesException(e1: Exception, e2: Exception)
    ensures Handled(Failure(e1)) == Handled(Failure(e2))
  {
  }
}

/** The response envelope of app/utils/response.py: every reply is a JSON object with exactly the keys
    "status", "message" and "data", sent with an HTTP status code. */
module Response {
  import opened Json

  const HttpOk: int := 200
  const HttpBadRequest: int := 400
  const HttpUnauthorized: int := 401
  const HttpForbidden: int := 403
  const HttpNotFound: int := 404
  const HttpInternalServerError: int := 500

  const GenericErrorMessage: string :=
    "Oops!!! Something went wrong. Contact your support for more information."

  /** A `JSONResponse(status_code, content)`. */
  datatype Response = Response(statusCode: int, body: map<string, Value>)

  /** The body is exactly {status, message, data} with the given strings and payload. */
  predicate IsEnvelope(r: Response, status: string, message: string, data: Value) {
    && r.body.Keys == {"status", "message", "data"}
    && r.body["status"] == Str(status)
    && r.body["message"] == Str(message)
    && r.body["data"] == data
  }

  /** `custom_response`: the envelope dict sent with a status code. */
  function Envelope(status: string, message: string, data: Value, statusCode: int): (r: Response)
    ensures r.statusCode == statusCode && IsEnvelope(r, status, message, data)
  {
    Response(statusCode, map["status" := Str(status), "message" := Str(message), "data" := data])
  }

  /** `ok()`: 200; status defaults to "success", message to "" and data to None. */
  function Ok(status: string := "success", message: string := "", data: Value := Null): (r: Response)
    ensures r.statusCode == HttpOk && IsEnvelope(r, status, message, data)
  {
    Envelope(status, message, data, HttpOk)
  }

  /** `unauthorized()`: 401 with {"error", "Unauthorized", None}. */
  function Unauthorized(): (r: Response)
    ensures r.statusCode == HttpUnauthorized && IsEnvelope(r, "error", "Unauthorized", Null)
  {
    Envelope("error", "Unauthorized", Null, HttpUnauthorized)
  }

  /** `forbidden()`: 403 with {"error", "Forbidden", None}. */
  function Forbidden(): (r: Response)
    ensures r.statusCode == HttpForbidden && IsEnvelope(r, "error", "Forbidden", Null)
  {
    Envelope("error", "Forbidden", Null, HttpForbidden)
  }

  /** `error()`: status "error", the generic message, no data and 500 unless the caller says otherwise. */
  function Error(status: string := "error", message: string := GenericErrorMessage, data: Value := Null,
                 statusCode: int := HttpInternalServerError): (r: Response)
    ensures r.statusCode == statusCode && IsEnvelope(r, status, message, data)
  {
    Envelope(status, message, data, statusCode)
  }
}

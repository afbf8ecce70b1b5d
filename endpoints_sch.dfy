/** app/schemas/endpoints_sch.py: the request bodies of the endpoint routes and the response model that
    validates an endpoint's `as_dict()`. */
module EndpointsSchema {
  import opened Wrappers
  import opened Json
  import opened Exceptions
  import opened Models

  /** The body of POST /endpoints, with its defaults. `response` is a dict or None. */
  datatype CreateEndpoint = CreateEndpoint(
    name: string,
    url: string,
    threshold: int,
    cron: string,
    statusCode: int,
    kind: string,
    description: Option<string> := None,
    applicationId: Option<int> := None,
    response: Option<map<string, Value>> := Some(map[]))

  /** The body of PUT /endpoints/{id}: every field optional; `response` is a dict or None and defaults to an empty
      dict, not None. */
  datatype UpdateEndpoint = UpdateEndpoint(
    name: Option<string> := None,
    description: Option<string> := None,
    url: Option<string> := None,
    threshold: Option<int> := None,
    applicationId: Option<int> := None,
    cron: Option<string> := None,
    statusCode: Option<int> := None,
    response: Option<map<string, Value>> := Some(map[]),
    kind: Option<string> := None)

  /** `CreateEndpointInDb`: the create body plus the name of its log table. */
  datatype CreateEndpointInDb = CreateEndpointInDb(data: CreateEndpoint, logTable: string)

  /** `BaseEndpointsOut.model_validate(endpoint.as_dict())`. Every field but two has its declared type by
      construction of `Endpoint`; `response` must be a dict or None, and `log_table` is required text. The
      extra `created_at` is dropped. */
  function BaseEndpointsOut(e: Endpoint): (r: Result<map<string, Value>, Exception>)
    ensures r.Success? <==> e.logTable.Some? && (e.response.Obj? || e.response.Null?)
    ensures !(e.response.Obj? || e.response.Null?) ==> r == Failure(ValidationError("response"))
    ensures (e.response.Obj? || e.response.Null?) && e.logTable.None? ==> r == Failure(ValidationError("log_table"))
    ensures r.Success? ==> r.value.Keys == EndpointKeys - {"created_at"}
                           && forall k :: k in r.value ==> r.value[k] == EndpointAsDict(e)[k]
  {
    if !(e.response.Obj? || e.response.Null?) then Failure(ValidationError("response"))
    else if e.logTable.None? then Failure(ValidationError("log_table"))
    else Success(EndpointAsDict(e) - {"created_at"})
  }
}

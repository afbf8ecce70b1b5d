/** app/services/endpoints_srv.py: the endpoint service behind the /endpoints routes. Every operation ends in a
    response or raises; a raised exception becomes the generic 500 of `ErrorHandlers.Handled`. */
module EndpointsService {
  import opened Wrappers
  import opened Json
  import opened Exceptions
  import opened Text
  import opened Models
  import opened Response
  import Calendar
  import Schema = EndpointsSchema
  import EndpointsDao
  import LogTableDao
  import ErrorHandlers
  import UptimeGraph

  const AllMessage: string := "Successfully provided all endpoints."
  const OneMessage: string := "Successfully provided endpoint."
  const GraphMessage: string := "Successfully provided status graph for endpoint."
  const CreatedMessage: string := "Successfully created endpoint."
  const UpdatedMessage: string := "Successfully updated endpoint."
  const DeletedMessage: string := "Endpoint has been successfully deleted."

  /** The 404 every lookup by id answers when the id is unknown. */
  function NotFound(id: int): (r: Response)
    ensures r.statusCode == HttpNotFound
    ensures IsEnvelope(r, "error", "Endpoint with ID " + IntToString(id) + " does not exist.", Null)
  {
    Error(message := "Endpoint with ID " + IntToString(id) + " does not exist.", statusCode := HttpNotFound)
  }

  /** `ok(message, data=<validated model>)`: the validation error, or the 200 carrying the validated dict. */
  function Shown(message: string, validated: Result<map<string, Value>, Exception>): (r: Result<Response, Exception>)
    ensures validated.Failure? ==> r == Failure(validated.error)
    ensures validated.Success? ==> r.Success? && r.value.statusCode == HttpOk
                                   && IsEnvelope(r.value, "success", message, Obj(validated.value))
  {
    match validated
    case Failure(e) => Failure(e)
    case Success(fields) => Success(Ok(message := message, data := Obj(fields)))
  }

  /* generate_table_name */

  predicate IsLowerHex(c: char) {
    IsDigit(c) || 'a' <= c <= 'f'
  }

  predicate IsDashPosition(i: int) {
    i == 8 || i == 13 || i == 18 || i == 23
  }

  /** `str(uuid.uuid4())`: 32 lower-case hex digits in groups of 8-4-4-4-12, version 4, RFC 4122 variant. */
  predicate IsUuidText(u: string) {
    && |u| == 36
    && (forall i :: 0 <= i < |u| ==> (u[i] == '-' <==> IsDashPosition(i)))
    && (forall i :: 0 <= i < |u| && !IsDashPosition(i) ==> IsLowerHex(u[i]))
    && u[14] == '4'
    && (u[19] == '8' || u[19] == '9' || u[19] == 'a' || u[19] == 'b')
  }

  /** `generate_table_name` for the uuid text `u`: "t", the uuid with underscores for dashes, cut to 63
      characters (PostgreSQL's identifier limit). */
  function GenerateTableName(u: string): (name: string)
    ensures 0 < |name| <= 63 && name[0] == 't'
  {
    var tableName := "t" + ReplaceChar(u, '-', '_');
    if |tableName| > 63 then tableName[..63] else tableName
  }

  /** A uuid gives a 37-character name, never cut: "t" followed by the uuid with each dash turned into "_". */
  lemma GeneratedNameShape(u: string)
    requires IsUuidText(u)
    ensures var name := GenerateTableName(u);
            && |name| == 37 && name[0] == 't'
            && forall i :: 1 <= i < 37 ==> name[i] == if IsDashPosition(i - 1) then '_' else u[i - 1]
  {
  }

  /** The generated name passes the sanitizer and PostgreSQL folds nothing in it, so every later statement
      on it reaches exactly the table `create_log_table` made under that name. */
  lemma GeneratedNameIsPlain(u: string)
    requires IsUuidText(u)
    ensures LogTableDao.SanitizeTableName(GenerateTableName(u)).Success?
    ensures LogTableDao.UnquotedTableName(GenerateTableName(u)) == Success(GenerateTableName(u))
  {
    var name := GenerateTableName(u);
    GeneratedNameShape(u);
    assert forall i :: 0 <= i < |name| ==> LogTableDao.IsNameChar(name[i]) && !IsAsciiUpper(name[i]);
    assert LogTableDao.StripFinalNewline(name) == name;
    LogTableDao.UnquotedTableNameIdentity(name);
  }

  /** Distinct uuids give distinct table names. */
  lemma GeneratedNamesDistinct(u1: string, u2: string)
    requires IsUuidText(u1) && IsUuidText(u2) && u1 != u2
    ensures GenerateTableName(u1) != GenerateTableName(u2)
  {
    GeneratedNameShape(u1);
    GeneratedNameShape(u2);
    var i :| 0 <= i < 36 && u1[i] != u2[i];
    assert GenerateTableName(u1)[i + 1] != GenerateTableName(u2)[i + 1];
  }

  /** Reading and dropping by the generated name find the table stored under that very name. */
  lemma GeneratedNameAddressesItsTable(tables: map<string, seq<LogRow>>, u: string)
    requires IsUuidText(u)
    ensures var name := GenerateTableName(u);
            && LogTableDao.SanitizeTableName(name).Success?
            && (name in tables ==> LogTableDao.LookupLogTable(tables, name) == Success(tables[name]))
            && (name !in tables ==> LogTableDao.LookupLogTable(tables, name) == Failure(UndefinedTable("log." + name)))
            && LogTableDao.DropIfExists(tables, name) == Success(tables - {name})
  {
    GeneratedNameIsPlain(u);
  }

  /* Reads */

  /** What `BaseEndpointsOut.model_validate` makes of an endpoint given its latest status. */
  function Presented(tables: map<string, seq<LogRow>>, e: Endpoint): (r: Result<map<string, Value>, Exception>)
    requires EndpointsDao.HasLogTable(e) ==> LogTableDao.SanitizeTableName(e.logTable.value).Success?
  {
    match EndpointsDao.WithLatestStatus(tables, e)
    case Failure(err) => Failure(err)
    case Success(overlaid) => Schema.BaseEndpointsOut(overlaid)
  }

  /** A list comprehension whose element expression may raise: every value, or the first exception. */
  function Collect(results: seq<Result<map<string, Value>, Exception>>): (r: Result<seq<Value>, Exception>)
    ensures r.Success? <==> forall i :: 0 <= i < |results| ==> results[i].Success?
    ensures r.Success? ==> |r.value| == |results|
                           && forall i :: 0 <= i < |results| ==> r.value[i] == Obj(results[i].value)
    ensures r.Failure? ==> exists i :: 0 <= i < |results| && results[i] == Failure(r.error)
                                        && forall j :: 0 <= j < i ==> results[j].Success?
  {
    if results == [] then Success([])
    else
      match results[0]
      case Failure(e) => Failure(e)
      case Success(fields) =>
        var rest := Collect(results[1..]);
        assert forall i :: 1 <= i < |results| ==> results[i] == results[1..][i - 1];
        match rest
        case Failure(e) =>
          var i :| 0 <= i < |results[1..]| && results[1..][i] == Failure(e)
                   && forall j :: 0 <= j < i ==> results[1..][j].Success?;
          assert results[i + 1] == Failure(e);
          Failure(e)
        case Success(values) => Success([Obj(fields)] + values)
  }

  /** What `get_all` sends when nothing raises: each endpoint of the `created_at` listing, presented. */
  function ListingJson(tables: map<string, seq<LogRow>>, endpoints: map<int, Endpoint>): (r: Result<seq<Value>, Exception>)
    requires EndpointsKeyed(endpoints) && EndpointsDao.PlainLogTables(endpoints)
  {
    Collect(PresentedAll(tables, EndpointsDao.GetAll(endpoints)))
  }

  /** Every endpoint of a listing, presented. */
  function PresentedAll(tables: map<string, seq<LogRow>>, listing: seq<Endpoint>): (r: seq<Result<map<string, Value>, Exception>>)
    requires forall i :: 0 <= i < |listing| && EndpointsDao.HasLogTable(listing[i]) ==>
               LogTableDao.SanitizeTableName(listing[i].logTable.value).Success?
    ensures |r| == |listing| && forall i :: 0 <= i < |listing| ==> r[i] == Presented(tables, listing[i])
  {
    seq(|listing|, i requires 0 <= i < |listing| => Presented(tables, listing[i]))
  }

  /** The listing succeeds exactly when every endpoint can be presented. */
  lemma ListingJsonSucceedsIffAll(tables: map<string, seq<LogRow>>, endpoints: map<int, Endpoint>)
    requires EndpointsKeyed(endpoints) && EndpointsDao.PlainLogTables(endpoints)
    ensures ListingJson(tables, endpoints).Success? <==>
              forall id :: id in endpoints ==> Presented(tables, endpoints[id]).Success?
  {
    var listing := EndpointsDao.GetAll(endpoints);
    var presented := PresentedAll(tables, listing);
    if forall i :: 0 <= i < |presented| ==> presented[i].Success? {
      forall id | id in endpoints
        ensures Presented(tables, endpoints[id]).Success?
      {
        var i :| 0 <= i < |listing| && listing[i].id == id;
        assert presented[i].Success?;
      }
    } else {
      var i :| 0 <= i < |presented| && !presented[i].Success?;
      assert listing[i] == endpoints[listing[i].id];
    }
  }

  /** A successful listing holds each endpoint, presented, once and in `created_at` order. */
  lemma ListingJsonShowsEach(tables: map<string, seq<LogRow>>, endpoints: map<int, Endpoint>)
    requires EndpointsKeyed(endpoints) && EndpointsDao.PlainLogTables(endpoints)
    requires ListingJson(tables, endpoints).Success?
    ensures |ListingJson(tables, endpoints).value| == |endpoints|
    ensures forall i :: 0 <= i < |endpoints| ==>
              ListingJson(tables, endpoints).value[i] == Obj(Presented(tables, EndpointsDao.GetAll(endpoints)[i]).value)
    ensures forall id :: id in endpoints ==>
              exists i :: 0 <= i < |endpoints| &&
                ListingJson(tables, endpoints).value[i] == Obj(Presented(tables, endpoints[id]).value)
  {
    var listing := EndpointsDao.GetAll(endpoints);
    ListingCoversEndpoints(endpoints, listing);
    forall id | id in endpoints
      ensures exists i :: 0 <= i < |endpoints| &&
                ListingJson(tables, endpoints).value[i] == Obj(Presented(tables, endpoints[id]).value)
    {
      var i :| 0 <= i < |listing| && listing[i].id == id;
      assert ListingJson(tables, endpoints).value[i] == Obj(Presented(tables, endpoints[id]).value);
    }
  }

  /** A listing of all endpoints has one element per endpoint. */
  lemma ListingCoversEndpoints(endpoints: map<int, Endpoint>, listing: seq<Endpoint>)
    requires EndpointsDao.IsListingOf(listing, endpoints, endpoints.Keys)
    ensures |listing| == |endpoints|
  {
    var ids := set i | 0 <= i < |listing| :: listing[i].id;
    forall id | id in endpoints
      ensures id in ids
    {
      var i :| 0 <= i < |listing| && listing[i].id == id;
    }
    assert ids == endpoints.Keys;
    IdsOfDistinct(listing);
  }

  /** Distinct ids: as many ids as elements. */
  lemma {:induction false} IdsOfDistinct(listing: seq<Endpoint>)
    requires forall i, j :: 0 <= i < j < |listing| ==> listing[i].id != listing[j].id
    ensures |set i | 0 <= i < |listing| :: listing[i].id| == |listing|
  {
    if listing != [] {
      var n := |listing| - 1;
      IdsOfDistinct(listing[..n]);
      var front := set i | 0 <= i < n :: listing[..n][i].id;
      var all := set i | 0 <= i < |listing| :: listing[i].id;
      assert all == front + {listing[n].id};
      assert listing[n].id !in front;
    }
  }

  /** `get_all`: every endpoint with its latest status, validated, ordered by `created_at`. */
  method GetAll(db: Database) returns (r: Result<Response, Exception>)
    requires db.Valid() && EndpointsDao.PlainLogTables(db.endpoints)
    ensures r.Success? <==> ListingJson(db.logTables, db.endpoints).Success?
    ensures r.Success? ==> r.value == Ok(message := AllMessage, data := Arr(ListingJson(db.logTables, db.endpoints).value))
    ensures r.Failure? ==> exists id :: id in db.endpoints && Presented(db.logTables, db.endpoints[id]) == Failure(r.error)
  {
    var endpoints := EndpointsDao.GetAllWithLatestLogStatus(db.logTables, db.endpoints);
    if endpoints.Failure? {
      ListingJsonSucceedsIffAll(db.logTables, db.endpoints);
      return Failure(endpoints.error);
    }
    var overlaid := endpoints.value;
    var validated := seq(|overlaid|, i requires 0 <= i < |overlaid| => Schema.BaseEndpointsOut(overlaid[i]));
    PresentedListing(db.logTables, db.endpoints, overlaid, validated);
    var data := Collect(validated);
    if data.Failure? {
      ListingJsonSucceedsIffAll(db.logTables, db.endpoints);
      return Failure(data.error);
    }
    return Success(Ok(message := AllMessage, data := Arr(data.value)));
  }

  /** The validated overlay of the listing is the presented listing, and any of its errors is the error of
      presenting some endpoint. */
  lemma {:induction false} PresentedListing(tables: map<string, seq<LogRow>>, endpoints: map<int, Endpoint>, overlaid: seq<Endpoint>,
                         validated: seq<Result<map<string, Value>, Exception>>)
    requires EndpointsKeyed(endpoints) && EndpointsDao.PlainLogTables(endpoints)
    requires |overlaid| == |EndpointsDao.GetAll(endpoints)| == |validated|
    requires forall i :: 0 <= i < |overlaid| ==>
               EndpointsDao.WithLatestStatus(tables, EndpointsDao.GetAll(endpoints)[i]) == Success(overlaid[i])
    requires forall i :: 0 <= i < |overlaid| ==> validated[i] == Schema.BaseEndpointsOut(overlaid[i])
    ensures Collect(validated) == ListingJson(tables, endpoints)
    ensures forall i :: 0 <= i < |validated| && validated[i].Failure? ==>
              exists id :: id in endpoints && Presented(tables, endpoints[id]) == validated[i]
  {
    var listing := EndpointsDao.GetAll(endpoints);
    var presented := PresentedAll(tables, listing);
    assert forall i :: 0 <= i < |validated| ==> validated[i] == presented[i];
    assert validated == presented;
    forall i | 0 <= i < |validated| && validated[i].Failure?
      ensures exists id :: id in endpoints && Presented(tables, endpoints[id]) == validated[i]
    {
      var id := listing[i].id;
      assert id in endpoints && endpoints[id] == listing[i];
      assert Presented(tables, endpoints[id]) == validated[i];
    }
  }

  /** `get_by_id` as it should behave: 404 for an unknown id, else the endpoint with its latest status. */
  method GetById(db: Database, id: int) returns (r: Result<Response, Exception>)
    requires db.Valid() && EndpointsDao.PlainLogTables(db.endpoints)
    ensures id !in db.endpoints ==> r == Success(NotFound(id))
    ensures id !in db.endpoints ==> ErrorHandlers.Handled(r).statusCode == HttpNotFound
    ensures id in db.endpoints ==> r == Shown(OneMessage, Presented(db.logTables, db.endpoints[id]))
  {
    var found := EndpointsDao.GetById(db.endpoints, id);
    if found.None? {
      return Success(NotFound(id));
    }
    var endpoint := EndpointsDao.WithLatestStatus(db.logTables, found.value);
    match endpoint {
      case Failure(e) =>
        return Failure(e);
      case Success(overlaid) =>
        return Shown(OneMessage, Schema.BaseEndpointsOut(overlaid));
    }
  }

  /** `get_by_id` as written: `get_by_id_with_latest_log_status` dereferences the missing endpoint before the
      service's None check, so an unknown id raises and the client gets the generic 500, not the 404. */
  method GetByIdAsWritten(db: Database, id: int) returns (r: Result<Response, Exception>)
    requires db.Valid() && EndpointsDao.PlainLogTables(db.endpoints)
    ensures id !in db.endpoints ==> r == Failure(AttributeError("'NoneType' object has no attribute 'log_table'"))
    ensures id !in db.endpoints ==> ErrorHandlers.Handled(r).statusCode == HttpInternalServerError
    ensures id in db.endpoints ==> r == Shown(OneMessage, Presented(db.logTables, db.endpoints[id]))
  {
    var endpoint := EndpointsDao.GetByIdWithLatestLogStatus(db.logTables, db.endpoints, id);
    match endpoint {
      case Failure(e) =>
        return Failure(e);
      case Success(overlaid) =>
        return Shown(OneMessage, Schema.BaseEndpointsOut(overlaid));
    }
  }

  /** The rows of a log table as `[record._asdict() for record in log_records]`, sent as JSON. */
  function RowsJson(rows: seq<LogRow>): (r: seq<Value>)
    ensures |r| == |rows| && forall i :: 0 <= i < |rows| ==> r[i] == Obj(LogRowAsDict(rows[i]))
  {
    seq(|rows|, i requires 0 <= i < |rows| => Obj(LogRowAsDict(rows[i])))
  }

  /** `get_status_graph_by_id`: 404 for an unknown id; otherwise the endpoint is validated and every row of its
      log table is sent, or no row when it has no log table. */
  method GetStatusGraphById(db: Database, id: int) returns (r: Result<Response, Exception>)
    requires db.Valid()
    ensures id !in db.endpoints ==> r == Success(NotFound(id))
    ensures id in db.endpoints ==>
              var e := db.endpoints[id];
              match Schema.BaseEndpointsOut(e)
              case Failure(err) => r == Failure(err)
              case Success(_) =>
                && (!EndpointsDao.HasLogTable(e) ==> r == Success(Ok(message := GraphMessage, data := Arr([]))))
                && (EndpointsDao.HasLogTable(e) ==>
                      match LogTableDao.SelectAllFromLogTable(db.logTables, e.logTable.value)
                      case Failure(err) => r == Failure(err)
                      case Success(rows) => r == Success(Ok(message := GraphMessage, data := Arr(RowsJson(rows)))))
  {
    var found := EndpointsDao.GetById(db.endpoints, id);
    if found.None? {
      return Success(NotFound(id));
    }
    var endpoint := found.value;
    var endpointData := Schema.BaseEndpointsOut(endpoint);
    if endpointData.Failure? {
      return Failure(endpointData.error);
    }
    var logs: seq<Value> := [];
    if EndpointsDao.HasLogTable(endpoint) {
      var logRecords := LogTableDao.SelectAllFromLogTable(db.logTables, endpoint.logTable.value);
      if logRecords.Failure? {
        return Failure(logRecords.error);
      }
      logs := RowsJson(logRecords.value);
    }
    return Success(Ok(message := GraphMessage, data := Arr(logs)));
  }

  /** `get_uptime_graph_by_id`: the rows are fetched with the clock at `queryNow`, the graph is cut with the
      clock at `loopNow`, a later reading. */
  method GetUptimeGraphById(db: Database, id: int, queryNow: int, loopNow: int) returns (r: Result<Response, Exception>)
    requires db.Valid()
    ensures id !in db.endpoints ==> r == Success(NotFound(id))
    ensures id in db.endpoints && !EndpointsDao.HasLogTable(db.endpoints[id]) ==>
              r == Success(Ok(message := GraphMessage, data := Arr([])))
    ensures id in db.endpoints && EndpointsDao.HasLogTable(db.endpoints[id]) ==>
              match LogTableDao.SelectLogsFromLastHours(db.logTables, db.endpoints[id].logTable.value,
                                                         UptimeGraph.GraphHours, queryNow)
              case Failure(err) => r == Failure(err)
              case Success(logs) =>
                && (!Calendar.IsDatetime(UptimeGraph.WindowStart(loopNow, UptimeGraph.GraphHours)) ==>
                      r == Failure(OverflowError("date value out of range")))
                && (Calendar.IsDatetime(UptimeGraph.WindowStart(loopNow, UptimeGraph.GraphHours)) ==>
                      r == Success(Ok(message := GraphMessage,
                                      data := Arr(UptimeGraph.GraphJson(UptimeGraph.Timeline(logs, loopNow, UptimeGraph.GraphHours))))))
  {
    var found := EndpointsDao.GetById(db.endpoints, id);
    if found.None? {
      return Success(NotFound(id));
    }
    var endpoint := found.value;
    var hourlyLogs: seq<UptimeGraph.HourlyEntry> := [];
    var hours := UptimeGraph.GraphHours;
    if EndpointsDao.HasLogTable(endpoint) {
      var logs := LogTableDao.SelectLogsFromLastHours(db.logTables, endpoint.logTable.value, hours, queryNow);
      if logs.Failure? {
        return Failure(logs.error);
      }
      if !Calendar.IsDatetime(UptimeGraph.WindowStart(loopNow, hours)) {
        return Failure(OverflowError("date value out of range"));
      }
      hourlyLogs := UptimeGraph.HourlyLogs(logs.value, loopNow, hours);
    }
    return Success(Ok(message := GraphMessage, data := Arr(UptimeGraph.GraphJson(hourlyLogs))));
  }

  /** A "nodata" slot means the log table has no row in that hour, provided the graph's clock reading is not
      earlier than the query's: the query reaches back at least as far as the window. */
  lemma NoDataMeansNoRowInTable(tables: map<string, seq<LogRow>>, name: string, queryNow: int, loopNow: int, k: int)
    requires queryNow <= loopNow && 0 <= k < UptimeGraph.GraphHours
    requires LogTableDao.SelectLogsFromLastHours(tables, name, UptimeGraph.GraphHours, queryNow).Success?
    requires var logs := LogTableDao.SelectLogsFromLastHours(tables, name, UptimeGraph.GraphHours, queryNow).value;
             UptimeGraph.Entry(logs, loopNow, UptimeGraph.GraphHours, k).NoData?
    ensures LogTableDao.LookupLogTable(tables, name).Success?
    ensures forall x :: x in LogTableDao.LookupLogTable(tables, name).value ==>
                          !UptimeGraph.InHour(x, loopNow, UptimeGraph.GraphHours, k)
  {
    var hours := UptimeGraph.GraphHours;
    var logs := LogTableDao.SelectLogsFromLastHours(tables, name, hours, queryNow).value;
    LogTableDao.SinceCoversCutoff(tables, name, hours, queryNow);
    UptimeGraph.NoDataExactlyWhenSlotEmpty(logs, loopNow, hours, k);
    UptimeGraph.SlotsAreWholeHours(loopNow, hours, k);
    assert LogTableDao.Cutoff(queryNow, hours) <= UptimeGraph.WindowStart(loopNow, hours);
  }

  /* Writes */

  /** The stored endpoints as the service leaves them: keyed, with plain log-table names. */
  predicate ServiceInvariant(db: Database)
    reads db
  {
    db.Valid() && EndpointsDao.PlainLogTables(db.endpoints)
  }

  /** `create_endpoint` with `u` the text of the uuid drawn and `now` the database clock. The row is committed
      before the log table is created, so when `create_log_table` raises the endpoint stays without a table. */
  method CreateEndpoint(db: Database, endpointData: Schema.CreateEndpoint, u: string, now: int)
    returns (r: Result<Response, Exception>)
    requires ServiceInvariant(db) && IsUuidText(u)
    modifies db
    ensures ServiceInvariant(db)
    ensures db.users == old(db.users) && db.userSerial == old(db.userSerial)
    ensures var logTable := GenerateTableName(u);
            var error := EndpointsDao.InsertError(endpointData);
            && (error.Some? ==>
                  && r == Failure(error.value)
                  && db.endpoints == old(db.endpoints) && db.endpointSerial == old(db.endpointSerial)
                  && db.logTables == old(db.logTables) && db.metadataTables == old(db.metadataTables))
            && (error.None? ==> db.endpointSerial == old(db.endpointSerial) + 1)
            && (error.None? && EndpointsDao.LogTableTaken(old(db.endpoints), logTable) ==>
                  && r == Success(Error(message := EndpointsDao.DuplicateEndpointDetail, statusCode := HttpBadRequest))
                  && db.endpoints == old(db.endpoints)
                  && db.logTables == old(db.logTables) && db.metadataTables == old(db.metadataTables))
    ensures var logTable := GenerateTableName(u);
            var e := EndpointsDao.NewEndpoint(old(db.endpointSerial) + 1, Schema.CreateEndpointInDb(endpointData, logTable), now);
            EndpointsDao.InsertError(endpointData).None? && !EndpointsDao.LogTableTaken(old(db.endpoints), logTable) ==>
              && db.endpoints == old(db.endpoints)[e.id := e]
              && (logTable in old(db.metadataTables) ==>
                    && r == Failure(InvalidRequestError("log." + logTable))
                    && db.logTables == old(db.logTables) && db.metadataTables == old(db.metadataTables))
              && (logTable !in old(db.metadataTables) ==> db.metadataTables == old(db.metadataTables) + {logTable})
              && (logTable !in old(db.metadataTables) && logTable in old(db.logTables) ==>
                    r == Failure(DuplicateTable(logTable)) && db.logTables == old(db.logTables))
              && (logTable !in old(db.metadataTables) && logTable !in old(db.logTables) ==>
                    && db.logTables == old(db.logTables)[logTable := []]
                    && r == Shown(CreatedMessage, Schema.BaseEndpointsOut(e))
                    && r.Success?)
  {
    var logTable := GenerateTableName(u);
    GeneratedNameIsPlain(u);
    var dbData := Schema.CreateEndpointInDb(endpointData, logTable);
    var endpoint := EndpointsDao.Create(db, dbData, now);
    match endpoint {
      case Failure(e) =>
        if e.DuplicateEndpointError? {
          return Success(Error(message := e.detail, statusCode := HttpBadRequest));
        }
        return Failure(e);
      case Success(created) =>
        var tableCreated := CreateLogTable(db, logTable);
        if tableCreated.Fail? {
          r := Failure(tableCreated.error);
          return;
        }
        return Shown(CreatedMessage, Schema.BaseEndpointsOut(created));
    }
  }

  /* update_endpoint */

  /** The column an update body field writes, and the field's value when it is not None. */
  function FieldValue(endpointData: Schema.UpdateEndpoint, c: EndpointsDao.Column): Option<Value> {
    match c
    case NameColumn => if endpointData.name.Some? then Some(Str(endpointData.name.value)) else None
    case DescriptionColumn =>
      if endpointData.description.Some? then Some(Str(endpointData.description.value)) else None
    case UrlColumn => if endpointData.url.Some? then Some(Str(endpointData.url.value)) else None
    case ThresholdColumn => if endpointData.threshold.Some? then Some(Int(endpointData.threshold.value)) else None
    case ApplicationIdColumn =>
      if endpointData.applicationId.Some? then Some(Int(endpointData.applicationId.value)) else None
    case CronColumn => if endpointData.cron.Some? then Some(Str(endpointData.cron.value)) else None
    case StatusCodeColumn => if endpointData.statusCode.Some? then Some(Int(endpointData.statusCode.value)) else None
    case ResponseColumn => if endpointData.response.Some? then Some(Obj(endpointData.response.value)) else None
    case TypeColumn => if endpointData.kind.Some? then Some(Str(endpointData.kind.value)) else None
  }

  const AllColumns: set<EndpointsDao.Column> := {
    EndpointsDao.NameColumn, EndpointsDao.DescriptionColumn, EndpointsDao.UrlColumn, EndpointsDao.ThresholdColumn,
    EndpointsDao.ApplicationIdColumn, EndpointsDao.CronColumn, EndpointsDao.StatusCodeColumn,
    EndpointsDao.ResponseColumn, EndpointsDao.TypeColumn}

  /** `{k: v for k, v in endpoint_data.model_dump().items() if v is not None}`. */
  function DataToUpdate(endpointData: Schema.UpdateEndpoint): (values: map<EndpointsDao.Column, Value>)
    ensures EndpointsDao.WellTypedValues(values)
    ensures forall c :: c in values <==> FieldValue(endpointData, c).Some?
    ensures forall c :: c in values ==> values[c] == FieldValue(endpointData, c).value
  {
    map c | c in AllColumns && FieldValue(endpointData, c).Some? :: FieldValue(endpointData, c).value
  }

  /** Updated columns are exactly the fields sent with a value; no update can clear a column to NULL, and a body
      that leaves `response` out resets it to {}. */
  lemma UpdateWritesSentFields(e: Endpoint, endpointData: Schema.UpdateEndpoint, c: EndpointsDao.Column)
    ensures var updated := EndpointsDao.ApplyUpdate(e, DataToUpdate(endpointData));
            && EndpointsDao.ColumnValue(updated, c) ==
                 (if FieldValue(endpointData, c).Some? then FieldValue(endpointData, c).value
                  else EndpointsDao.ColumnValue(e, c))
            && (EndpointsDao.ColumnValue(e, c) != Null ==> EndpointsDao.ColumnValue(updated, c) != Null)
  {
    EndpointsDao.ApplyUpdateSetsColumns(e, DataToUpdate(endpointData), c);
    match c
    case NameColumn =>
    case DescriptionColumn =>
    case UrlColumn =>
    case ThresholdColumn =>
    case ApplicationIdColumn =>
    case CronColumn =>
    case StatusCodeColumn =>
    case ResponseColumn =>
    case TypeColumn =>
  }

  /** A body with no fields at all still writes `response`: the default {} is not None. */
  lemma EmptyBodyResetsResponse()
    ensures DataToUpdate(Schema.UpdateEndpoint()) == map[EndpointsDao.ResponseColumn := Obj(map[])]
  {
    var values := DataToUpdate(Schema.UpdateEndpoint());
    assert FieldValue(Schema.UpdateEndpoint(), EndpointsDao.ResponseColumn).Some?;
    assert values.Keys == {EndpointsDao.ResponseColumn};
  }

  /** `update_endpoint`: 404 for an unknown id; otherwise the fields that are not None are written and the
      updated endpoint is validated and sent. */
  method UpdateEndpoint(db: Database, id: int, endpointData: Schema.UpdateEndpoint) returns (r: Result<Response, Exception>)
    requires ServiceInvariant(db)
    modifies db
    ensures ServiceInvariant(db)
    ensures db.logTables == old(db.logTables) && db.users == old(db.users) && db.metadataTables == old(db.metadataTables)
    ensures db.endpointSerial == old(db.endpointSerial) && db.userSerial == old(db.userSerial)
    ensures id !in old(db.endpoints) ==> r == Success(NotFound(id)) && db.endpoints == old(db.endpoints)
    ensures var values := DataToUpdate(endpointData);
            id in old(db.endpoints) && EndpointsDao.UpdateError(values).Some? ==>
              r == Failure(EndpointsDao.UpdateError(values).value) && db.endpoints == old(db.endpoints)
    ensures var values := DataToUpdate(endpointData);
            id in old(db.endpoints) && EndpointsDao.UpdateError(values).None? ==>
              var e := EndpointsDao.ApplyUpdate(old(db.endpoints)[id], values);
              db.endpoints == old(db.endpoints)[id := e] && r == Shown(UpdatedMessage, Schema.BaseEndpointsOut(e))
  {
    var found := EndpointsDao.GetById(db.endpoints, id);
    if found.None? {
      return Success(NotFound(id));
    }
    var dataToUpdate := DataToUpdate(endpointData);
    var endpoint := EndpointsDao.Update(db, id, dataToUpdate);
    match endpoint {
      case Failure(e) =>
        return Failure(e);
      case Success(updated) =>
        if updated.None? {
          // the row was read just before; with no concurrent delete the update finds it
          return Failure(AttributeError("'NoneType' object has no attribute 'as_dict'"));
        }
        return Shown(UpdatedMessage, Schema.BaseEndpointsOut(updated.value));
    }
  }

  /** `delete_endpoint`: 404 for an unknown id; otherwise the row is deleted (its log rows with it) and then its
      log table is dropped. The row is gone even when the drop raises; a NULL `log_table` raises TypeError. */
  method DeleteEndpoint(db: Database, id: int) returns (r: Result<Response, Exception>)
    requires ServiceInvariant(db)
    modifies db
    ensures ServiceInvariant(db)
    ensures db.users == old(db.users) && db.metadataTables == old(db.metadataTables)
    ensures db.endpointSerial == old(db.endpointSerial) && db.userSerial == old(db.userSerial)
    ensures id !in old(db.endpoints) ==>
              r == Success(NotFound(id)) && db.endpoints == old(db.endpoints) && db.logTables == old(db.logTables)
    ensures id in old(db.endpoints) ==>
              var cascaded := EndpointsDao.Cascade(old(db.logTables), id);
              && db.endpoints == old(db.endpoints) - {id}
              && match old(db.endpoints)[id].logTable
                 case None =>
                   r == Failure(TypeError("expected string or bytes-like object, got 'NoneType'"))
                   && db.logTables == cascaded
                 case Some(name) =>
                   match LogTableDao.DropIfExists(cascaded, name)
                   case Failure(err) => r == Failure(err) && db.logTables == cascaded
                   case Success(tables) => r == Success(Ok(message := DeletedMessage)) && db.logTables == tables
  {
    var found := EndpointsDao.GetById(db.endpoints, id);
    if found.None? {
      return Success(NotFound(id));
    }
    var endpoint := found.value;
    EndpointsDao.Delete(db, id);
    if endpoint.logTable.None? {
      return Failure(TypeError("expected string or bytes-like object, got 'NoneType'"));
    }
    var dropped := LogTableDao.DeleteLogTable(db, endpoint.logTable.value);
    if dropped.Fail? {
      return Failure(dropped.error);
    }
    return Success(Ok(message := DeletedMessage));
  }
}

/** app/daos/endpoints_dao.py: reads and writes of config.endpoints, and the status each endpoint takes from
    the newest row of its log table. */
module EndpointsDao {
  import opened Wrappers
  import opened Json
  import opened Exceptions
  import opened Models
  import opened EndpointsSchema
  import LogTableDao

  const DuplicateEndpointDetail: string := "Endpoint with that email already exists."

  /* Listing in `ORDER BY created_at` order */

  /** `ORDER BY created_at` is ascending with NULLs after every timestamp: a is not after b. */
  predicate CreatedNotAfter(a: Option<int>, b: Option<int>) {
    b.None? || (a.Some? && a.value <= b.value)
  }

  /** r lists the endpoints filed under `keys`, each once, in `created_at` order. Endpoints created at the
      same instant may come in either order. */
  predicate IsListingOf(r: seq<Endpoint>, endpoints: map<int, Endpoint>, keys: set<int>) {
    && (forall i :: 0 <= i < |r| ==> r[i].id in keys && r[i].id in endpoints && endpoints[r[i].id] == r[i])
    && (forall i, j :: 0 <= i < j < |r| ==> r[i].id != r[j].id)
    && (forall id :: id in keys ==> exists i :: 0 <= i < |r| && r[i].id == id)
    && (forall i, j :: 0 <= i < j < |r| ==> CreatedNotAfter(r[i].createdAt, r[j].createdAt))
  }

  /** The order the model breaks ties in: by `created_at`, then by id. */
  predicate KeyNotAfter(endpoints: map<int, Endpoint>, j: int, k: int)
    requires j in endpoints && k in endpoints
  {
    && CreatedNotAfter(endpoints[j].createdAt, endpoints[k].createdAt)
    && (CreatedNotAfter(endpoints[k].createdAt, endpoints[j].createdAt) ==> j <= k)
  }

  predicate IsLastKey(endpoints: map<int, Endpoint>, keys: set<int>, k: int)
    requires keys <= endpoints.Keys
  {
    k in keys && forall j :: j in keys ==> KeyNotAfter(endpoints, j, k)
  }

  /** The tie-breaking order is total and transitive. */
  lemma KeyOrder(endpoints: map<int, Endpoint>, i: int, j: int, k: int)
    requires i in endpoints && j in endpoints && k in endpoints
    ensures KeyNotAfter(endpoints, j, k) || KeyNotAfter(endpoints, k, j)
    ensures KeyNotAfter(endpoints, i, j) && KeyNotAfter(endpoints, j, k) ==> KeyNotAfter(endpoints, i, k)
  {
  }

  lemma PickKey(keys: set<int>) returns (x: int)
    requires |keys| > 0
    ensures x in keys
  {
    if forall y :: y !in keys {
      assert false;
    }
    x :| x in keys;
  }

  lemma {:induction false} LastKeyExists(endpoints: map<int, Endpoint>, keys: set<int>)
    requires keys <= endpoints.Keys && |keys| > 0
    ensures exists k :: IsLastKey(endpoints, keys, k)
    decreases keys
  {
    var x := PickKey(keys);
    if keys == {x} {
      assert IsLastKey(endpoints, keys, x);
    } else {
      var others := keys - {x};
      assert others + {x} == keys;
      LastKeyExists(endpoints, others);
      var k :| IsLastKey(endpoints, others, k);
      KeyOrder(endpoints, x, x, k);
      if KeyNotAfter(endpoints, x, k) {
        assert IsLastKey(endpoints, keys, k);
      } else {
        forall j | j in keys
          ensures KeyNotAfter(endpoints, j, x)
        {
          KeyOrder(endpoints, j, k, x);
        }
        assert IsLastKey(endpoints, keys, x);
      }
    }
  }

  /** Appending the last endpoint to a listing of the others lists them all. */
  lemma ListingStep(endpoints: map<int, Endpoint>, keys: set<int>, k: int, rest: seq<Endpoint>)
    requires keys <= endpoints.Keys && EndpointsKeyed(endpoints)
    requires IsLastKey(endpoints, keys, k) && IsListingOf(rest, endpoints, keys - {k})
    ensures IsListingOf(rest + [endpoints[k]], endpoints, keys)
  {
    var r := rest + [endpoints[k]];
    assert r[|rest|] == endpoints[k] && endpoints[k].id == k;
    forall id | id in keys
      ensures exists i :: 0 <= i < |r| && r[i].id == id
    {
      if id == k {
        assert r[|rest|].id == id;
      } else {
        assert id in keys - {k};
        var i :| 0 <= i < |rest| && rest[i].id == id;
        assert r[i] == rest[i];
      }
    }
    forall i, j | 0 <= i < j < |r|
      ensures CreatedNotAfter(r[i].createdAt, r[j].createdAt)
    {
      if j == |rest| {
        assert r[i] == rest[i] && rest[i].id in keys;
        assert KeyNotAfter(endpoints, rest[i].id, k);
      } else {
        assert r[i] == rest[i] && r[j] == rest[j];
      }
    }
  }

  /** The endpoints filed under `keys`, the earliest first. */
  function Listing(endpoints: map<int, Endpoint>, keys: set<int>): (r: seq<Endpoint>)
    requires keys <= endpoints.Keys && EndpointsKeyed(endpoints)
    ensures IsListingOf(r, endpoints, keys)
    decreases keys
  {
    if |keys| == 0 then []
    else
      LastKeyExists(endpoints, keys);
      var k :| IsLastKey(endpoints, keys, k);
      var rest := Listing(endpoints, keys - {k});
      ListingStep(endpoints, keys, k, rest);
      rest + [endpoints[k]]
  }

  /** `get_all`: every endpoint, ordered by `created_at`. */
  function GetAll(endpoints: map<int, Endpoint>): (r: seq<Endpoint>)
    requires EndpointsKeyed(endpoints)
    ensures IsListingOf(r, endpoints, endpoints.Keys)
  {
    Listing(endpoints, endpoints.Keys)
  }

  /* The latest status of a log table */

  /** s is the status of a row with the greatest `created_at`, or None when there is no row: what
      `ORDER BY created_at DESC LIMIT 1` followed by `.scalar()` yields. */
  ghost predicate IsLatestStatus(s: Option<string>, rows: seq<LogRow>) {
    || (rows == [] && s.None?)
    || exists i :: 0 <= i < |rows| && s == rows[i].status
                   && forall j :: 0 <= j < |rows| ==> rows[j].createdAt <= rows[i].createdAt
  }

  /** The status this model reads for the latest row; PostgreSQL may pick any of several rows created at the
      same instant, and the contract promises no more than that. */
  function LatestStatus(rows: seq<LogRow>): (s: Option<string>)
    ensures IsLatestStatus(s, rows)
  {
    if rows == [] then None else rows[NewestIndex(rows)].status
  }

  /** Every stored non-empty `log_table` passes the sanitizer. The latest-status queries put the name into the
      SQL text unsanitised; names written by the endpoint service always have this form. */
  predicate PlainLogTables(endpoints: map<int, Endpoint>) {
    forall id :: id in endpoints && endpoints[id].logTable.Some? && endpoints[id].logTable.value != "" ==>
      LogTableDao.SanitizeTableName(endpoints[id].logTable.value).Success?
  }

  /** `if endpoint.log_table:` is a truthiness test: None and "" are both skipped. */
  predicate HasLogTable(e: Endpoint) {
    e.logTable.Some? && e.logTable.value != ""
  }

  /** One step of the overlay: look up the newest status of the endpoint's log table. */
  function WithLatestStatus(tables: map<string, seq<LogRow>>, e: Endpoint): (r: Result<Endpoint, Exception>)
    requires HasLogTable(e) ==> LogTableDao.SanitizeTableName(e.logTable.value).Success?
    ensures !HasLogTable(e) ==> r == Success(e)
    ensures HasLogTable(e) ==>
              match LogTableDao.LookupLogTable(tables, e.logTable.value)
              case Failure(err) => r == Failure(err)
              case Success(rows) => r.Success? && r.value == e.(status := r.value.status)
                                    && IsLatestStatus(r.value.status, rows)
  {
    if !HasLogTable(e) then Success(e)
    else
      match LogTableDao.LookupLogTable(tables, e.logTable.value)
      case Failure(err) => Failure(err)
      case Success(rows) => Success(e.(status := LatestStatus(rows)))
  }

  /** The error of the first endpoint of the listing whose latest-status lookup fails, or None. */
  function FirstLookupError(tables: map<string, seq<LogRow>>, listing: seq<Endpoint>): Option<Exception>
    requires forall i :: 0 <= i < |listing| && HasLogTable(listing[i]) ==>
               LogTableDao.SanitizeTableName(listing[i].logTable.value).Success?
  {
    if listing == [] then None
    else match WithLatestStatus(tables, listing[0])
         case Failure(err) => Some(err)
         case Success(_) => FirstLookupError(tables, listing[1..])
  }

  /** When every entry before k succeeds and entry k fails, its error is the first lookup error. */
  lemma {:induction false} FirstLookupErrorAt(tables: map<string, seq<LogRow>>, listing: seq<Endpoint>, k: nat)
    requires forall i :: 0 <= i < |listing| && HasLogTable(listing[i]) ==>
               LogTableDao.SanitizeTableName(listing[i].logTable.value).Success?
    requires k < |listing| && WithLatestStatus(tables, listing[k]).Failure?
    requires forall j :: 0 <= j < k ==> WithLatestStatus(tables, listing[j]).Success?
    ensures FirstLookupError(tables, listing) == Some(WithLatestStatus(tables, listing[k]).error)
    decreases k
  {
    if k > 0 {
      assert WithLatestStatus(tables, listing[0]).Success?;
      var rest := listing[1..];
      assert forall j :: 0 <= j < k - 1 ==> rest[j] == listing[j + 1];
      FirstLookupErrorAt(tables, rest, k - 1);
    }
  }

  /** `get_all_with_latest_log_status`: the listing of `get_all`, each endpoint given the status of its log
      table. The first endpoint of the listing whose table cannot be read ends the loop with that error. */
  method GetAllWithLatestLogStatus(tables: map<string, seq<LogRow>>, endpoints: map<int, Endpoint>)
    returns (r: Result<seq<Endpoint>, Exception>)
    requires EndpointsKeyed(endpoints) && PlainLogTables(endpoints)
    ensures r.Success? <==> forall id :: id in endpoints ==> WithLatestStatus(tables, endpoints[id]).Success?
    ensures r.Success? ==> |r.value| == |GetAll(endpoints)|
                           && forall i :: 0 <= i < |r.value| ==>
                                WithLatestStatus(tables, GetAll(endpoints)[i]) == Success(r.value[i])
    ensures r.Failure? ==> exists id :: id in endpoints && WithLatestStatus(tables, endpoints[id]) == Failure(r.error)
    ensures r.Failure? ==> FirstLookupError(tables, GetAll(endpoints)) == Some(r.error)
  {
    var listing := GetAll(endpoints);
    var result: seq<Endpoint> := [];
    var i := 0;
    while i < |listing|
      invariant 0 <= i <= |listing| && |result| == i
      invariant forall j :: 0 <= j < i ==> WithLatestStatus(tables, listing[j]) == Success(result[j])
    {
      var endpoint := listing[i];
      assert endpoint == endpoints[endpoint.id];
      match WithLatestStatus(tables, endpoint)
      case Failure(err) =>
        FirstLookupErrorAt(tables, listing, i);
        return Failure(err);
      case Success(updated) =>
        result := result + [updated];
      i := i + 1;
    }
    forall id | id in endpoints
      ensures WithLatestStatus(tables, endpoints[id]).Success?
    {
      var j :| 0 <= j < |listing| && listing[j].id == id;
    }
    return Success(result);
  }

  /** `get_by_id`: the endpoint whose id column equals the id, or None. */
  function GetById(endpoints: map<int, Endpoint>, id: int): (r: Option<Endpoint>)
    requires EndpointsKeyed(endpoints)
    ensures r.Some? ==> r.value.id == id && r.value in endpoints.Values
    ensures r.None? ==> forall k :: k in endpoints ==> endpoints[k].id != id
  {
    if id in endpoints then Some(endpoints[id]) else None
  }

  /** `get_by_id_with_latest_log_status`: `endpoint.log_table` is read before any None check. */
  function GetByIdWithLatestLogStatus(tables: map<string, seq<LogRow>>, endpoints: map<int, Endpoint>, id: int)
    : (r: Result<Endpoint, Exception>)
    requires EndpointsKeyed(endpoints) && PlainLogTables(endpoints)
    ensures GetById(endpoints, id).None? ==>
              r == Failure(AttributeError("'NoneType' object has no attribute 'log_table'"))
    ensures GetById(endpoints, id).Some? ==> r == WithLatestStatus(tables, GetById(endpoints, id).value)
  {
    match GetById(endpoints, id)
    case None => Failure(AttributeError("'NoneType' object has no attribute 'log_table'"))
    case Some(endpoint) => WithLatestStatus(tables, endpoint)
  }

  /* Writes */

  /** The columns an update may set. */
  datatype Column = NameColumn | DescriptionColumn | UrlColumn | ThresholdColumn | ApplicationIdColumn
                  | CronColumn | StatusCodeColumn | ResponseColumn | TypeColumn

  /** A column's name in config.endpoints. */
  function ColumnName(c: Column): string {
    match c
    case NameColumn => "name"
    case DescriptionColumn => "description"
    case UrlColumn => "url"
    case ThresholdColumn => "threshold"
    case ApplicationIdColumn => "application_id"
    case CronColumn => "cron"
    case StatusCodeColumn => "status_code"
    case ResponseColumn => "response"
    case TypeColumn => "type"
  }

  /** The values `update` is given: each of its column's type. */
  predicate WellTypedValues(values: map<Column, Value>) {
    && (NameColumn in values ==> values[NameColumn].Str?)
    && (DescriptionColumn in values ==> values[DescriptionColumn].Str?)
    && (UrlColumn in values ==> values[UrlColumn].Str?)
    && (ThresholdColumn in values ==> values[ThresholdColumn].Int?)
    && (ApplicationIdColumn in values ==> values[ApplicationIdColumn].Int?)
    && (CronColumn in values ==> values[CronColumn].Str?)
    && (StatusCodeColumn in values ==> values[StatusCodeColumn].Int?)
    && (TypeColumn in values ==> values[TypeColumn].Str?)
  }

  /** Why PostgreSQL (or SQLAlchemy) refuses the UPDATE, if it does. With no values at all SQLAlchemy binds every
      column and finds no value for the first; an integer outside its column's range fails when the statement is
      planned, whether or not a row matches, the columns taken in table order. */
  function UpdateError(values: map<Column, Value>): (r: Option<Exception>)
    requires WellTypedValues(values)
    ensures r.None? <==> values != map[]
                         && (ThresholdColumn in values ==> IsSmallInt(values[ThresholdColumn].i))
                         && (ApplicationIdColumn in values ==> IsSmallInt(values[ApplicationIdColumn].i))
                         && (StatusCodeColumn in values ==> IsInt32(values[StatusCodeColumn].i))
    ensures r.Some? ==> r.value.StatementError? || r.value.DataError?
  {
    if values == map[] then Some(StatementError("A value is required for bind parameter 'id'"))
    else if ThresholdColumn in values && !IsSmallInt(values[ThresholdColumn].i) then
      Some(DataError("smallint out of range"))
    else if ApplicationIdColumn in values && !IsSmallInt(values[ApplicationIdColumn].i) then
      Some(DataError("smallint out of range"))
    else if StatusCodeColumn in values && !IsInt32(values[StatusCodeColumn].i) then
      Some(DataError("integer out of range"))
    else None
  }

  /** The value of one updatable column of an endpoint. */
  function ColumnValue(e: Endpoint, c: Column): Value {
    match c
    case NameColumn => Str(e.name)
    case DescriptionColumn => OptionalText(e.description)
    case UrlColumn => Str(e.url)
    case ThresholdColumn => Int(e.threshold)
    case ApplicationIdColumn => OptionalInt(e.applicationId)
    case CronColumn => Str(e.cron)
    case StatusCodeColumn => Int(e.statusCode)
    case ResponseColumn => e.response
    case TypeColumn => Str(e.kind)
  }

  function TextOr(values: map<Column, Value>, c: Column, current: string): string
    requires c in values ==> values[c].Str?
  {
    if c in values then values[c].s else current
  }

  function IntOr(values: map<Column, Value>, c: Column, current: int): int
    requires c in values ==> values[c].Int?
  {
    if c in values then values[c].i else current
  }

  /** The endpoint with the given columns set and every other column as it was. */
  function ApplyUpdate(e: Endpoint, values: map<Column, Value>): (u: Endpoint)
    requires WellTypedValues(values)
    ensures u.id == e.id && u.logTable == e.logTable && u.createdAt == e.createdAt && u.status == e.status
  {
    e.(name := TextOr(values, NameColumn, e.name),
       description := if DescriptionColumn in values then Some(values[DescriptionColumn].s) else e.description,
       url := TextOr(values, UrlColumn, e.url),
       threshold := IntOr(values, ThresholdColumn, e.threshold),
       applicationId := if ApplicationIdColumn in values then Some(values[ApplicationIdColumn].i) else e.applicationId,
       cron := TextOr(values, CronColumn, e.cron),
       statusCode := IntOr(values, StatusCodeColumn, e.statusCode),
       response := if ResponseColumn in values then values[ResponseColumn] else e.response,
       kind := TextOr(values, TypeColumn, e.kind))
  }

  /** The update sets exactly the given columns, to the given values. */
  lemma ApplyUpdateSetsColumns(e: Endpoint, values: map<Column, Value>, c: Column)
    requires WellTypedValues(values)
    ensures ColumnValue(ApplyUpdate(e, values), c) == if c in values then values[c] else ColumnValue(e, c)
  {
    match c
    case NameColumn =>
    case DescriptionColumn =>
    case UrlColumn =>
    case ThresholdColumn =>
    case ApplicationIdColumn =>
    case CronColumn =>
    case StatusCodeColumn =>
    case ResponseColumn =>
    case TypeColumn =>
  }

  /** `update(endpoint_id, values)`: the UPDATE, committed, then `get_by_id` of the same id. */
  method Update(db: Database, id: int, values: map<Column, Value>) returns (r: Result<Option<Endpoint>, Exception>)
    requires db.Valid() && WellTypedValues(values)
    modifies db
    ensures db.Valid()
    ensures db.logTables == old(db.logTables) && db.users == old(db.users) && db.metadataTables == old(db.metadataTables)
    ensures db.endpointSerial == old(db.endpointSerial) && db.userSerial == old(db.userSerial)
    ensures UpdateError(values).Some? ==> r == Failure(UpdateError(values).value) && db.endpoints == old(db.endpoints)
    ensures UpdateError(values).None? ==>
              && db.endpoints == (if id in old(db.endpoints) then old(db.endpoints)[id := ApplyUpdate(old(db.endpoints)[id], values)]
                                  else old(db.endpoints))
              && r == Success(GetById(db.endpoints, id))
  {
    if UpdateError(values).Some? {
      return Failure(UpdateError(values).value);
    }
    if id in db.endpoints {
      db.endpoints := db.endpoints[id := ApplyUpdate(db.endpoints[id], values)];
    }
    return Success(GetById(db.endpoints, id));
  }

  /** The rows that do not reference the endpoint, in their order. */
  function RowsNotReferencing(rows: seq<LogRow>, id: int): (r: seq<LogRow>)
    ensures forall x :: x in r <==> x in rows && x.endpointId != Some(id)
    ensures forall x :: multiset(r)[x] == if x.endpointId == Some(id) then 0 else multiset(rows)[x]
  {
    if rows == [] then []
    else
      var rest := RowsNotReferencing(rows[1..], id);
      assert rows == [rows[0]] + rows[1..];
      if rows[0].endpointId == Some(id) then rest else [rows[0]] + rest
  }

  /** `ON DELETE CASCADE`: deleting the endpoint deletes every log row that references it. */
  function Cascade(tables: map<string, seq<LogRow>>, id: int): (r: map<string, seq<LogRow>>)
    ensures r.Keys == tables.Keys
    ensures forall t :: t in r ==> r[t] == RowsNotReferencing(tables[t], id)
  {
    map t | t in tables :: RowsNotReferencing(tables[t], id)
  }

  /** `delete(endpoint_id)`: the endpoint is gone, and with it the log rows that referenced it. */
  method Delete(db: Database, id: int)
    requires db.Valid()
    modifies db
    ensures db.Valid()
    ensures db.endpoints == old(db.endpoints) - {id}
    ensures db.logTables == Cascade(old(db.logTables), id)
    ensures db.users == old(db.users) && db.metadataTables == old(db.metadataTables)
    ensures db.endpointSerial == old(db.endpointSerial) && db.userSerial == old(db.userSerial)
  {
    db.endpoints := db.endpoints - {id};
    db.logTables := Cascade(db.logTables, id);
  }

  /** The row `create` inserts. */
  function NewEndpoint(id: int, data: CreateEndpointInDb, now: int): (e: Endpoint)
    ensures e.id == id && e.logTable == Some(data.logTable) && e.createdAt == Some(now) && e.status.None?
    ensures data.data.response.Some? ==> e.response == Obj(data.data.response.value)
    ensures data.data.response.None? ==> e.response == Null
  {
    var d := data.data;
    var response := match d.response case Some(fields) => Obj(fields) case None => Null;
    Endpoint(id, Some(data.logTable), d.name, d.description, d.url, d.threshold, d.applicationId, d.cron,
             d.statusCode, response, d.kind, Some(now), None)
  }

  /** Why PostgreSQL refuses the INSERT before it draws an id: an integer outside its column's range, the
      columns taken in table order. */
  function InsertError(d: CreateEndpoint): (r: Option<Exception>)
    ensures r.None? <==> IsSmallInt(d.threshold) && (d.applicationId.Some? ==> IsSmallInt(d.applicationId.value))
                         && IsInt32(d.statusCode)
    ensures r.Some? ==> r.value.DataError?
  {
    if !IsSmallInt(d.threshold) || (d.applicationId.Some? && !IsSmallInt(d.applicationId.value)) then
      Some(DataError("smallint out of range"))
    else if !IsInt32(d.statusCode) then Some(DataError("integer out of range"))
    else None
  }

  /** Some stored endpoint already uses the log table. */
  predicate LogTableTaken(endpoints: map<int, Endpoint>, logTable: string) {
    exists k :: k in endpoints && endpoints[k].logTable == Some(logTable)
  }

  /** `create(db_data)` at database time `now`. The id is drawn from the sequence before the unique index on
      `log_table` is checked, so a duplicate still uses up an id. */
  method Create(db: Database, data: CreateEndpointInDb, now: int) returns (r: Result<Endpoint, Exception>)
    requires db.Valid()
    modifies db
    ensures db.Valid()
    ensures db.logTables == old(db.logTables) && db.users == old(db.users) && db.metadataTables == old(db.metadataTables)
    ensures db.userSerial == old(db.userSerial)
    ensures InsertError(data.data).Some? ==>
              && r == Failure(InsertError(data.data).value)
              && db.endpoints == old(db.endpoints) && db.endpointSerial == old(db.endpointSerial)
    ensures InsertError(data.data).None? ==> db.endpointSerial == old(db.endpointSerial) + 1
    ensures InsertError(data.data).None? && LogTableTaken(old(db.endpoints), data.logTable) ==>
              r == Failure(DuplicateEndpointError(DuplicateEndpointDetail)) && db.endpoints == old(db.endpoints)
    ensures InsertError(data.data).None? && !LogTableTaken(old(db.endpoints), data.logTable) ==>
              && r == Success(NewEndpoint(old(db.endpointSerial) + 1, data, now))
              && old(db.endpointSerial) + 1 !in old(db.endpoints)
              && db.endpoints == old(db.endpoints)[r.value.id := r.value]
  {
    var d := data.data;
    if !IsSmallInt(d.threshold) || (d.applicationId.Some? && !IsSmallInt(d.applicationId.value)) {
      return Failure(DataError("smallint out of range"));
    }
    if !IsInt32(d.statusCode) {
      return Failure(DataError("integer out of range"));
    }
    var id := db.endpointSerial + 1;
    db.endpointSerial := id;
    if exists k :: k in db.endpoints && db.endpoints[k].logTable == Some(data.logTable) {
      return Failure(DuplicateEndpointError(DuplicateEndpointDetail));
    }
    var endpoint := NewEndpoint(id, data, now);
    db.endpoints := db.endpoints[id := endpoint];
    return Success(endpoint);
  }
}

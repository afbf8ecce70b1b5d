/** The records of app/models/db_models.py, their `as_dict` serialisers, `create_log_table`, and the database
    the data-access objects work on. */
module Models {
  import opened Wrappers
  import opened Json
  import opened Exceptions
  import Calendar

  /** A row of a log table, with the columns `create_log_table` declares. `created_at` defaults to now() when
      the row is written, so it is never NULL here. */
  datatype LogRow = LogRow(id: int, status: Option<string>, endpointId: Option<int>, createdAt: int,
                           response: Value, responseTime: Option<int>)

  /** The columns of every log table. */
  const LogRowKeys: set<string> := {"id", "status", "endpoint_id", "created_at", "response", "response_time"}

  /** A row of config.endpoints, plus the transient `status` that is never stored. */
  datatype Endpoint = Endpoint(
    id: int,
    logTable: Option<string>,
    name: string,
    description: Option<string>,
    url: string,
    threshold: int,
    applicationId: Option<int>,
    cron: string,
    statusCode: int,
    response: Value,
    kind: string,
    createdAt: Option<int>,
    status: Option<string>)

  /** A row of config.users. */
  datatype User = User(
    id: int,
    firstName: string,
    lastName: string,
    email: string,
    password: string,
    createdAt: Option<int>,
    status: string,
    accessLevel: string)

  /** A row of config.auth. */
  datatype Auth = Auth(id: int, kind: Option<string>, properties: Value, adminUsers: Value, createdAt: Option<int>)

  function OptionalText(o: Option<string>): Value
  {
    match o
    case Some(s) => Str(s)
    case None => Null
  }

  function OptionalInt(o: Option<int>): Value
  {
    match o
    case Some(i) => Int(i)
    case None => Null
  }

  /** `created_at.isoformat() if created_at else None`. */
  function CreatedAtText(createdAt: Option<int>): Value
  {
    match createdAt
    case Some(t) => Str(Calendar.IsoFormat(t))
    case None => Null
  }

  /** A set `created_at` is rendered as ISO text that reads back to the same instant; an unset one as None. */
  lemma CreatedAtRoundTrip(createdAt: Option<int>)
    requires createdAt.Some? ==> Calendar.IsDatetime(createdAt.value)
    ensures createdAt.None? <==> CreatedAtText(createdAt) == Null
    ensures createdAt.Some? ==> CreatedAtText(createdAt).Str?
                                && Calendar.IsoLayout(CreatedAtText(createdAt).s)
                                && Calendar.ParseIso(CreatedAtText(createdAt).s) == createdAt.value
  {
    if createdAt.Some? {
      Calendar.IsoRoundTrip(createdAt.value);
    }
  }

  const EndpointKeys: set<string> := {"id", "log_table", "name", "description", "url", "threshold",
    "application_id", "cron", "status_code", "response", "type", "created_at", "status"}

  /** `Endpoints.as_dict()`. */
  function EndpointAsDict(e: Endpoint): (d: map<string, Value>)
    ensures d.Keys == EndpointKeys
    ensures d["status"] == OptionalText(e.status) && d["created_at"] == CreatedAtText(e.createdAt)
  {
    map["id" := Int(e.id), "log_table" := OptionalText(e.logTable), "name" := Str(e.name),
        "description" := OptionalText(e.description), "url" := Str(e.url), "threshold" := Int(e.threshold),
        "application_id" := OptionalInt(e.applicationId), "cron" := Str(e.cron),
        "status_code" := Int(e.statusCode), "response" := e.response, "type" := Str(e.kind),
        "created_at" := CreatedAtText(e.createdAt), "status" := OptionalText(e.status)]
  }

  const UserKeys: set<string> := {"id", "first_name", "last_name", "email", "created_at", "status", "access_level"}

  /** `Users.as_dict()`: every column but the password. */
  function UserAsDict(u: User): (d: map<string, Value>)
    ensures d.Keys == UserKeys && "password" !in d
    ensures d["email"] == Str(u.email) && d["status"] == Str(u.status) && d["access_level"] == Str(u.accessLevel)
  {
    map["id" := Int(u.id), "first_name" := Str(u.firstName), "last_name" := Str(u.lastName),
        "email" := Str(u.email), "created_at" := CreatedAtText(u.createdAt), "status" := Str(u.status),
        "access_level" := Str(u.accessLevel)]
  }

  /** The password, hashed or not, never shows in a user's dict. */
  lemma UserAsDictIgnoresPassword(u: User, password: string)
    ensures UserAsDict(u.(password := password)) == UserAsDict(u)
  {
  }

  const AuthKeys: set<string> := {"id", "type", "properties", "admin_users", "created_at"}

  /** `Auth.as_dict()`. */
  function AuthAsDict(a: Auth): (d: map<string, Value>)
    ensures d.Keys == AuthKeys && d["created_at"] == CreatedAtText(a.createdAt)
  {
    map["id" := Int(a.id), "type" := OptionalText(a.kind), "properties" := a.properties,
        "admin_users" := a.adminUsers, "created_at" := CreatedAtText(a.createdAt)]
  }

  /** `record._asdict()` of a fetched log row as it is sent out: `created_at` in ISO text. */
  function LogRowAsDict(r: LogRow): (d: map<string, Value>)
    ensures d.Keys == LogRowKeys
    ensures d["status"] == OptionalText(r.status) && d["created_at"] == Str(Calendar.IsoFormat(r.createdAt))
  {
    map["id" := Int(r.id), "status" := OptionalText(r.status), "endpoint_id" := OptionalInt(r.endpointId),
        "created_at" := Str(Calendar.IsoFormat(r.createdAt)), "response" := r.response,
        "response_time" := OptionalInt(r.responseTime)]
  }

  /** The index of the first row with the greatest `created_at`: the row Python's `max(rows, key=created_at)`
      returns, and one of the rows `ORDER BY created_at DESC LIMIT 1` may return. */
  function NewestIndex(rows: seq<LogRow>): (i: nat)
    requires |rows| > 0
    ensures i < |rows|
    ensures forall j :: 0 <= j < |rows| ==> rows[j].createdAt <= rows[i].createdAt
    ensures forall j :: 0 <= j < i ==> rows[j].createdAt < rows[i].createdAt
  {
    if |rows| == 1 then 0
    else
      var k := NewestIndex(rows[..|rows| - 1]);
      if rows[|rows| - 1].createdAt > rows[k].createdAt then |rows| - 1 else k
  }

  /* The invariants the database keeps. */

  /** Every stored endpoint is filed under its id, and the transient status is never stored. */
  predicate EndpointsKeyed(endpoints: map<int, Endpoint>) {
    forall id :: id in endpoints ==> endpoints[id].id == id && endpoints[id].status.None?
  }

  /** `log_table` is UNIQUE; NULLs may repeat. */
  predicate UniqueLogTables(endpoints: map<int, Endpoint>) {
    forall a, b :: a in endpoints && b in endpoints && a != b && endpoints[a].logTable.Some?
                   ==> endpoints[a].logTable != endpoints[b].logTable
  }

  /** Keyed, with ids from the serial sequence and unique log tables. */
  predicate EndpointsWellFormed(endpoints: map<int, Endpoint>, serial: nat) {
    && EndpointsKeyed(endpoints)
    && (forall id :: id in endpoints ==> 1 <= id <= serial)
    && UniqueLogTables(endpoints)
  }

  /** The range of a SmallInteger column. */
  predicate IsSmallInt(i: int) {
    -0x8000 <= i < 0x8000
  }

  /** The range of an Integer column. */
  predicate IsInt32(i: int) {
    -0x8000_0000 <= i < 0x8000_0000
  }

  /** `email` is UNIQUE. */
  predicate UniqueEmails(users: map<int, User>) {
    forall a, b :: a in users && b in users && a != b ==> users[a].email != users[b].email
  }

  /** Ids are the keys and come from the serial sequence; emails are unique. */
  predicate UsersWellFormed(users: map<int, User>, serial: nat) {
    && (forall id :: id in users ==> users[id].id == id && 1 <= id <= serial)
    && UniqueEmails(users)
  }

  /** The foreign key of every log row: `endpoint_id` is NULL or names an existing endpoint. */
  predicate LogRowsReferenceEndpoints(logTables: map<string, seq<LogRow>>, endpoints: map<int, Endpoint>) {
    forall name, i :: name in logTables && 0 <= i < |logTables[name]| && logTables[name][i].endpointId.Some?
                      ==> logTables[name][i].endpointId.value in endpoints
  }

  /** The PostgreSQL database: the tables of the log schema by exact name, config.endpoints and config.users
      with their id sequences, and the log-table names this process has registered in `Base.metadata`. */
  class Database {
    var logTables: map<string, seq<LogRow>>
    var endpoints: map<int, Endpoint>
    var endpointSerial: nat
    var users: map<int, User>
    var userSerial: nat
    var metadataTables: set<string>

    predicate Valid()
      reads this
    {
      && EndpointsWellFormed(endpoints, endpointSerial)
      && UsersWellFormed(users, userSerial)
      && LogRowsReferenceEndpoints(logTables, endpoints)
    }

    /** A database with no log tables, endpoints or users. */
    constructor ()
      ensures Valid()
      ensures logTables == map[] && endpoints == map[] && users == map[] && metadataTables == {}
      ensures endpointSerial == 0 && userSerial == 0
    {
      logTables := map[];
      endpoints := map[];
      endpointSerial := 0;
      users := map[];
      userSerial := 0;
      metadataTables := {};
    }
  }

  /** `create_log_table(name)`: registers `log.<name>` in `Base.metadata` (raising if this process already did),
      then issues a plain CREATE TABLE with the name quoted as needed, so the exact name is created. The name is
      not validated. Names are taken to fit PostgreSQL's 63-byte identifier limit, which the generated names do. */
  method CreateLogTable(db: Database, name: string) returns (r: Outcome<Exception>)
    requires db.Valid()
    modifies db
    ensures db.Valid()
    ensures db.endpoints == old(db.endpoints) && db.users == old(db.users)
    ensures db.endpointSerial == old(db.endpointSerial) && db.userSerial == old(db.userSerial)
    ensures name in old(db.metadataTables) ==>
              r == Fail(InvalidRequestError("log." + name))
              && db.metadataTables == old(db.metadataTables) && db.logTables == old(db.logTables)
    ensures name !in old(db.metadataTables) ==> db.metadataTables == old(db.metadataTables) + {name}
    ensures name !in old(db.metadataTables) && name == "" ==>
              r == Fail(IndexError("string index out of range")) && db.logTables == old(db.logTables)
    ensures name !in old(db.metadataTables) && name != "" && name in old(db.logTables) ==>
              r == Fail(DuplicateTable(name)) && db.logTables == old(db.logTables)
    ensures name !in old(db.metadataTables) && name != "" && name !in old(db.logTables) ==>
              r == Pass && db.logTables == old(db.logTables)[name := []]
  {
    if name in db.metadataTables {
      return Fail(InvalidRequestError("log." + name));
    }
    db.metadataTables := db.metadataTables + {name};
    if name == "" {
      // quoting the identifier looks at its first character before anything is sent
      return Fail(IndexError("string index out of range"));
    }
    if name in db.logTables {
      return Fail(DuplicateTable(name));
    }
    db.logTables := db.logTables[name := []];
    return Pass;
  }
}

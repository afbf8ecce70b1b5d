/** app/daos/users_dao.py: reads and writes of config.users. */
module UsersDao {
  import opened Wrappers
  import opened Exceptions
  import opened Models
  import opened UsersSchema

  const DuplicateUserDetail: string := "User with that email already exists."

  /* Reads */

  /** `get_by_id(user_id)`: the user with that id, or None. */
  function GetById(users: map<int, User>, id: int): (r: Option<User>)
    ensures r.Some? <==> id in users
    ensures r.Some? ==> r.value == users[id]
  {
    if id in users then Some(users[id]) else None
  }

  /** Some stored user has the address. */
  predicate EmailTaken(users: map<int, User>, email: string) {
    exists k :: k in users && users[k].email == email
  }

  /** `get_by_email(email)`: the user with that address, or None. The address is UNIQUE, so `first()` has at
      most one row to choose from. */
  function GetByEmail(users: map<int, User>, email: string): (r: Option<User>)
    requires UniqueEmails(users)
    ensures r.Some? <==> EmailTaken(users, email)
    ensures r.Some? ==> r.value.email == email && r.value in users.Values
  {
    if EmailTaken(users, email) then
      var k :| k in users && users[k].email == email;
      Some(users[k])
    else None
  }

  /** The user `get_by_email` finds is the one stored under that address, whichever it is. */
  lemma GetByEmailFindsTheOwner(users: map<int, User>, k: int)
    requires UniqueEmails(users) && k in users
    ensures GetByEmail(users, users[k].email) == Some(users[k])
  {
    var email := users[k].email;
    assert EmailTaken(users, email);
    var j :| j in users && users[j].email == email && GetByEmail(users, email) == Some(users[j]);
  }

  /* Create */

  /** The row `create` inserts: `created_at` is the database's now(). */
  function NewUser(id: int, data: CreateUserDb, now: int): (u: User)
    ensures u.id == id && u.createdAt == Some(now) && u.email == data.email && u.password == data.password
    ensures u.status == data.status && u.accessLevel == data.accessLevel
    ensures u.firstName == data.firstName && u.lastName == data.lastName
  {
    User(id, data.firstName, data.lastName, data.email, data.password, Some(now), data.status, data.accessLevel)
  }

  /** Adding a user under a fresh id with a fresh address keeps the table well formed. */
  lemma InsertKeepsUsersWellFormed(users: map<int, User>, serial: nat, u: User)
    requires UsersWellFormed(users, serial) && u.id == serial + 1 && !EmailTaken(users, u.email)
    ensures u.id !in users
    ensures UsersWellFormed(users[u.id := u], serial + 1)
  {
  }

  /** `create(user_data)` at database time `now`. The id is drawn from the sequence before the unique index on
      `email` is checked, so a duplicate address still uses up an id; the unique violation becomes a
      DuplicateUserError and nothing is stored. */
  method Create(db: Database, data: CreateUserDb, now: int) returns (r: Result<User, Exception>)
    requires db.Valid()
    modifies db
    ensures db.Valid()
    ensures db.logTables == old(db.logTables) && db.endpoints == old(db.endpoints)
    ensures db.endpointSerial == old(db.endpointSerial) && db.metadataTables == old(db.metadataTables)
    ensures db.userSerial == old(db.userSerial) + 1
    ensures EmailTaken(old(db.users), data.email) ==>
              r == Failure(DuplicateUserError(DuplicateUserDetail)) && db.users == old(db.users)
    ensures !EmailTaken(old(db.users), data.email) ==>
              && r == Success(NewUser(old(db.userSerial) + 1, data, now))
              && old(db.userSerial) + 1 !in old(db.users)
              && db.users == old(db.users)[r.value.id := r.value]
  {
    var id := db.userSerial + 1;
    db.userSerial := id;
    if exists k :: k in db.users && db.users[k].email == data.email {
      return Failure(DuplicateUserError(DuplicateUserDetail));
    }
    var user := NewUser(id, data, now);
    InsertKeepsUsersWellFormed(old(db.users), old(db.userSerial), user);
    db.users := db.users[id := user];
    return Success(user);
  }

  /* Update */

  /** The columns `update_user` may set. */
  datatype UserColumn = FirstNameColumn | LastNameColumn | EmailColumn | PasswordColumn

  /** A column's value in a user row. */
  function ColumnValue(u: User, c: UserColumn): string {
    match c
    case FirstNameColumn => u.firstName
    case LastNameColumn => u.lastName
    case EmailColumn => u.email
    case PasswordColumn => u.password
  }

  function ValueOr(values: map<UserColumn, string>, c: UserColumn, current: string): string {
    if c in values then values[c] else current
  }

  /** The user with the given columns set and every other column as it was. */
  function ApplyUpdate(u: User, values: map<UserColumn, string>): (v: User)
    ensures v.id == u.id && v.createdAt == u.createdAt && v.status == u.status && v.accessLevel == u.accessLevel
  {
    u.(firstName := ValueOr(values, FirstNameColumn, u.firstName),
       lastName := ValueOr(values, LastNameColumn, u.lastName),
       email := ValueOr(values, EmailColumn, u.email),
       password := ValueOr(values, PasswordColumn, u.password))
  }

  /** The update sets exactly the given columns, to the given values. */
  lemma ApplyUpdateSetsColumns(u: User, values: map<UserColumn, string>, c: UserColumn)
    ensures ColumnValue(ApplyUpdate(u, values), c) == if c in values then values[c] else ColumnValue(u, c)
  {
    match c
    case FirstNameColumn =>
    case LastNameColumn =>
    case EmailColumn =>
    case PasswordColumn =>
  }

  /** The new address belongs to a user other than the one updated. */
  predicate EmailTakenByOther(users: map<int, User>, id: int, email: string) {
    exists k :: k in users && k != id && users[k].email == email
  }

  /** Why the UPDATE fails, if it does. With no values at all SQLAlchemy binds every column and finds no value
      for the first; an address another user holds violates the unique index, but only when a row is updated. */
  function UpdateError(users: map<int, User>, id: int, values: map<UserColumn, string>): (r: Option<Exception>)
    ensures r.None? <==> values != map[] &&
                         !(id in users && EmailColumn in values && EmailTakenByOther(users, id, values[EmailColumn]))
    ensures r.Some? ==> r.value == StatementError("A value is required for bind parameter 'id'")
                        || r.value == UniqueViolation("email")
  {
    if values == map[] then Some(StatementError("A value is required for bind parameter 'id'"))
    else if id in users && EmailColumn in values && EmailTakenByOther(users, id, values[EmailColumn]) then
      Some(UniqueViolation("email"))
    else None
  }

  /** An update the database accepts keeps the table well formed. */
  lemma UpdateKeepsUsersWellFormed(users: map<int, User>, serial: nat, id: int, values: map<UserColumn, string>)
    requires UsersWellFormed(users, serial) && id in users && UpdateError(users, id, values).None?
    ensures UsersWellFormed(users[id := ApplyUpdate(users[id], values)], serial)
  {
    var updated := users[id := ApplyUpdate(users[id], values)];
    forall a, b | a in updated && b in updated && a != b
      ensures updated[a].email != updated[b].email
    {
      if a == id || b == id {
        var other := if a == id then b else a;
        if EmailColumn in values {
          assert !EmailTakenByOther(users, id, values[EmailColumn]);
          assert users[other].email != values[EmailColumn];
        }
      }
    }
  }

  /** `update(user_id, updated_data)`: the UPDATE, committed, then `get_by_id` of the same id. */
  method Update(db: Database, id: int, values: map<UserColumn, string>) returns (r: Result<Option<User>, Exception>)
    requires db.Valid()
    modifies db
    ensures db.Valid()
    ensures db.logTables == old(db.logTables) && db.endpoints == old(db.endpoints)
    ensures db.endpointSerial == old(db.endpointSerial) && db.metadataTables == old(db.metadataTables)
    ensures db.userSerial == old(db.userSerial)
    ensures UpdateError(old(db.users), id, values).Some? ==>
              r == Failure(UpdateError(old(db.users), id, values).value) && db.users == old(db.users)
    ensures UpdateError(old(db.users), id, values).None? ==>
              && db.users == (if id in old(db.users) then old(db.users)[id := ApplyUpdate(old(db.users)[id], values)]
                              else old(db.users))
              && r == Success(GetById(db.users, id))
  {
    if UpdateError(db.users, id, values).Some? {
      return Failure(UpdateError(db.users, id, values).value);
    }
    if id in db.users {
      UpdateKeepsUsersWellFormed(db.users, db.userSerial, id, values);
      db.users := db.users[id := ApplyUpdate(db.users[id], values)];
    }
    return Success(GetById(db.users, id));
  }
}

/** app/routers/users_rt.py: the two routes behind `auth_required`, GET /user and PUT /user/profile, and how
    a login carries over to the guarded requests that follow it. */
module Routes {
  import opened Wrappers
  import opened Exceptions
  import opened Json
  import opened Response
  import opened Models
  import opened UsersSchema
  import opened UsersDao
  import opened Sessions
  import opened CheckSession
  import opened UsersService
  import AuthService
  import AuthSchema
  import Enums

  /** GET /user: the admitted user's own dict, as the guard recorded it; 401 for any other session. */
  method GetUser(db: Database, session: Session) returns (r: Response)
    requires db.Valid() && session.Valid()
    modifies session
    ensures session.Valid()
    ensures SessionUser(db.users, old(session.data)).None? ==>
              r == Unauthorized() && session.data == old(session.data)
    ensures SessionUser(db.users, old(session.data)).Some? ==>
              var u := SessionUser(db.users, old(session.data)).value;
              && session.data == AdmittedData(old(session.data), u)
              && r == Ok(message := UserDetailsMessage, data := Obj(UserAsDict(u)))
  {
    var g := AuthRequired(db, session);
    match g {
      case Rejected(response) =>
        return response;
      case Admitted(_) =>
        return GetUserInfoFromRequest(session.data);
    }
  }

  /** PUT /user/profile: the admitted user's row is updated with the validated profile, the id taken from the
      session; 401 for any other session, with nothing changed. */
  method UpdateProfile(db: Database, session: Session, sha512: AuthService.Digest, profile: UpdateUserProfile)
    returns (r: Result<Response, Exception>)
    requires db.Valid() && session.Valid()
    modifies db, session
    ensures db.Valid() && session.Valid()
    ensures db.logTables == old(db.logTables) && db.endpoints == old(db.endpoints)
    ensures db.endpointSerial == old(db.endpointSerial) && db.userSerial == old(db.userSerial)
    ensures db.metadataTables == old(db.metadataTables)
    ensures SessionUser(old(db.users), old(session.data)).None? ==>
              && r == Success(Unauthorized())
              && session.data == old(session.data) && db.users == old(db.users)
    ensures SessionUser(old(db.users), old(session.data)).Some? ==>
              var u := SessionUser(old(db.users), old(session.data)).value;
              var values := ProfileUpdate(sha512, profile);
              && session.data == AdmittedData(old(session.data), u)
              && (UpdateError(old(db.users), u.id, values).Some? ==>
                    r == Failure(UpdateError(old(db.users), u.id, values).value) && db.users == old(db.users))
              && (UpdateError(old(db.users), u.id, values).None? ==>
                    && db.users == old(db.users)[u.id := ApplyUpdate(u, values)]
                    && r == OkWithUser(UpdatedMessage, ApplyUpdate(u, values)))
  {
    var g := AuthRequired(db, session);
    match g {
      case Rejected(response) =>
        return Success(response);
      case Admitted(u) =>
        GetByEmailFindsTheOwner(db.users, u.id);
        var userId := Get(session.data, Enums.SessionUserId);
        r := UpdateUser(db, sha512, userId.i, profile);
    }
  }

  /** A successful login leaves a session the guard admits, for the user who logged in, as long as the address
      is truthy (every address the login body accepts is). */
  lemma LoginThenGuardAdmits(users: map<int, User>, sha512: AuthService.Digest, credentials: AuthSchema.LoginUser,
                             data: map<string, Value>)
    requires UniqueEmails(users) && SessionWellFormed(data) && credentials.email != ""
    requires AuthService.LoginDecision(users, sha512, credentials).Success?
    ensures var loggedIn := data[Enums.SessionUserName := Str(credentials.email)];
            && SessionWellFormed(loggedIn)
            && SessionUser(users, loggedIn) == Some(AuthService.LoginDecision(users, sha512, credentials).value)
  {
  }
}

/** app/utils/check_session.py: `auth_required`, the guard in front of every protected route. It admits the
    session's user, if the address in the session still belongs to an active user, and records who it is. */
module CheckSession {
  import opened Wrappers
  import opened Json
  import opened Response
  import opened Models
  import opened UsersDao
  import opened Sessions
  import Enums

  /** What the guard does with a request: answers it itself, or passes it on for the user. */
  datatype Guarded = Rejected(response: Response) | Admitted(user: User)

  /** The user the guard admits for a session's data: the active owner of the address stored under
      `user_name`, if the address is truthy. */
  function SessionUser(users: map<int, User>, data: map<string, Value>): (r: Option<User>)
    requires UniqueEmails(users) && SessionWellFormed(data)
    ensures r.Some? <==> Enums.SessionUserName in data && data[Enums.SessionUserName].s != ""
                         && EmailTaken(users, data[Enums.SessionUserName].s)
                         && GetByEmail(users, data[Enums.SessionUserName].s).value.status == Enums.UserStatusActive
  {
    var name := Get(data, Enums.SessionUserName);
    if !Truthy(name) then None
    else
      match GetByEmail(users, name.s)
      case None => None
      case Some(u) => if u.status == Enums.UserStatusActive then Some(u) else None
  }

  /** The admitted user is the active account stored under the session's address. */
  lemma SessionUserIsActiveOwner(users: map<int, User>, data: map<string, Value>, k: int)
    requires UniqueEmails(users) && SessionWellFormed(data) && k in users
    requires Enums.SessionUserName in data && data[Enums.SessionUserName] == Str(users[k].email)
    ensures SessionUser(users, data).Some? <==> users[k].email != "" && users[k].status == Enums.UserStatusActive
    ensures SessionUser(users, data).Some? ==> SessionUser(users, data).value == users[k]
  {
    GetByEmailFindsTheOwner(users, k);
  }

  /** The session after admission: the user's dict, access level and id are recorded. */
  function AdmittedData(data: map<string, Value>, u: User): (d: map<string, Value>)
    ensures d.Keys == data.Keys + {Enums.SessionUserInfo, Enums.SessionUserAccessLevel, Enums.SessionUserId}
    ensures d[Enums.SessionUserInfo] == Obj(UserAsDict(u))
    ensures d[Enums.SessionUserAccessLevel] == Str(u.accessLevel) && d[Enums.SessionUserId] == Int(u.id)
    ensures forall k :: k in data && k !in {Enums.SessionUserInfo, Enums.SessionUserAccessLevel, Enums.SessionUserId}
                        ==> d[k] == data[k]
  {
    data[Enums.SessionUserInfo := Obj(UserAsDict(u))][Enums.SessionUserAccessLevel := Str(u.accessLevel)]
        [Enums.SessionUserId := Int(u.id)]
  }

  /** `wrapper(request)` up to the call of the protected function: 401 for a session without an address, for
      an unknown address and for an inactive user, the session untouched; otherwise the user is recorded. */
  method AuthRequired(db: Database, session: Session) returns (g: Guarded)
    requires db.Valid() && session.Valid()
    modifies session
    ensures session.Valid()
    ensures SessionUser(db.users, old(session.data)).None? ==>
              g == Rejected(Unauthorized()) && session.data == old(session.data)
    ensures SessionUser(db.users, old(session.data)).Some? ==>
              && g == Admitted(SessionUser(db.users, old(session.data)).value)
              && session.data == AdmittedData(old(session.data), g.user)
  {
    var email := Get(session.data, Enums.SessionUserName);
    if !Truthy(email) {
      return Rejected(Unauthorized());
    }
    var found := GetByEmail(db.users, email.s);
    if found.None? {
      return Rejected(Unauthorized());
    }
    var user := found.value;
    if user.status != Enums.UserStatusActive {
      return Rejected(Unauthorized());
    }
    session.data := session.data[Enums.SessionUserInfo := Obj(UserAsDict(user))];
    session.data := session.data[Enums.SessionUserAccessLevel := Str(user.accessLevel)];
    session.data := session.data[Enums.SessionUserId := Int(user.id)];
    return Admitted(user);
  }

  /** Admission does not touch the address, so the next request of the same session is admitted for the same
      user. */
  lemma AdmissionIsStable(users: map<int, User>, data: map<string, Value>, u: User)
    requires UniqueEmails(users) && SessionWellFormed(data) && SessionUser(users, data) == Some(u)
    ensures SessionWellFormed(AdmittedData(data, u))
    ensures SessionUser(users, AdmittedData(data, u)) == Some(u)
  {
    assert Get(AdmittedData(data, u), Enums.SessionUserName) == Get(data, Enums.SessionUserName);
  }

  /** A cleared session, as `logout` leaves it, is not admitted. */
  lemma ClearedSessionRejected(users: map<int, User>)
    requires UniqueEmails(users)
    ensures SessionUser(users, map[]) == None
  {
  }
}

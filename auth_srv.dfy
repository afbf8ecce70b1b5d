/** app/services/auth_srv.py: registration, login and logout with passwords kept as SHA-512 hex digests. */
module AuthService {
  import opened Wrappers
  import opened Exceptions
  import opened Response
  import opened Models
  import opened UsersSchema
  import opened AuthSchema
  import opened UsersDao
  import opened Sessions
  import Json
  import Enums
  import Utf8

  /** `hashlib.sha512(bytes).hexdigest()`. The digest itself is not modelled; it is a parameter. */
  type Digest = seq<Utf8.Byte> -> string

  /** SHA-512 is taken to map different byte strings to different digests. */
  ghost predicate DigestInjective(sha512: Digest) {
    forall a, b :: sha512(a) == sha512(b) ==> a == b
  }

  /** `hashlib.sha512(password.encode('utf-8')).hexdigest()`: what is stored in place of a password. */
  function HashPassword(sha512: Digest, password: string): string {
    sha512(Utf8.Encode(password))
  }

  /** `_verify_password(plain, hashed)`: the digest of the plain password is the stored one. */
  function VerifyPassword(sha512: Digest, plain: string, hashed: string): (ok: bool)
    ensures ok <==> HashPassword(sha512, plain) == hashed
  {
    HashPassword(sha512, plain) == hashed
  }

  /** The stored digest of a password lets in that password and no other. */
  lemma VerifyAcceptsOnlyItsPassword(sha512: Digest, plain: string, original: string)
    requires DigestInjective(sha512)
    ensures VerifyPassword(sha512, plain, HashPassword(sha512, original)) <==> plain == original
  {
    if VerifyPassword(sha512, plain, HashPassword(sha512, original)) {
      Utf8.EncodeInjective(plain, original);
    }
  }

  /* register_user */

  const RegisteredMessage: string := "Successfully created user."

  /** The row `register_user` asks for: the password hashed, the account active, with the normal access level. */
  function RegistrationRow(sha512: Digest, info: RegisterUser): (d: CreateUserDb)
    ensures d.email == info.email && d.password == HashPassword(sha512, info.password)
    ensures d.status == Enums.UserStatusActive && d.accessLevel == Enums.AccessLevelNormal
  {
    CreateUserDb(info.firstName, info.lastName, HashPassword(sha512, info.password), info.email,
                 Enums.UserStatusActive, Enums.AccessLevelNormal)
  }

  /** `register_user(user_info)` at database time `now`: a new active user, or a 400 carrying the
      DuplicateUserError's detail when the address is taken. An id is used up either way. */
  method RegisterUser(db: Database, sha512: Digest, info: RegisterUser, now: int) returns (r: Response)
    requires db.Valid()
    modifies db
    ensures db.Valid()
    ensures db.logTables == old(db.logTables) && db.endpoints == old(db.endpoints)
    ensures db.endpointSerial == old(db.endpointSerial) && db.metadataTables == old(db.metadataTables)
    ensures db.userSerial == old(db.userSerial) + 1
    ensures EmailTaken(old(db.users), info.email) ==>
              r == Error(message := DuplicateUserDetail, statusCode := HttpBadRequest) && db.users == old(db.users)
    ensures !EmailTaken(old(db.users), info.email) ==>
              var u := NewUser(old(db.userSerial) + 1, RegistrationRow(sha512, info), now);
              && u.id !in old(db.users)
              && db.users == old(db.users)[u.id := u]
              && r == Ok(message := RegisteredMessage, data := Json.Obj(UserAsDict(u)))
  {
    var created := UsersDao.Create(db, RegistrationRow(sha512, info), now);
    match created {
      case Failure(e) =>
        return Error(message := e.detail, statusCode := HttpBadRequest);
      case Success(u) =>
        return Ok(message := RegisteredMessage, data := Json.Obj(UserAsDict(u)));
    }
  }

  /* login */

  const LoggedInMessage: string := "Successfully logged in."
  const InvalidCredentialsMessage: string := "Invalid password or email."

  function UnknownEmailMessage(email: string): string {
    "User with Email " + email + " does not exist."
  }

  function InactiveMessage(email: string): string {
    "User with Email " + email + " is inactive."
  }

  /** What `login` decides from the stored users: the user it lets in, or the reply that turns the attempt
      away, the checks taken in the source's order. */
  function LoginDecision(users: map<int, User>, sha512: Digest, credentials: LoginUser): (r: Result<User, Response>)
    requires UniqueEmails(users)
  {
    match GetByEmail(users, credentials.email)
    case None =>
      Failure(Error(message := UnknownEmailMessage(credentials.email), statusCode := HttpNotFound))
    case Some(u) =>
      if u.status != Enums.UserStatusActive then
        Failure(Error(message := InactiveMessage(credentials.email), statusCode := HttpBadRequest))
      else if !VerifyPassword(sha512, credentials.password, u.password) then
        Failure(Error(message := InvalidCredentialsMessage, statusCode := HttpBadRequest))
      else Success(u)
  }

  /** Login lets in exactly the active owner of the address whose stored digest matches the password, and
      turns everyone else away with a 404 for an unknown address and a 400 otherwise. */
  lemma LoginDecisionAdmits(users: map<int, User>, sha512: Digest, credentials: LoginUser)
    requires UniqueEmails(users)
    ensures LoginDecision(users, sha512, credentials).Success? <==>
              exists k :: k in users && users[k].email == credentials.email
                          && users[k].status == Enums.UserStatusActive
                          && VerifyPassword(sha512, credentials.password, users[k].password)
    ensures LoginDecision(users, sha512, credentials).Success? ==>
              var u := LoginDecision(users, sha512, credentials).value;
              u in users.Values && u.email == credentials.email
    ensures !EmailTaken(users, credentials.email) <==>
              LoginDecision(users, sha512, credentials).Failure?
              && LoginDecision(users, sha512, credentials).error.statusCode == HttpNotFound
    ensures LoginDecision(users, sha512, credentials).Failure? ==>
              LoginDecision(users, sha512, credentials).error.statusCode in {HttpNotFound, HttpBadRequest}
  {
    if LoginDecision(users, sha512, credentials).Success? {
      var u := GetByEmail(users, credentials.email).value;
      var k :| k in users && users[k] == u;
      assert users[k].email == credentials.email;
    }
    if EmailTaken(users, credentials.email) {
      var k :| k in users && users[k].email == credentials.email;
      GetByEmailFindsTheOwner(users, k);
    }
  }

  /** `login(request, credentials)`: on success the address is written into the session and the user is
      returned; every refusal leaves the session as it was. */
  method Login(db: Database, session: Session, sha512: Digest, credentials: LoginUser) returns (r: Result<Response, Exception>)
    requires db.Valid() && session.Valid()
    modifies session
    ensures session.Valid()
    ensures LoginDecision(db.users, sha512, credentials).Failure? ==>
              r == Success(LoginDecision(db.users, sha512, credentials).error) && session.data == old(session.data)
    ensures LoginDecision(db.users, sha512, credentials).Success? ==>
              && session.data == old(session.data)[Enums.SessionUserName := Json.Str(credentials.email)]
              && r == OkWithUser(LoggedInMessage, LoginDecision(db.users, sha512, credentials).value)
  {
    var found := GetByEmail(db.users, credentials.email);
    if found.None? {
      return Success(Error(message := UnknownEmailMessage(credentials.email), statusCode := HttpNotFound));
    }
    var user := found.value;
    if user.status != Enums.UserStatusActive {
      return Success(Error(message := InactiveMessage(credentials.email), statusCode := HttpBadRequest));
    }
    if !VerifyPassword(sha512, credentials.password, user.password) {
      return Success(Error(message := InvalidCredentialsMessage, statusCode := HttpBadRequest));
    }
    session.data := session.data[Enums.SessionUserName := Json.Str(credentials.email)];
    return OkWithUser(LoggedInMessage, user);
  }

  /** A user just registered can log in with the password they registered with, and with no other. */
  lemma RegisteredUserCanLogIn(users: map<int, User>, serial: nat, sha512: Digest, info: RegisterUser, now: int,
                               password: string)
    requires UsersWellFormed(users, serial) && !EmailTaken(users, info.email) && DigestInjective(sha512)
    ensures var u := NewUser(serial + 1, RegistrationRow(sha512, info), now);
            var registered := users[u.id := u];
            && UniqueEmails(registered)
            && (LoginDecision(registered, sha512, LoginUser(info.email, password)).Success? <==> password == info.password)
            && (password == info.password ==> LoginDecision(registered, sha512, LoginUser(info.email, password)) == Success(u))
  {
    var u := NewUser(serial + 1, RegistrationRow(sha512, info), now);
    InsertKeepsUsersWellFormed(users, serial, u);
    var registered := users[u.id := u];
    GetByEmailFindsTheOwner(registered, u.id);
    VerifyAcceptsOnlyItsPassword(sha512, password, info.password);
  }

  /* logout */

  const LoggedOutMessage: string := "Successful logout."

  /** `logout(request)`: the whole session is cleared. */
  method Logout(session: Session) returns (r: Response)
    modifies session
    ensures session.Valid() && session.data == map[]
    ensures r == Ok(message := LoggedOutMessage)
  {
    session.data := map[];
    return Ok(message := LoggedOutMessage);
  }
}

/** app/services/users_srv.py: the profile of the logged-in user, read from the session and updated in
    config.users. */
module UsersService {
  import opened Wrappers
  import opened Exceptions
  import opened Json
  import opened Response
  import opened Models
  import opened UsersSchema
  import opened UsersDao
  import AuthService
  import AuthSchema
  import Text
  import Enums

  const UserDetailsMessage: string := "Successfully provided user details."
  const UpdatedMessage: string := "Successfully updated user."

  /** `get_user_info_from_request(request)`: whatever the guard recorded under `user_info`, None if nothing. */
  function GetUserInfoFromRequest(data: map<string, Value>): (r: Response)
    ensures r.statusCode == HttpOk
    ensures IsEnvelope(r, "success", UserDetailsMessage, Get(data, Enums.SessionUserInfo))
  {
    Ok(message := UserDetailsMessage, data := Get(data, Enums.SessionUserInfo))
  }

  /* update_user */

  function UnknownUserMessage(userId: int): string {
    "User with ID " + Text.IntToString(userId) + " does not exist."
  }

  /** The reply to an unknown id as written: the text is passed positionally, so it lands in `status` and the
      message stays the generic one. */
  function UnknownUserReplyAsWritten(userId: int): (r: Response)
    ensures r.statusCode == HttpBadRequest
    ensures IsEnvelope(r, UnknownUserMessage(userId), GenericErrorMessage, Value.Null)
  {
    Error(UnknownUserMessage(userId), statusCode := HttpBadRequest)
  }

  /** The reply to an unknown id with the text in `message`, the form every other 400 of the services takes. */
  function UnknownUserReply(userId: int): (r: Response)
    ensures r.statusCode == HttpBadRequest
    ensures IsEnvelope(r, "error", UnknownUserMessage(userId), Value.Null)
  {
    Error(message := UnknownUserMessage(userId), statusCode := HttpBadRequest)
  }

  /** The as-written reply names the id nowhere a client reads the message, and its status is not "error". */
  lemma UnknownUserReplyAsWrittenMisplacesText(userId: int)
    ensures UnknownUserReplyAsWritten(userId).body["status"] != Str("error")
    ensures UnknownUserReplyAsWritten(userId).body["message"] == Str(GenericErrorMessage)
    ensures UnknownUserReplyAsWritten(userId) != UnknownUserReply(userId)
    ensures UnknownUserReply(userId).body["message"] == Str(UnknownUserMessage(userId))
  {
    assert UnknownUserMessage(userId)[0] == 'U';
  }

  /** `user_data.password` after the truthiness test: a non-empty password is replaced by its digest. */
  function HashedProfile(sha512: AuthService.Digest, profile: UpdateUserProfile): (p: UpdateUserProfile)
    ensures p.firstName == profile.firstName && p.lastName == profile.lastName && p.email == profile.email
    ensures p.confirmPassword == profile.confirmPassword
    ensures IsSet(profile.password) ==> p.password == Some(AuthService.HashPassword(sha512, profile.password.value))
    ensures !IsSet(profile.password) ==> p.password == profile.password
  {
    if IsSet(profile.password) then profile.(password := Some(AuthService.HashPassword(sha512, profile.password.value)))
    else profile
  }

  /** `model_dump()` with the None fields and `confirm_password` dropped. */
  function DataToUpdate(profile: UpdateUserProfile): (values: map<UserColumn, string>)
    ensures FirstNameColumn in values <==> profile.firstName.Some?
    ensures LastNameColumn in values <==> profile.lastName.Some?
    ensures EmailColumn in values <==> profile.email.Some?
    ensures PasswordColumn in values <==> profile.password.Some?
    ensures FirstNameColumn in values ==> values[FirstNameColumn] == profile.firstName.value
    ensures LastNameColumn in values ==> values[LastNameColumn] == profile.lastName.value
    ensures EmailColumn in values ==> values[EmailColumn] == profile.email.value
    ensures PasswordColumn in values ==> values[PasswordColumn] == profile.password.value
  {
    var first := if profile.firstName.Some? then map[FirstNameColumn := profile.firstName.value] else map[];
    var last := if profile.lastName.Some? then map[LastNameColumn := profile.lastName.value] else map[];
    var email := if profile.email.Some? then map[EmailColumn := profile.email.value] else map[];
    var password := if profile.password.Some? then map[PasswordColumn := profile.password.value] else map[];
    first + last + email + password
  }

  /** What `update_user` sends to the data-access object. */
  function ProfileUpdate(sha512: AuthService.Digest, profile: UpdateUserProfile): map<UserColumn, string> {
    DataToUpdate(HashedProfile(sha512, profile))
  }

  /** The stored password: the digest of a non-empty new password; an empty one is stored as it is, unhashed;
      no password leaves the column alone. The confirmation is never stored. */
  lemma ProfileUpdatePassword(sha512: AuthService.Digest, profile: UpdateUserProfile)
    ensures PasswordColumn in ProfileUpdate(sha512, profile) <==> profile.password.Some?
    ensures IsSet(profile.password) ==>
              ProfileUpdate(sha512, profile)[PasswordColumn] == AuthService.HashPassword(sha512, profile.password.value)
    ensures profile.password == Some("") ==> ProfileUpdate(sha512, profile)[PasswordColumn] == ""
    ensures ProfileUpdate(sha512, profile) == map[] <==>
              profile.firstName.None? && profile.lastName.None? && profile.email.None? && profile.password.None?
  {
    var values := ProfileUpdate(sha512, profile);
    if values == map[] {
      assert FirstNameColumn !in values && LastNameColumn !in values;
      assert EmailColumn !in values && PasswordColumn !in values;
    } else {
      var c :| c in values;
      match c {
        case FirstNameColumn =>
        case LastNameColumn =>
        case EmailColumn =>
        case PasswordColumn =>
      }
    }
  }

  /** `update_user(user_id, user_data)`: a 400 for an unknown id, else the UPDATE, then the updated user. The
      data-access object's errors escape. The re-read always finds the row, so the AttributeError of a None
      user cannot happen. */
  method UpdateUser(db: Database, sha512: AuthService.Digest, userId: int, profile: UpdateUserProfile)
    returns (r: Result<Response, Exception>)
    requires db.Valid()
    modifies db
    ensures db.Valid()
    ensures db.logTables == old(db.logTables) && db.endpoints == old(db.endpoints)
    ensures db.endpointSerial == old(db.endpointSerial) && db.metadataTables == old(db.metadataTables)
    ensures db.userSerial == old(db.userSerial)
    ensures userId !in old(db.users) ==> r == Success(UnknownUserReply(userId)) && db.users == old(db.users)
    ensures userId in old(db.users) && UpdateError(old(db.users), userId, ProfileUpdate(sha512, profile)).Some? ==>
              && r == Failure(UpdateError(old(db.users), userId, ProfileUpdate(sha512, profile)).value)
              && db.users == old(db.users)
    ensures userId in old(db.users) && UpdateError(old(db.users), userId, ProfileUpdate(sha512, profile)).None? ==>
              && db.users == old(db.users)[userId := ApplyUpdate(old(db.users)[userId], ProfileUpdate(sha512, profile))]
              && r == OkWithUser(UpdatedMessage, db.users[userId])
  {
    var found := GetById(db.users, userId);
    if found.None? {
      return Success(UnknownUserReply(userId));
    }
    var updated := UsersDao.Update(db, userId, ProfileUpdate(sha512, profile));
    match updated {
      case Failure(e) =>
        return Failure(e);
      case Success(user) =>
        if user.None? {
          return Failure(AttributeError("'NoneType' object has no attribute 'as_dict'"));
        }
        return OkWithUser(UpdatedMessage, user.value);
    }
  }

  /** The users table after an accepted profile update of user `id`. */
  function UpdatedUsers(users: map<int, User>, id: int, values: map<UserColumn, string>): map<int, User>
    requires id in users
  {
    users[id := ApplyUpdate(users[id], values)]
  }

  /** After an active user sets a non-empty password, they log in with their (possibly new) address and that
      password, and with no other password. */
  lemma NewPasswordLogsIn(users: map<int, User>, serial: nat, sha512: AuthService.Digest, id: int,
                          profile: UpdateUserProfile, password: string)
    requires UsersWellFormed(users, serial) && id in users && users[id].status == Enums.UserStatusActive
    requires UpdateError(users, id, ProfileUpdate(sha512, profile)).None? && IsSet(profile.password)
    requires AuthService.DigestInjective(sha512)
    ensures var updated := UpdatedUsers(users, id, ProfileUpdate(sha512, profile));
            && UniqueEmails(updated)
            && (AuthService.LoginDecision(updated, sha512, AuthSchema.LoginUser(updated[id].email, password)).Success?
                <==> password == profile.password.value)
  {
    var values := ProfileUpdate(sha512, profile);
    ProfileUpdatePassword(sha512, profile);
    UpdateKeepsUsersWellFormed(users, serial, id, values);
    var updated := UpdatedUsers(users, id, values);
    ApplyUpdateSetsColumns(users[id], values, PasswordColumn);
    GetByEmailFindsTheOwner(updated, id);
    AuthService.VerifyAcceptsOnlyItsPassword(sha512, password, profile.password.value);
  }

  /** A hex digest is never empty. */
  ghost predicate DigestNeverEmpty(sha512: AuthService.Digest) {
    forall b :: sha512(b) != ""
  }

  /** An empty new password passes validation when confirmed, skips the hashing and is stored as the empty
      string, which no digest equals: that user can no longer log in with any password. */
  lemma EmptyPasswordLocksOut(users: map<int, User>, serial: nat, sha512: AuthService.Digest, id: int,
                              profile: UpdateUserProfile, password: string)
    requires UsersWellFormed(users, serial) && id in users
    requires UpdateError(users, id, ProfileUpdate(sha512, profile)).None? && profile.password == Some("")
    requires DigestNeverEmpty(sha512)
    ensures var updated := UpdatedUsers(users, id, ProfileUpdate(sha512, profile));
            && UniqueEmails(updated)
            && updated[id].password == ""
            && AuthService.LoginDecision(updated, sha512, AuthSchema.LoginUser(updated[id].email, password)).Failure?
  {
    var values := ProfileUpdate(sha512, profile);
    ProfileUpdatePassword(sha512, profile);
    UpdateKeepsUsersWellFormed(users, serial, id, values);
    var updated := UpdatedUsers(users, id, values);
    ApplyUpdateSetsColumns(users[id], values, PasswordColumn);
    GetByEmailFindsTheOwner(updated, id);
    assert AuthService.HashPassword(sha512, password) != "";
  }
}

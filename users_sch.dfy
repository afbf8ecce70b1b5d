/** app/schemas/users_sch.py: the validators of `ValidatorUtils`, and the `UpdateUserProfile` body they check. */
module UsersSchema {
  import opened Wrappers
  import opened Exceptions
  import opened Text
  import opened Models
  import Json
  import Response
  import Enums

  /* validate_email */

  /** The characters of the local part: ASCII letters, digits and `._%+-`. */
  predicate IsLocalChar(c: char) {
    IsAsciiLetter(c) || IsDigit(c) || c == '.' || c == '_' || c == '%' || c == '+' || c == '-'
  }

  /** The characters of the domain: ASCII letters, digits, `.` and `-`. */
  predicate IsDomainChar(c: char) {
    IsAsciiLetter(c) || IsDigit(c) || c == '.' || c == '-'
  }

  /** The characters after the last dot: ASCII letters and `|` (the class is written `[A-Z|a-z]`). */
  predicate IsTopLevelChar(c: char) {
    IsAsciiLetter(c) || c == '|'
  }

  /** The characters of the local part that `\w` matches, so that a word boundary can precede them. */
  predicate IsWordChar(c: char) {
    IsAsciiLetter(c) || IsDigit(c) || c == '_'
  }

  /** s reads as a local part, an `@` at `at`, a domain, a `.` at `dot` and at least two top-level characters,
      each part made of its own character class. */
  predicate EmailSplit(s: string, at: int, dot: int) {
    && 0 < at && at + 1 < dot && dot + 2 < |s|
    && s[at] == '@' && s[dot] == '.'
    && (forall k :: 0 <= k < at ==> IsLocalChar(s[k]))
    && (forall k :: at < k < dot ==> IsDomainChar(s[k]))
    && (forall k :: dot < k < |s| ==> IsTopLevelChar(s[k]))
  }

  /** `re.fullmatch` of the email pattern: the whole string splits into the three parts, and the word boundaries
      at both ends hold, so it starts with a word character and ends with a letter. */
  predicate MatchesEmailPattern(s: string) {
    && (exists at, dot | 0 <= at < dot < |s| :: EmailSplit(s, at, dot))
    && IsWordChar(s[0]) && IsAsciiLetter(s[|s| - 1])
  }

  /** The first position of c in s, or -1. */
  function IndexOf(s: string, c: char): (i: int)
    ensures -1 <= i < |s|
    ensures i >= 0 ==> s[i] == c
    ensures forall k :: 0 <= k < |s| && (i < 0 || k < i) ==> s[k] != c
  {
    if s == [] then -1
    else if s[0] == c then 0
    else
      var j := IndexOf(s[1..], c);
      if j < 0 then -1 else j + 1
  }

  /** The last position of c in s, or -1. */
  function LastIndexOf(s: string, c: char): (i: int)
    ensures -1 <= i < |s|
    ensures i >= 0 ==> s[i] == c
    ensures forall k :: i < k < |s| ==> s[k] != c
  {
    if s == [] then -1
    else if s[|s| - 1] == c then |s| - 1
    else LastIndexOf(s[..|s| - 1], c)
  }

  /** The pattern decided in one pass: the only possible `@` is the first one, since no part may hold an `@`,
      and the only possible dot is the last one, since the top-level part may not hold a dot. */
  function IsEmail(s: string): bool {
    && EmailSplit(s, IndexOf(s, '@'), LastIndexOf(s, '.'))
    && IsWordChar(s[0]) && IsAsciiLetter(s[|s| - 1])
  }

  lemma IsEmailDecidesPattern(s: string)
    ensures IsEmail(s) <==> MatchesEmailPattern(s)
  {
    if MatchesEmailPattern(s) {
      var at, dot :| EmailSplit(s, at, dot);
      assert EmailSplit(s, at, dot);
      assert IndexOf(s, '@') == at by {
        assert !IsLocalChar('@');
      }
      assert LastIndexOf(s, '.') == dot by {
        assert !IsTopLevelChar('.');
      }
    }
  }

  function InvalidEmailMessage(email: string): string {
    "Invalid email address " + Repr(email) + ". Please, try again with different email."
  }

  /** `validate_email`: the address itself when the pattern matches it whole, otherwise a ValueError. */
  function ValidateEmail(email: string): (r: Result<string, Exception>)
    ensures r.Success? <==> MatchesEmailPattern(email)
    ensures r.Success? ==> r.value == email
    ensures r.Failure? ==> r.error == ValueError(InvalidEmailMessage(email))
  {
    IsEmailDecidesPattern(email);
    if IsEmail(email) then Success(email) else Failure(ValueError(InvalidEmailMessage(email)))
  }

  /** The shape of every address `validate_email` accepts: one `@`, not first and not last; a first character
      that is a letter, a digit or `_`; a dot after the `@` followed by at least two letters or `|` and by
      nothing else; a letter at the end. */
  lemma AcceptedEmailShape(email: string)
    requires ValidateEmail(email).Success?
    ensures exists at :: 0 < at < |email| - 1 && email[at] == '@' &&
              forall k :: 0 <= k < |email| && k != at ==> email[k] != '@'
    ensures IsWordChar(email[0]) && IsAsciiLetter(email[|email| - 1])
    ensures exists dot :: 0 < dot < |email| - 2 && email[dot] == '.' &&
              forall k :: dot < k < |email| ==> IsTopLevelChar(email[k])
  {
    var at, dot :| EmailSplit(email, at, dot);
    assert EmailSplit(email, at, dot);
    assert !IsLocalChar('@') && !IsDomainChar('@') && !IsTopLevelChar('@');
  }

  /* validate_status and validate_access_level */

  /** `validate_status`: "active" and "inactive" pass unchanged; anything else is a ValueError. */
  function ValidateStatus(status: string): (r: Result<string, Exception>)
    ensures r.Success? <==> status == Enums.UserStatusActive || status == Enums.UserStatusInactive
    ensures r.Success? ==> r.value == status
    ensures r.Failure? ==> r.error == ValueError("Invalid status " + status +
                                                 ". Please, provide valid status active, inactive.")
  {
    if status == Enums.UserStatusActive || status == Enums.UserStatusInactive then Success(status)
    else Failure(ValueError("Invalid status " + status + ". Please, provide valid status active, inactive."))
  }

  /** `validate_access_level`: "Admin" and "User" pass unchanged; anything else is a ValueError. */
  function ValidateAccessLevel(accessLevel: string): (r: Result<string, Exception>)
    ensures r.Success? <==> accessLevel == Enums.AccessLevelAdmin || accessLevel == Enums.AccessLevelNormal
    ensures r.Success? ==> r.value == accessLevel
    ensures r.Failure? ==> r.error == ValueError(accessLevel +
                                                 " is not a valid access level. Valid types are: Admin, User")
  {
    if accessLevel == Enums.AccessLevelAdmin || accessLevel == Enums.AccessLevelNormal then Success(accessLevel)
    else Failure(ValueError(accessLevel + " is not a valid access level. Valid types are: Admin, User"))
  }

  /** The joined values in the messages are the enumerations' own values. */
  lemma ValidatorMessagesListTheEnums()
    ensures Enums.UserStatusActive + ", " + Enums.UserStatusInactive == "active, inactive"
    ensures Enums.AccessLevelAdmin + ", " + Enums.AccessLevelNormal == "Admin, User"
  {
  }

  /* validate_password */

  const MismatchMessage: string := "password and confirm_password do not match"
  const ConfirmWithoutPasswordMessage: string := "confirm_password must be set if password is set"

  /** Python truthiness of an optional string. */
  predicate IsSet(s: Option<string>) {
    s.Some? && s.value != ""
  }

  /** `validate_password`. `confirm` is `info.data.get('confirm_password')` with the key's absence kept apart:
      None when the key is missing, Some(None) when it holds None. The test on the first line groups as
      `(password and key missing) or data[key] is None`, so a missing key with an empty or None password is
      indexed and raises KeyError. */
  function ValidatePassword(password: Option<string>, confirm: Option<Option<string>>): (r: Result<Option<string>, Exception>)
  {
    if IsSet(password) && confirm.None? then Failure(ValueError(MismatchMessage))
    else if confirm.None? then Failure(KeyError("confirm_password"))
    else if confirm.value.None? then Failure(ValueError(MismatchMessage))
    else if password.None? then Failure(ValueError(ConfirmWithoutPasswordMessage))
    else if password.value != confirm.value.value then Failure(ValueError(MismatchMessage))
    else Success(password)
  }

  /** The password passes, unchanged, exactly when the confirmation is present, not None, and equal to it. */
  lemma ValidatePasswordAccepts(password: Option<string>, confirm: Option<Option<string>>)
    ensures ValidatePassword(password, confirm).Success? <==>
              confirm.Some? && confirm.value.Some? && password == confirm.value
    ensures ValidatePassword(password, confirm).Success? ==> ValidatePassword(password, confirm).value == password
  {
  }

  /** The KeyError happens exactly when the key is missing and the password is empty or None; every other
      refusal is a ValueError. */
  lemma ValidatePasswordFailures(password: Option<string>, confirm: Option<Option<string>>)
    ensures ValidatePassword(password, confirm) == Failure(KeyError("confirm_password")) <==>
              confirm.None? && !IsSet(password)
    ensures ValidatePassword(password, confirm).Failure? && confirm.Some? ==>
              ValidatePassword(password, confirm).error.ValueError?
  {
  }

  /* UpdateUserProfile */

  /** How one optional field arrives in a request body. */
  datatype Sent = Omitted | Null | Given(s: string)

  /** The fields of a PUT /user/profile body, in the order pydantic validates them. */
  datatype ProfileBody = ProfileBody(firstName: Sent, lastName: Sent, email: Sent, confirmPassword: Sent,
                                     password: Sent)

  /** A validated `UpdateUserProfile`: every field defaults to None. */
  datatype UpdateUserProfile = UpdateUserProfile(firstName: Option<string>, lastName: Option<string>,
                                                 email: Option<string>, confirmPassword: Option<string>,
                                                 password: Option<string>)

  function SentValue(f: Sent): (v: Option<string>)
    ensures v.Some? <==> f.Given?
    ensures f.Given? ==> v.value == f.s
  {
    match f
    case Given(s) => Some(s)
    case _ => None
  }

  const NoneTypeMessage: string := "expected string or bytes-like object, got 'NoneType'"

  /** The `(field, message)` list of the ValueErrors the two validators raise. */
  function ProfileErrors(body: ProfileBody): seq<(string, string)>
    requires body.email != Null
  {
    var emailErrors :=
      if body.email.Given? && ValidateEmail(body.email.s).Failure? then [("email", ValidateEmail(body.email.s).error.message)]
      else [];
    var passwordErrors :=
      if body.password.Omitted? then []
      else match ValidatePassword(SentValue(body.password), Some(SentValue(body.confirmPassword)))
        case Success(_) => []
        case Failure(e) => [("password", e.message)];
    emailErrors + passwordErrors
  }

  /** `UpdateUserProfile(**body)`. A field validator runs only on a field that was sent; `confirm_password` is
      validated before `password`, so `info.data` always holds it, its default None included. A ValueError is
      collected into the ValidationError; the TypeError that `re.fullmatch` raises for an email sent as null is
      not a ValueError and escapes. */
  function ValidateProfile(body: ProfileBody): (r: Result<UpdateUserProfile, Exception>)
  {
    if body.email == Null then Failure(TypeError(NoneTypeMessage))
    else if ProfileErrors(body) != [] then Failure(FieldErrors(ProfileErrors(body)))
    else Success(UpdateUserProfile(SentValue(body.firstName), SentValue(body.lastName), SentValue(body.email),
                                   SentValue(body.confirmPassword), SentValue(body.password)))
  }

  /** A body is accepted exactly when a sent email matches the pattern and a sent password comes with an equal
      confirmation; the accepted profile holds the sent values and None for the rest. */
  lemma ValidateProfileAccepts(body: ProfileBody)
    ensures ValidateProfile(body).Success? <==>
              && body.email != Null
              && (body.email.Given? ==> MatchesEmailPattern(body.email.s))
              && (!body.password.Omitted? ==> body.confirmPassword.Given? && body.password == body.confirmPassword)
    ensures ValidateProfile(body).Success? ==>
              ValidateProfile(body).value == UpdateUserProfile(SentValue(body.firstName), SentValue(body.lastName),
                                                               SentValue(body.email), SentValue(body.confirmPassword),
                                                               SentValue(body.password))
  {
    if body.email != Null && !body.password.Omitted? {
      ValidatePasswordAccepts(SentValue(body.password), Some(SentValue(body.confirmPassword)));
    }
  }

  /** A refused body names each failing field: the email when it does not match, the password when it has no
      equal confirmation. */
  lemma ValidateProfileRefusals(body: ProfileBody)
    requires body.email != Null && ValidateProfile(body).Failure?
    ensures ValidateProfile(body).error.FieldErrors?
    ensures body.email.Given? && !MatchesEmailPattern(body.email.s) ==>
              ValidateProfile(body).error.errors[0] == ("email", InvalidEmailMessage(body.email.s))
    ensures (!body.password.Omitted? && !(body.confirmPassword.Given? && body.password == body.confirmPassword)) ==>
              var errors := ValidateProfile(body).error.errors;
              errors[|errors| - 1].0 == "password"
  {
    if !body.password.Omitted? {
      ValidatePasswordAccepts(SentValue(body.password), Some(SentValue(body.confirmPassword)));
      ValidatePasswordFailures(SentValue(body.password), Some(SentValue(body.confirmPassword)));
    }
  }

  /** A password sent as null never passes, whatever the confirmation. */
  lemma NullPasswordRefused(body: ProfileBody)
    requires body.password == Null
    ensures ValidateProfile(body).Failure?
  {
    ValidateProfileAccepts(body);
  }

  /* The records handed to and returned by the services */

  /** `CreateUserDB`: the row `register_user` asks the data-access object to insert. */
  datatype CreateUserDb = CreateUserDb(firstName: string, lastName: string, password: string, email: string,
                                       status: string, accessLevel: string)

  /** `UserBaseOut.model_validate(user.as_dict())`: `created_at` must be a string, so a user whose
      `created_at` is unset fails validation; any other user comes out as its dict, without the password. */
  function UserBaseOut(u: User): (r: Result<Json.Value, Exception>)
    ensures r.Success? <==> u.createdAt.Some?
    ensures r.Success? ==> r.value.Obj? && r.value.fields.Keys == UserKeys && "password" !in r.value.fields
    ensures r.Success? ==> r.value.fields["id"] == Json.Int(u.id) && r.value.fields["email"] == Json.Str(u.email)
    ensures r.Failure? ==> r.error == ValidationError("created_at")
  {
    if u.createdAt.None? then Failure(ValidationError("created_at")) else Success(Json.Obj(UserAsDict(u)))
  }

  /** `ok(message=message, data=UserBaseOut.model_validate(user.as_dict()))`: the ValidationError of an unset
      `created_at` escapes instead. */
  function OkWithUser(message: string, u: User): (r: Result<Response.Response, Exception>)
    ensures r.Success? <==> u.createdAt.Some?
    ensures r.Success? ==> r.value == Response.Ok(message := message, data := Json.Obj(UserAsDict(u)))
    ensures r.Failure? ==> r.error == ValidationError("created_at")
  {
    match UserBaseOut(u)
    case Success(out) => Success(Response.Ok(message := message, data := out))
    case Failure(e) => Failure(e)
  }
}

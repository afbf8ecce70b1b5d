/** app/schemas/auth_sch.py: the bodies of POST /register and POST /login, checked by the validators of
    `ValidatorUtils`. */
module AuthSchema {
  import opened Wrappers
  import opened Exceptions
  import opened UsersSchema

  /** A `RegisterUser` body: every field is a required string. */
  datatype RegisterUser = RegisterUser(firstName: string, lastName: string, email: string,
                                       confirmPassword: string, password: string)

  /** A `LoginUser` body. */
  datatype LoginUser = LoginUser(email: string, password: string)

  /** The `(field, message)` list of the ValueErrors raised while validating a `RegisterUser`. `confirm_password`
      comes before `password`, so `info.data` holds it when the password is checked. */
  function RegistrationErrors(body: RegisterUser): seq<(string, string)> {
    var emailErrors :=
      if ValidateEmail(body.email).Failure? then [("email", ValidateEmail(body.email).error.message)] else [];
    var passwordErrors :=
      match ValidatePassword(Some(body.password), Some(Some(body.confirmPassword)))
      case Success(_) => []
      case Failure(e) => [("password", e.message)];
    emailErrors + passwordErrors
  }

  /** `RegisterUser(**body)`: the body itself, or the ValidationError listing the fields that failed. */
  function ValidateRegistration(body: RegisterUser): (r: Result<RegisterUser, Exception>)
    ensures r.Success? <==> MatchesEmailPattern(body.email) && body.password == body.confirmPassword
    ensures r.Success? ==> r.value == body
    ensures r.Failure? ==> r.error.FieldErrors? && |r.error.errors| > 0
    ensures r.Failure? && !MatchesEmailPattern(body.email) ==>
              r.error.errors[0] == ("email", InvalidEmailMessage(body.email))
    ensures r.Failure? && body.password != body.confirmPassword ==>
              r.error.errors[|r.error.errors| - 1] == ("password", MismatchMessage)
  {
    ValidatePasswordAccepts(Some(body.password), Some(Some(body.confirmPassword)));
    var errors := RegistrationErrors(body);
    if errors == [] then Success(body) else Failure(FieldErrors(errors))
  }

  /** `LoginUser(**body)`: only the email is checked. */
  function ValidateLogin(body: LoginUser): (r: Result<LoginUser, Exception>)
    ensures r.Success? <==> MatchesEmailPattern(body.email)
    ensures r.Success? ==> r.value == body
    ensures r.Failure? ==> r.error == FieldErrors([("email", InvalidEmailMessage(body.email))])
  {
    match ValidateEmail(body.email)
    case Success(_) => Success(body)
    case Failure(e) => Failure(FieldErrors([("email", e.message)]))
  }

  /** Every accepted address is non-empty, so the guard can tell a logged-in session from a fresh one. */
  lemma AcceptedEmailIsTruthy(email: string)
    requires MatchesEmailPattern(email)
    ensures email != ""
  {
  }
}

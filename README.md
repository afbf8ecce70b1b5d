# up-down-api: a Dafny model of the endpoint health log and of user accounts

up-down-api is a FastAPI service that watches HTTP endpoints. Each monitored endpoint is a row of
`config.endpoints`. Its health checks go into a log table of its own in the `log` schema. The service keeps
user accounts in `config.users` and guards its routes with a cookie session. This project models two parts of
it and proves properties of the models.

- **The endpoint health log.**
  - The *log table* of an endpoint is created when the endpoint is created. It is named `t` followed by a
    uuid with underscores for dashes, cut to 63 characters.
  - Log tables are read, filtered by age and dropped through text SQL. The table name is checked first by a
    regular-expression sanitizer.
  - The endpoint listings carry the status of the newest log row.
  - The *uptime graph* is a 72-slot hourly view of the last 72 hours. A slot shows its first failing row, or
    else its newest row, or else a "nodata" record.
- **User accounts.**
  - The request-body validators: email pattern, status, access level, password confirmation, profile update.
  - Registration, login and logout, with passwords stored as SHA-512 hex digests.
  - The `auth_required` guard, which admits a session whose address belongs to an active user.
  - Reading and updating the logged-in user's profile.
  - The JSON response envelopes (`ok`, `error`, `unauthorized`, `forbidden`) and the catch-all exception
    handler.

The database is the class `Models.Database`. It holds the log tables by name, `config.endpoints` and
`config.users` as maps from id, the two id sequences, and the table names registered in SQLAlchemy's
`Base.metadata`. Each data-access or service operation that writes is a method on it. Its `ensures` gives the
whole new state and the reply. What PostgreSQL itself computes is a pure function: `ORDER BY`, `WHERE`,
`LIMIT 1`, the unique indexes, `ON DELETE CASCADE`, and how an unquoted identifier is folded. Python loops are
methods with loop invariants. There are two such loops: `EndpointsDao.GetAllWithLatestLogStatus`, proved to
pair each endpoint of the listing with its latest status, and `UptimeGraph.HourlyLogs`, proved equal to
`UptimeGraph.Timeline`.

An exception that a service lets escape is a `Failure` of a `Result`. `ErrorHandlers.Handled` turns any of
them into the generic 500.

These inputs arrive as parameters, because the model cannot compute them:
- clock readings (`datetime.now()` and the database's `now()`), as microseconds since 1970-01-01;
- the text of `uuid.uuid4()`;
- the SHA-512 function, as `AuthService.Digest`.

## Model

| member | source | states |
|---|---|---|
| Response.Envelope | app/utils/response.py:54-55 | the reply carries the given status code and a body of exactly the keys status, message and data |
| Response.Ok | app/utils/response.py:10-16 | 200, with status "success", message "" and data None unless given |
| Response.Unauthorized | app/utils/response.py:19-26 | 401 with status "error", message "Unauthorized", no data |
| Response.Forbidden | app/utils/response.py:29-36 | 403 with status "error", message "Forbidden", no data |
| Response.Error | app/utils/response.py:39-51 | status "error", the generic support message, no data and 500, each unless the caller overrides it |
| ErrorHandlers.Handled | app/utils/error_handlers.py:7-9 | a service's reply passes through unchanged; any exception becomes a 500 |
| ErrorHandlers.HandlerHidesException | app/utils/error_handlers.py:7-9 | two different exceptions give the client the same reply |
| Json.Get | app/utils/check_session.py:17 | `dict.get`: the stored value, or None for a missing key |
| Text.ReplaceChar | app/services/endpoints_srv.py:22 | `str.replace` of one character: the same length, every target replaced and every other character kept |
| Text.NatToStringRoundTrip | app/services/endpoints_srv.py:43 | the decimal text of an id reads back to that id |
| Text.IntToString | app/services/endpoints_srv.py:43 | non-empty, with a leading minus sign exactly for negative ids |
| Text.Lower | app/daos/log_table_dao.py:22 | ASCII lower-casing: same length, each character lower-cased |
| Text.Repr | app/schemas/users_sch.py:25 | `repr(s)`: the text between two copies of the chosen quote, never shorter than the text |
| Text.PlainRepr | app/schemas/users_sch.py:25 | a text without quotes, backslashes or control characters is shown as itself between single quotes |
| Utf8.Encode | app/services/auth_srv.py:21 | `str.encode('utf-8')` takes between one and four bytes per character |
| Utf8.DecodeEncode | app/services/auth_srv.py:21 | decoding the UTF-8 bytes of a text gives back its code points |
| Utf8.EncodeInjective | app/services/auth_srv.py:21 | different passwords have different UTF-8 bytes |
| Utf8.AsciiEncodesAsItself | app/services/auth_srv.py:21 | an ASCII password is encoded one byte per character, each byte its code |
| Calendar.FieldsOf | app/models/db_models.py:31 | the broken-down date and time of a timestamp add back up to its whole seconds |
| Calendar.CivilRoundTrip | app/models/db_models.py:31 | a day number survives the trip to a proleptic Gregorian date and back |
| Calendar.FormatTime | app/daos/log_table_dao.py:52 | `strftime("%Y-%m-%d %H:%M:%S")` of a timestamp; its contract is carried by Calendar.FormatTimeTruncates (the text reads back as the instant truncated to its second) |
| Calendar.IsoFormat | app/models/db_models.py:31 | `isoformat()` of a timestamp; its contract is carried by Calendar.IsoRoundTrip (".ffffff" only for nonzero microseconds, and the text reads back to the same instant) |
| Calendar.RenderRoundTrip | app/daos/log_table_dao.py:52 | in years 0..9999 a rendered timestamp has the fixed layout "YYYY-MM-DD?HH:MM:SS" and reads back to its whole seconds |
| Calendar.FormatTimeTruncates | app/daos/log_table_dao.py:52 | `strftime("%Y-%m-%d %H:%M:%S")` read back by PostgreSQL is the instant truncated to its second |
| Calendar.IsoRoundTrip | app/models/db_models.py:31 | `isoformat()` reads back to the very same instant, microseconds included |
| Calendar.FormatExample | app/services/endpoints_srv.py:100 | a worked instant: 01:00:00.5 on 2024-01-01 prints as "2024-01-01 01:00:00" and in ISO form with ".500000" |
| Models.CreatedAtRoundTrip | app/models/db_models.py:31 | an unset `created_at` is shown as None; a set one as ISO text that reads back to the same instant |
| Models.EndpointAsDict | app/models/db_models.py:77-92 | `Endpoints.as_dict()`: exactly the thirteen keys, with the transient status and the ISO `created_at` |
| Models.UserAsDict | app/models/db_models.py:25-34 | `Users.as_dict()`: the seven keys, without the password, with the stored email, status and access level |
| Models.UserAsDictIgnoresPassword | app/models/db_models.py:25-34 | changing the password never changes a user's dict |
| Models.AuthAsDict | app/models/db_models.py:47-54 | `Auth.as_dict()`: its five keys, `created_at` in ISO text |
| Models.LogRowAsDict | app/services/endpoints_srv.py:61 | a fetched log row as sent: the six columns, `created_at` as ISO text |
| Models.NewestIndex | app/services/endpoints_srv.py:98 | `max(rows, key=created_at)`: a row no other row is newer than, and the first of several such |
| Models.Database.constructor | app/models/db_models.py:12-92 | an empty database: no tables, endpoints, users or registrations, both id sequences at zero |
| Models.CreateLogTable | app/models/db_models.py:95-114 | a name registered earlier in the process raises and changes nothing; otherwise it is registered; "" raises IndexError; an existing table gives DuplicateTable; else an empty table of that name (up to 63 bytes) is created |
| LogTableDao.SanitizeTableName | app/daos/log_table_dao.py:12-17 | the name itself is returned, or ValueError("Invalid table name") |
| LogTableDao.SanitizeMatchesPattern | app/daos/log_table_dao.py:15 | accepted exactly when the letter/digit/underscore pattern matches, anchored as `re.match` does |
| LogTableDao.SanitizedCharacters | app/daos/log_table_dao.py:15 | an accepted name is non-empty and holds only letters, digits and underscores, save one final newline |
| LogTableDao.SanitizeTrailingNewline | app/daos/log_table_dao.py:15 | one trailing newline gets through the sanitizer and two do not |
| LogTableDao.UnquotedTableName | app/daos/log_table_dao.py:22 | PostgreSQL reads `log.<name>` as the lower-cased name without the newline; a leading digit is a syntax error (names up to 63 bytes) |
| LogTableDao.UnquotedTableNameIdentity | app/daos/log_table_dao.py:22 | a lower-case name without a newline or a leading digit names itself |
| LogTableDao.UnquotedTableNameFoldsCase | app/daos/log_table_dao.py:35 | two names that differ only in letter case reach the same table |
| LogTableDao.LookupLogTable | app/daos/log_table_dao.py:35-41 | the rows of the table the statement reaches, or UndefinedTable when none exists |
| LogTableDao.DropIfExists | app/daos/log_table_dao.py:19-23 | refused names raise ValueError; otherwise the table reached is removed if present and nothing else changes |
| LogTableDao.DropIdempotent | app/daos/log_table_dao.py:22 | dropping twice leaves the same tables as dropping once |
| LogTableDao.DropAbsentIsNoOp | app/daos/log_table_dao.py:22 | dropping an absent table changes nothing and is no error |
| LogTableDao.DeleteLogTable | app/daos/log_table_dao.py:19-30 | the database after the drop, or the error with the tables unchanged |
| LogTableDao.SelectAllFromLogTable | app/daos/log_table_dao.py:32-44 | a refused name raises ValueError; a sanitized name succeeds exactly when it reaches an existing table and then gives all its rows; a leading digit gives SyntaxError and an absent table UndefinedTable |
| LogTableDao.RowsSince | app/daos/log_table_dao.py:56 | exactly the rows created at or after the bound, with their multiplicities |
| LogTableDao.WrittenCutoff | app/daos/log_table_dao.py:50-52 | the cutoff the statement compares with is the computed one truncated to its second |
| LogTableDao.SelectLogsFromLastHours | app/daos/log_table_dao.py:46-66 | a ValueError for refused names; OverflowError when the cutoff leaves the datetime years; else the rows since the written cutoff |
| LogTableDao.SinceCoversCutoff | app/daos/log_table_dao.py:50-57 | every row written at or after now minus the hours is returned, and so may rows up to one second older |
| EndpointsDao.Listing | app/daos/endpoints_dao.py:24 | a listing of the chosen endpoints, each once, in `created_at` order with NULLs last |
| EndpointsDao.GetAll | app/daos/endpoints_dao.py:21-25 | every stored endpoint once, ordered by `created_at` |
| EndpointsDao.LatestStatus | app/daos/endpoints_dao.py:39-45 | the status of a row with the greatest `created_at`, or None for an empty table |
| EndpointsDao.WithLatestStatus | app/daos/endpoints_dao.py:37-46 | an endpoint with a log table gets the latest status of that table, or the lookup's error; one without keeps its own |
| EndpointsDao.FirstLookupErrorAt | app/daos/endpoints_dao.py:27-51 | when every entry of the listing before k is read and entry k fails, its error is the first lookup error, which the loop returns |
| EndpointsDao.GetAllWithLatestLogStatus | app/daos/endpoints_dao.py:27-51 | succeeds exactly when every endpoint's lookup does; the listing of `get_all` with each status filled in; an error is that of the first endpoint of the listing whose lookup fails |
| EndpointsDao.GetById | app/daos/endpoints_dao.py:53-57 | the endpoint with that id, or None exactly when no stored endpoint has it |
| EndpointsDao.GetByIdWithLatestLogStatus | app/daos/endpoints_dao.py:59-76 | an unknown id raises AttributeError (the row is read before the None check); else the endpoint with its latest status |
| EndpointsDao.UpdateError | app/daos/endpoints_dao.py:77-81 | the UPDATE is refused exactly when there are no values (StatementError) or an integer exceeds its column (DataError) |
| EndpointsDao.ApplyUpdate | app/daos/endpoints_dao.py:80-81 | id, log table, `created_at` and status are never changed |
| EndpointsDao.ApplyUpdateSetsColumns | app/daos/endpoints_dao.py:80-81 | every updatable column takes its given value, and keeps its old one when none is given |
| EndpointsDao.Update | app/daos/endpoints_dao.py:77-84 | a refused UPDATE changes nothing; otherwise the row with that id, if any, is updated and re-read |
| EndpointsDao.RowsNotReferencing | app/models/db_models.py:100-101 | exactly the rows not referencing the endpoint, with their multiplicities |
| EndpointsDao.Cascade | app/models/db_models.py:100-101 | every log table loses the rows of the deleted endpoint, and no table disappears |
| EndpointsDao.Delete | app/daos/endpoints_dao.py:86-90 | the endpoint is gone and its log rows with it; nothing else changes |
| EndpointsDao.NewEndpoint | app/daos/endpoints_dao.py:94-105 | the inserted row has the new id, the log table, the database time and the body's fields; a None response is stored as NULL |
| EndpointsDao.InsertError | app/daos/endpoints_dao.py:106-110 | the INSERT is refused before an id is drawn exactly when `threshold` or `application_id` exceeds SMALLINT, or `status_code` exceeds INTEGER |
| EndpointsDao.Create | app/daos/endpoints_dao.py:92-119 | an out-of-range integer changes nothing; otherwise an id is used up; a taken log table raises DuplicateEndpointError with nothing inserted; else the new row is inserted and returned |
| EndpointsSchema.BaseEndpointsOut | app/schemas/endpoints_sch.py:67-69 | validation succeeds exactly when the log table is set and the response is a dict or None; the validated dict has every key but `created_at` |
| EndpointsService.NotFound | app/services/endpoints_srv.py:41-44 | the 404 whose message names the unknown id |
| EndpointsService.Shown | app/services/endpoints_srv.py:46-48 | a validation error escapes; a validated model is sent as a 200 with the message |
| EndpointsService.GenerateTableName | app/services/endpoints_srv.py:20-28 | a name of 1 to 63 characters starting with "t" |
| EndpointsService.GeneratedNameShape | app/services/endpoints_srv.py:22-26 | a uuid gives 37 characters, "t" and then the uuid with underscores for dashes, never cut |
| EndpointsService.GeneratedNameIsPlain | app/services/endpoints_srv.py:22-23 | the generated name passes the sanitizer and PostgreSQL reads it unchanged |
| EndpointsService.GeneratedNamesDistinct | app/services/endpoints_srv.py:22-23 | different uuids give different table names |
| EndpointsService.GeneratedNameAddressesItsTable | app/services/endpoints_srv.py:22-23 | reading or dropping by the generated name reaches the table stored under that name |
| EndpointsService.Collect | app/services/endpoints_srv.py:37 | a comprehension whose item may raise: all values in order, or the first item's exception |
| EndpointsService.PresentedAll | app/services/endpoints_srv.py:37 | each endpoint of a listing is presented, in order |
| EndpointsService.ListingJson | app/services/endpoints_srv.py:30-37 | the `[BaseEndpointsOut.model_validate(...) for endpoint in endpoints]` of `get_all`; its contract is carried by EndpointsService.ListingJsonSucceedsIffAll and EndpointsService.ListingJsonShowsEach |
| EndpointsService.ListingJsonSucceedsIffAll | app/services/endpoints_srv.py:30-37 | the listing succeeds exactly when every stored endpoint can be presented |
| EndpointsService.ListingJsonShowsEach | app/services/endpoints_srv.py:30-37 | a successful listing has one element per endpoint, each presented, in `created_at` order |
| EndpointsService.ListingCoversEndpoints | app/daos/endpoints_dao.py:21-25 | a listing of all endpoints has exactly as many elements as there are endpoints |
| EndpointsService.GetAll | app/services/endpoints_srv.py:30-37 | the 200 with the presented listing exactly when the listing succeeds; else some endpoint's error |
| EndpointsService.PresentedListing | app/services/endpoints_srv.py:37 | validating the overlaid listing is presenting the stored one, error for error |
| EndpointsService.GetById | app/services/endpoints_srv.py:39-48 | an unknown id gets the 404; a known one is the endpoint presented with its latest status |
| EndpointsService.GetByIdAsWritten | app/services/endpoints_srv.py:39-48 | the code as written answers an unknown id with the AttributeError, so the client sees a 500 |
| EndpointsService.RowsJson | app/services/endpoints_srv.py:61 | one dict per fetched row, in order |
| EndpointsService.GetStatusGraphById | app/services/endpoints_srv.py:50-64 | the 404 for an unknown id; a schema error escapes; no log table gives an empty list; else one dict per row of the table, or the lookup's error |
| EndpointsService.GetUptimeGraphById | app/services/endpoints_srv.py:66-107 | the 404 for an unknown id; no log table gives an empty graph; else the query's error or the 72-slot timeline of the fetched rows |
| EndpointsService.NoDataMeansNoRowInTable | app/services/endpoints_srv.py:66-103 | a "nodata" slot means the log table holds no row of that hour, if the graph's clock is read at or after the query's |
| EndpointsService.CreateEndpoint | app/services/endpoints_srv.py:109-134 | an out-of-range integer escapes with nothing changed; a taken log table gives the 400 with the detail; otherwise the endpoint is committed, then its table is created; a table error escapes with the endpoint left in place; else the 200 with the new endpoint |
| EndpointsService.DataToUpdate | app/services/endpoints_srv.py:143-144 | exactly the fields sent with a value become columns to write, with those values |
| EndpointsService.UpdateWritesSentFields | app/services/endpoints_srv.py:143-146 | after an update a column holds the sent value when one was sent, else its old value |
| EndpointsService.EmptyBodyResetsResponse | app/schemas/endpoints_sch.py:43 | an empty update body still writes `response` as {} |
| EndpointsService.UpdateEndpoint | app/services/endpoints_srv.py:136-149 | the 404 for an unknown id; a refused UPDATE escapes with nothing changed; else the endpoint updated and presented |
| EndpointsService.DeleteEndpoint | app/services/endpoints_srv.py:151-163 | the 404 for an unknown id; else the row and its log rows are deleted, then its log table is dropped; a NULL log table (TypeError) or a failed drop escapes after the delete |
| UptimeGraph.RowsIn | app/services/endpoints_srv.py:90-91 | exactly the rows created in the slot, in fetched order |
| UptimeGraph.FirstFailureIndex | app/services/endpoints_srv.py:93 | the first row whose status is not "ok", a NULL status included; None exactly when there is none |
| UptimeGraph.Representative | app/services/endpoints_srv.py:93-101 | the choice of one slot's entry: first failing row, else first newest row, else "nodata"; its contract is carried by UptimeGraph.FailureWins, UptimeGraph.NewestWhenHealthy and UptimeGraph.NoDataExactlyWhenSlotEmpty |
| UptimeGraph.Entry | app/services/endpoints_srv.py:83-101 | the entry of slot k, from the rows created in that hour; its contract is carried by UptimeGraph.FirstFailureOfRowsIn, UptimeGraph.LoggedRowBelongsToSlot and UptimeGraph.NoDataExactlyWhenSlotEmpty |
| UptimeGraph.Timeline | app/services/endpoints_srv.py:82-103 | one entry per hour, slot k being entry k |
| UptimeGraph.HourlyLogs | app/services/endpoints_srv.py:82-103 | the loop builds exactly the timeline |
| UptimeGraph.SlotsAreWholeHours | app/services/endpoints_srv.py:83-88 | every slot is one full hour inside the window, and the last ends at the clock reading, so the clip never fires |
| UptimeGraph.SlotsInOrder | app/services/endpoints_srv.py:83-84 | an earlier slot ends before a later one begins |
| UptimeGraph.SlotsPartitionWindow | app/services/endpoints_srv.py:80-91 | an instant falls in some slot exactly when it lies in the window, and in one slot only |
| UptimeGraph.FirstFailureOfRowsIn | app/services/endpoints_srv.py:90-93 | the failure a slot shows is the first failing fetched row created in that slot |
| UptimeGraph.LoggedRowBelongsToSlot | app/services/endpoints_srv.py:90-98 | a slot shows a fetched row created in that slot |
| UptimeGraph.NoDataExactlyWhenSlotEmpty | app/services/endpoints_srv.py:99-101 | a slot is "nodata", labelled with its start as strftime writes it, exactly when no fetched row falls in it |
| UptimeGraph.FailureWins | app/services/endpoints_srv.py:93-96 | if any row of the slot fails, the slot shows the first failing row |
| UptimeGraph.NewestWhenHealthy | app/services/endpoints_srv.py:97-98 | if every row of a non-empty slot is healthy, the slot shows the first of its newest rows |
| UptimeGraph.EntriesInTimeOrder | app/services/endpoints_srv.py:82-103 | a row shown in an earlier slot is older than a row shown in a later one |
| UptimeGraph.RowsOutsideWindowNotShown | app/services/endpoints_srv.py:79-91 | a row shown anywhere lies in the window between 72 hours before the clock reading and the reading |
| UptimeGraph.EntryJson | app/services/endpoints_srv.py:90-101 | a logged slot is the row's dict; a "nodata" slot has exactly hour, status "nodata" and details |
| UptimeGraph.GraphJson | app/services/endpoints_srv.py:106-107 | one JSON object per slot, in order |
| UsersSchema.IsEmailDecidesPattern | app/schemas/users_sch.py:22-23 | the scan of the address accepts exactly what the email pattern matches |
| UsersSchema.ValidateEmail | app/schemas/users_sch.py:12-26 | the address itself when the pattern matches, else ValueError with its message quoting the address |
| UsersSchema.AcceptedEmailShape | app/schemas/users_sch.py:22 | an accepted address has exactly one "@", neither first nor last; a word character first; a dot followed only by letters or "\|"; a letter last |
| UsersSchema.ValidateStatus | app/schemas/users_sch.py:28-34 | accepted exactly for "active" and "inactive", else ValueError naming both |
| UsersSchema.ValidateAccessLevel | app/schemas/users_sch.py:36-42 | accepted exactly for the two access levels, else ValueError naming them |
| UsersSchema.ValidatorMessagesListTheEnums | app/schemas/users_sch.py:31-42 | the lists joined into the refusal messages are "active, inactive" and "Admin, User" |
| UsersSchema.ValidatePassword | app/schemas/users_sch.py:44-55 | `validate_password` with the missing key kept apart from None; its contract is carried by UsersSchema.ValidatePasswordAccepts and UsersSchema.ValidatePasswordFailures |
| UsersSchema.ValidatePasswordAccepts | app/schemas/users_sch.py:44-55 | a password passes, unchanged, exactly when the confirmation is present, not None, and equal to it |
| UsersSchema.ValidatePasswordFailures | app/schemas/users_sch.py:47-54 | the operator grouping of the first test raises KeyError exactly when the confirmation is missing and the password is empty or None; with a confirmation present every refusal is a ValueError |
| UsersSchema.ValidateProfile | app/schemas/users_sch.py:58-82 | `UpdateUserProfile(**body)` with validators run only on sent fields; its contract is carried by UsersSchema.ValidateProfileAccepts, UsersSchema.ValidateProfileRefusals and UsersSchema.NullPasswordRefused |
| UsersSchema.ValidateProfileAccepts | app/schemas/users_sch.py:58-82 | a body passes exactly when the email is not sent as null, a sent email matches, and a sent password comes with an equal confirmation; the profile holds the sent values and None elsewhere |
| UsersSchema.ValidateProfileRefusals | app/schemas/users_sch.py:76-82 | a refused body (email not null) lists a non-matching email first under "email", and a password without an equal confirmation last under "password" |
| UsersSchema.NullPasswordRefused | app/schemas/users_sch.py:80-82 | a password sent as null is refused, whatever the confirmation |
| UsersSchema.UserBaseOut | app/schemas/users_sch.py:85-93 | validation succeeds exactly when `created_at` is set; the output has the user keys and no password |
| UsersSchema.OkWithUser | app/services/auth_srv.py:77 | a 200 with the message and the user's dict, or the validation error of an unset `created_at` |
| AuthSchema.ValidateRegistration | app/schemas/auth_sch.py:7-20 | accepted exactly when the address matches and the password equals its confirmation; otherwise the email error first and the password error last |
| AuthSchema.ValidateLogin | app/schemas/auth_sch.py:23-29 | accepted exactly when the address matches; otherwise the single email error |
| AuthSchema.AcceptedEmailIsTruthy | app/schemas/auth_sch.py:27-29 | every address the login body accepts is non-empty |
| AuthService.HashPassword | app/services/auth_srv.py:35 | `hashlib.sha512(password.encode('utf-8')).hexdigest()`; its contract is carried by AuthService.VerifyPassword, AuthService.RegistrationRow and AuthService.VerifyAcceptsOnlyItsPassword |
| AuthService.VerifyPassword | app/services/auth_srv.py:19-21 | true exactly when the digest of the plain password is the stored text |
| AuthService.VerifyAcceptsOnlyItsPassword | app/services/auth_srv.py:19-21 | with an injective digest, the stored digest of a password admits that password and no other |
| AuthService.RegistrationRow | app/services/auth_srv.py:32-39 | the row stores the digest, not the password, and is active with the normal access level |
| AuthService.RegisterUser | app/services/auth_srv.py:29-49 | an id is used up either way; a taken address gives the 400 with the duplicate message and no insert; else the new user is inserted and returned |
| AuthService.LoginDecision | app/services/auth_srv.py:52-72 | the three checks of `login` in source order; its contract is carried by AuthService.LoginDecisionAdmits |
| AuthService.LoginDecisionAdmits | app/services/auth_srv.py:51-72 | login admits exactly an active owner of the address whose digest matches; 404 exactly for an unknown address; every refusal is a 404 or a 400 |
| AuthService.Login | app/services/auth_srv.py:51-77 | a refusal leaves the session unchanged; an admission writes the address into the session and returns the user |
| AuthService.RegisteredUserCanLogIn | app/services/auth_srv.py:29-77 | in the users after a registration, login with that address succeeds exactly with the registered password, for the new user |
| AuthService.Logout | app/services/auth_srv.py:23-27 | the session is emptied and the reply is "Successful logout." |
| UsersDao.GetById | app/daos/users_dao.py:27-31 | the user with that id, or None exactly when there is none |
| UsersDao.GetByEmail | app/daos/users_dao.py:33-37 | the unique user with that address, or None exactly when no user has it |
| UsersDao.GetByEmailFindsTheOwner | app/daos/users_dao.py:33-37 | looking up a stored user's address finds that user |
| UsersDao.NewUser | app/daos/users_dao.py:41-48 | the inserted user has the new id, the row's fields and the database time |
| UsersDao.InsertKeepsUsersWellFormed | app/models/db_models.py:16-19 | inserting a row with the next id and a free address keeps ids keyed and addresses unique |
| UsersDao.Create | app/daos/users_dao.py:39-62 | an id is used up either way; a taken address raises DuplicateUserError and inserts nothing; else the new user is inserted and returned |
| UsersDao.ApplyUpdate | app/daos/users_dao.py:67 | `values(**updated_data)` on one row: id, `created_at`, status and access level never change; the set columns are stated by UsersDao.ApplyUpdateSetsColumns |
| UsersDao.ApplyUpdateSetsColumns | app/daos/users_dao.py:67 | every column of the update takes its value; others keep theirs |
| UsersDao.UpdateError | app/daos/users_dao.py:64-68 | refused exactly for empty values (StatementError) or for an address another user holds (unique violation) |
| UsersDao.UpdateKeepsUsersWellFormed | app/models/db_models.py:19 | an accepted update keeps ids keyed and addresses unique |
| UsersDao.Update | app/daos/users_dao.py:64-70 | a refused UPDATE changes nothing; otherwise the user with that id, if any, is updated and re-read |
| Sessions.Session.constructor | app/config/middlewares_config.py:27-31 | the session of a request without a cookie holds nothing |
| CheckSession.SessionUser | app/utils/check_session.py:16-27 | the admitted user exists exactly when the session holds a non-empty address owned by an active user |
| CheckSession.SessionUserIsActiveOwner | app/utils/check_session.py:22-27 | a session holding a user's address admits that user exactly when the address is non-empty and the user active |
| CheckSession.AdmittedData | app/utils/check_session.py:29-31 | the session gains the user's dict, access level and id and keeps every other key |
| CheckSession.AuthRequired | app/utils/check_session.py:14-34 | a session it does not admit gets the 401 and is left unchanged; an admitted one records its user |
| CheckSession.AdmissionIsStable | app/utils/check_session.py:29-31 | what the guard records leaves the next request of the session admitted for the same user |
| CheckSession.ClearedSessionRejected | app/services/auth_srv.py:26 | a session emptied by logout is not admitted |
| UsersService.GetUserInfoFromRequest | app/services/users_srv.py:18-23 | a 200 carrying what the guard recorded under `user_info`, or None |
| UsersService.UnknownUserReplyAsWritten | app/services/users_srv.py:29 | as written: a 400 whose status is the text and whose message is the generic one |
| UsersService.UnknownUserReply | app/services/users_srv.py:29 | corrected: a 400 with status "error" and the message naming the unknown id |
| UsersService.UnknownUserReplyAsWrittenMisplacesText | app/services/users_srv.py:29 | the reply as written is not an "error" status and never shows the id's message |
| UsersService.HashedProfile | app/services/users_srv.py:31-33 | a truthy password is replaced by its digest; every other field, and an empty password, is kept |
| UsersService.DataToUpdate | app/services/users_srv.py:35-36 | exactly the fields that are not None become columns, with their values; the confirmation never does |
| UsersService.ProfileUpdatePassword | app/services/users_srv.py:31-36 | a non-empty password is stored as its digest, an empty one as "", and an empty profile writes nothing |
| UsersService.UpdateUser | app/services/users_srv.py:25-41 | an unknown id gets the 400 with users unchanged; a refused UPDATE escapes unchanged; else the user is updated and returned |
| UsersService.NewPasswordLogsIn | app/services/users_srv.py:31-38 | after an active user sets a non-empty password, login to the account succeeds exactly with that password |
| UsersService.EmptyPasswordLocksOut | app/services/users_srv.py:31-36 | an empty new password is stored unhashed as "", and then no login to that account succeeds |
| Routes.GetUser | app/routers/users_rt.py:15-19 | GET /user: the 401 for a session not admitted; else the admitted user's dict |
| Routes.UpdateProfile | app/routers/users_rt.py:22-27 | PUT /user/profile: the 401 with nothing changed; else the admitted user's own row is updated, or the failure escapes |
| Routes.LoginThenGuardAdmits | app/services/auth_srv.py:74 | after a successful login the guard admits the session, for that user |

## Left out

- Asynchronous execution and concurrency: each operation runs to completion alone. A row deleted between the
  guard and `update_user`, or between two statements of a method, is not modelled.
- Logging: `LOGGER` calls, the `print(len(hourly_logs))` of the uptime graph and the traceback printed by the
  exception handler.
- The FastAPI wiring: routing, dependency injection, and the conversion of the body into the schema types.
  Pydantic's own type errors and missing-field errors are not modelled. The schema validators are
  modelled; the services take already-validated bodies, as they do in the source.
- Exceptions.InvalidRequestError and the PostgreSQL errors carry what their messages name (the table key, the
  relation), not the full text SQLAlchemy or psycopg writes around it. The reply is the generic 500 either way.
- The "Value error, " prefix pydantic puts in front of a field message, and the JSON layout of a
  ValidationError. `Exceptions.FieldErrors` keeps the field names and messages only.
- The croniter check of `cron` in both endpoint bodies: it needs the clock and croniter's parser. Every cron
  text is accepted.
- SHA-512 is the parameter `AuthService.Digest`. Lemmas that need a property of it take it as a hypothesis:
  injective (`DigestInjective`) or never empty (`DigestNeverEmpty`).
- AuthService.DigestInjective: an idealisation. Real SHA-512 has collisions, so the lemmas that assume it
  hold only for the passwords that do not collide.
- `uuid.uuid4()` and the clocks are parameters. `EndpointsService.GetUptimeGraphById` takes the two clock
  readings of the query and of the loop separately.
- EndpointsService.GetUptimeGraphById: both clocks are taken to be in one time zone, as the naive
  `datetime.now()` and the database's `now()` are when server and database share one.
  `EndpointsService.NoDataMeansNoRowInTable` also assumes the query's reading is not later than the loop's.
- The signing and size of the session cookie. Only `login` writes `user_name`, in the model and in the
  source, so `Sessions.SessionWellFormed` takes it to hold a string.
- `users_dao.get_all` and `users_dao.delete`, and `auth_rt.py`, `endpoints_rt.py` and `status_rt.py`: no core
  operation calls them.
- The user and endpoint id sequences run past the `Integer` range only after 2^31 inserts. That overflow is
  not modelled.
- `created_at` of a new row is taken as fetched when `create` returns. `expire_on_commit=False`
  (app/utils/database.py:21) keeps the instance, and the model gives it the database time.
- Text.Repr: characters from U+0100 on are kept as they are. Python escapes those it does not consider
  printable.
- Dafny's `char` has no lone surrogates, so a Python str holding one cannot be represented.
- EndpointsService.GenerateTableName: the cut to 63 characters is modelled on characters, and PostgreSQL
  truncates identifiers at 63 bytes. The two agree on the ASCII names a uuid gives.
- Models.CreateLogTable: PostgreSQL truncates an identifier longer than 63 bytes, and the model creates the
  name as given. The service only passes the 37-character names of `EndpointsService.GenerateTableName`.
- LogTableDao.UnquotedTableName: the 63-byte truncation of identifiers is not modelled. A longer name reads as
  itself, folded. The service's generated names are 37 characters.
- LogTableDao.LookupLogTable: reaches the table named by the whole folded name, with no 63-byte truncation.
- LogTableDao.DropIfExists: drops the table named by the whole folded name, with no 63-byte truncation.
- EndpointsDao.LatestStatus: PostgreSQL picks any of several rows with the same greatest `created_at`, and the
  model fixes one.
- Models.LogRow: `created_at` is taken to be non-null. Its `default=func.now()` (app/models/db_models.py:102) is
  applied by SQLAlchemy on the client, so the log table has no DDL default and a writer outside the core can
  leave it NULL. Such a row would sort first under `ORDER BY created_at DESC` in EndpointsDao.LatestStatus,
  and EndpointsService.GetStatusGraphById and Models.LogRowAsDict would send None for it; the model covers
  neither.
- EndpointsDao.Listing: endpoints with the same `created_at` may come back in any order. The model picks its
  own among them.
- EndpointsDao.GetAllWithLatestLogStatus: the latest-status queries put the stored `log_table` into SQL
  without the sanitizer. The model requires every stored name to pass the sanitizer (`PlainLogTables`), and
  the service keeps that invariant. Endpoints written by other means are not covered.
- LogTableDao.SelectAllFromLogTable: without `ORDER BY` PostgreSQL returns the rows in no promised order.
  The model returns them in insertion order.
- Calendar.FormatTime: years below 1000 are padded to four digits, as `isoformat` pads them. glibc's
  strftime writes them without the leading zeros. Only a clock set before the year 1000 reaches them.

## Findings

| source | as written | input that shows it | evidently intended | confidence | as-written member | corrected member |
|---|---|---|---|---|---|---|
| app/daos/endpoints_dao.py:63-65 | `get_by_id_with_latest_log_status` reads `endpoint.log_table` before anyone checks for None. For an unknown id this raises AttributeError, and the handler answers 500 | GET /endpoints/{id} for any id not in `config.endpoints` | the 404 "Endpoint with ID … does not exist." of app/services/endpoints_srv.py:41-44 | high; not executed | EndpointsService.GetByIdAsWritten | EndpointsService.GetById |
| app/services/users_srv.py:29 | `error(f"User with ID {user_id} does not exist.", status_code=400)` passes the text positionally, so it lands in `status`, and `message` stays the generic support text | `update_user` for an id with no user, such as 7 on an empty users table | status "error" and the text as `message`, as every other 400 of the services | high; not executed | UsersService.UnknownUserReplyAsWritten | UsersService.UnknownUserReply |

The second row is exhibited by `UsersService.UnknownUserReplyAsWrittenMisplacesText`. `UsersService.UpdateUser`
answers with the corrected reply.

/** The Python exceptions that the core raises or lets propagate. */
module Exceptions {

  datatype Exception =
    /** Raised by the validators and by the table-name sanitizer. */
    | ValueError(message: string)
    /** `d[key]` on a missing key. */
    | KeyError(key: string)
    /** `re.match` given None instead of a string. */
    | TypeError(message: string)
    /** An attribute read on None. */
    | AttributeError(message: string)
    /** PostgreSQL 42P01: the statement names a table that does not exist. */
    | UndefinedTable(relation: string)
    /** PostgreSQL 42P07: CREATE TABLE of a name that already exists. */
    | DuplicateTable(relation: string)
    /** PostgreSQL 23505 surfacing as a bare IntegrityError. */
    | UniqueViolation(column: string)
    /** endpoints_dao.DuplicateEndpointError. */
    | DuplicateEndpointError(detail: string)
    /** users_dao.DuplicateUserError. */
    | DuplicateUserError(detail: string)
    /** PostgreSQL 42601: the statement text does not parse. */
    | SyntaxError(near: string)
    /** SQLAlchemy: a second `Table` of the same name in one `MetaData`. Its message is "Table '<table>' is
        already defined for this MetaData instance.  Specify 'extend_existing=True' to redefine options and
        columns on an existing Table object."; the model keeps the table key it names. */
    | InvalidRequestError(table: string)
    /** A parameter that does not fit its column's integer type. */
    | DataError(message: string)
    /** SQLAlchemy: a statement executed without a value for one of its bind parameters. */
    | StatementError(message: string)
    /** `datetime` arithmetic leaving the years 1..9999. */
    | OverflowError(message: string)
    /** A string indexed past its end. */
    | IndexError(message: string)
    /** pydantic: a field of the wrong type or missing. */
    | ValidationError(field: string)
    /** pydantic: the fields whose validators raised ValueError, in field order, each with its message. */
    | FieldErrors(errors: seq<(string, string)>)
}

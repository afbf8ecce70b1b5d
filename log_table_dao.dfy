/** app/daos/log_table_dao.py: the table-name sanitizer and the text-SQL statements on the log schema. */
module LogTableDao {
  import opened Wrappers
  import opened Exceptions
  import opened Text
  import Calendar
  import opened Models

  /** A character of the class `[a-zA-Z0-9_]`. */
  predicate IsNameChar(c: char) {
    IsAsciiLetter(c) || IsDigit(c) || c == '_'
  }

  predicate AllNameChars(s: string) {
    forall i :: 0 <= i < |s| ==> IsNameChar(s[i])
  }

  /** What `re.match(r'^[a-zA-Z0-9_]+$', s)` accepts: the class at least once, then either the end of the text
      or one newline that ends it, since Python's `$` also matches just before a final newline. */
  ghost predicate MatchesNamePattern(s: string) {
    exists k :: 1 <= k <= |s| && AllNameChars(s[..k]) && (k == |s| || (k == |s| - 1 && s[k] == '\n'))
  }

  function StripFinalNewline(s: string): (r: string)
    ensures |s| > 0 && s[|s| - 1] == '\n' ==> r + "\n" == s
    ensures !(|s| > 0 && s[|s| - 1] == '\n') ==> r == s
  {
    if |s| > 0 && s[|s| - 1] == '\n' then s[..|s| - 1] else s
  }

  /** `_sanitize_table_name`: the name itself when it matches the pattern, ValueError otherwise. */
  function SanitizeTableName(name: string): (r: Result<string, Exception>)
    ensures r.Success? ==> r.value == name
    ensures r.Failure? ==> r.error == ValueError("Invalid table name")
  {
    var body := StripFinalNewline(name);
    if |body| > 0 && AllNameChars(body) then Success(name) else Failure(ValueError("Invalid table name"))
  }

  /** The sanitizer decides exactly the regular expression. */
  lemma SanitizeMatchesPattern(name: string)
    ensures SanitizeTableName(name).Success? <==> MatchesNamePattern(name)
  {
    var body := StripFinalNewline(name);
    if MatchesNamePattern(name) {
      var k :| 1 <= k <= |name| && AllNameChars(name[..k]) && (k == |name| || (k == |name| - 1 && name[k] == '\n'));
      if k == |name| {
        assert name[..k] == name;
        assert IsNameChar(name[k - 1]);
      } else {
        assert body == name[..k];
      }
    }
    if SanitizeTableName(name).Success? {
      assert body == name[..|body|];
      assert AllNameChars(name[..|body|]);
    }
  }

  /** A sanitized name holds nothing but the class, save a single final newline: no quote, space, dot or
      semicolon can reach the SQL text. */
  lemma SanitizedCharacters(name: string)
    requires SanitizeTableName(name).Success?
    ensures |name| > 0 && (IsNameChar(name[0]) || (|name| == 1 && name[0] == '\n')) && name != "\n"
    ensures forall i :: 0 <= i < |name| ==> IsNameChar(name[i]) || (i == |name| - 1 && name[i] == '\n')
  {
    var body := StripFinalNewline(name);
    assert forall i :: 0 <= i < |body| ==> name[i] == body[i];
  }

  /** The quirk of `$`: one trailing newline is let through, two are not. */
  lemma SanitizeTrailingNewline(name: string)
    requires SanitizeTableName(name).Success?
    ensures SanitizeTableName(name + "\n").Success? <==> name[|name| - 1] != '\n'
    ensures SanitizeTableName(name + "\n\n").Failure?
  {
    SanitizedCharacters(name);
    assert StripFinalNewline(name + "\n") == name;
    assert StripFinalNewline(name + "\n\n") == name + "\n";
    assert (name + "\n")[|name|] == '\n';
  }

  /** How PostgreSQL reads the unquoted `log.<name>` of a text statement: the trailing newline is blank space,
      letters fold to lower case, and a name that starts with a digit lexes as a number after the dot. Names are
      taken to fit the 63-byte identifier limit; PostgreSQL would truncate a longer one. */
  function UnquotedTableName(name: string): (r: Result<string, Exception>)
    requires SanitizeTableName(name).Success?
    ensures r.Failure? <==> IsDigit(name[0])
    ensures r.Failure? ==> r.error == SyntaxError(StripFinalNewline(name))
    ensures r.Success? ==> |r.value| == |StripFinalNewline(name)| && AllNameChars(r.value)
    ensures r.Success? ==> forall i :: 0 <= i < |r.value| ==>
                             !IsAsciiUpper(r.value[i]) && LowerChar(name[i]) == r.value[i]
  {
    SanitizedCharacters(name);
    var body := StripFinalNewline(name);
    assert body[0] == name[0];
    if IsDigit(body[0]) then Failure(SyntaxError(body))
    else
      var folded := Lower(body);
      assert forall i :: 0 <= i < |body| ==> body[i] == name[i] && IsNameChar(folded[i]);
      Success(folded)
  }

  /** A name already in lower case, without the newline and not starting with a digit reads as itself. */
  lemma UnquotedTableNameIdentity(name: string)
    requires SanitizeTableName(name).Success? && !IsDigit(name[0]) && name[|name| - 1] != '\n'
    requires forall i :: 0 <= i < |name| ==> !IsAsciiUpper(name[i])
    ensures UnquotedTableName(name) == Success(name)
  {
    LowerOfLowerCase(name);
  }

  lemma LowerCharKeeps(c: char)
    ensures LowerChar(c) == '\n' <==> c == '\n'
    ensures IsDigit(LowerChar(c)) <==> IsDigit(c)
  {
  }

  /** Two names that differ only in the case of their letters name the same table. */
  lemma UnquotedTableNameFoldsCase(a: string, b: string)
    requires SanitizeTableName(a).Success? && SanitizeTableName(b).Success?
    requires |a| == |b| && forall i :: 0 <= i < |a| ==> LowerChar(a[i]) == LowerChar(b[i])
    ensures UnquotedTableName(a).Success? <==> UnquotedTableName(b).Success?
    ensures UnquotedTableName(a).Success? ==> UnquotedTableName(a).value == UnquotedTableName(b).value
  {
    LowerCharKeeps(a[0]);
    LowerCharKeeps(b[0]);
    LowerCharKeeps(a[|a| - 1]);
    LowerCharKeeps(b[|b| - 1]);
    var ba, bb := StripFinalNewline(a), StripFinalNewline(b);
    assert |ba| == |bb|;
    if UnquotedTableName(a).Success? {
      assert forall i :: 0 <= i < |ba| ==> ba[i] == a[i] && bb[i] == b[i];
      assert Lower(ba) == Lower(bb);
    }
  }

  /** The table a text statement on `log.<name>` reaches, or the error PostgreSQL raises. */
  function LookupLogTable(tables: map<string, seq<LogRow>>, name: string): (r: Result<seq<LogRow>, Exception>)
    requires SanitizeTableName(name).Success?
    ensures r.Success? <==> UnquotedTableName(name).Success? && UnquotedTableName(name).value in tables
    ensures r.Success? ==> r.value == tables[UnquotedTableName(name).value]
    ensures UnquotedTableName(name).Success? && r.Failure? ==>
              r.error == UndefinedTable("log." + UnquotedTableName(name).value)
  {
    match UnquotedTableName(name)
    case Failure(e) => Failure(e)
    case Success(target) =>
      if target in tables then Success(tables[target]) else Failure(UndefinedTable("log." + target))
  }

  /** `DROP TABLE IF EXISTS log.<name>` on the table map. */
  function DropIfExists(tables: map<string, seq<LogRow>>, name: string): (r: Result<map<string, seq<LogRow>>, Exception>)
    ensures SanitizeTableName(name).Failure? ==> r == Failure(ValueError("Invalid table name"))
    ensures SanitizeTableName(name).Success? ==>
              (r.Failure? <==> UnquotedTableName(name).Failure?)
              && (r.Failure? ==> r.error == UnquotedTableName(name).error)
    ensures r.Success? ==> var target := UnquotedTableName(name).value;
              && target !in r.value
              && r.value.Keys == tables.Keys - {target}
              && forall t :: t in r.value ==> r.value[t] == tables[t]
  {
    match SanitizeTableName(name)
    case Failure(e) => Failure(e)
    case Success(_) =>
      match UnquotedTableName(name)
      case Failure(e) => Failure(e)
      case Success(target) => Success(tables - {target})
  }

  /** Dropping twice is dropping once: the second drop finds nothing and is no error. */
  lemma DropIdempotent(tables: map<string, seq<LogRow>>, name: string)
    requires DropIfExists(tables, name).Success?
    ensures DropIfExists(DropIfExists(tables, name).value, name) == DropIfExists(tables, name)
  {
    var once := DropIfExists(tables, name).value;
    var twice := DropIfExists(once, name).value;
    assert twice.Keys == once.Keys;
    assert twice == once;
  }

  /** Dropping an absent table leaves the tables as they are. */
  lemma DropAbsentIsNoOp(tables: map<string, seq<LogRow>>, name: string)
    requires SanitizeTableName(name).Success? && UnquotedTableName(name).Success?
    requires UnquotedTableName(name).value !in tables
    ensures DropIfExists(tables, name) == Success(tables)
  {
    var r := DropIfExists(tables, name).value;
    assert r.Keys == tables.Keys;
    assert r == tables;
  }

  /** `delete_log_table`: the drop, committed. A failed statement is rolled back and re-raised. */
  method DeleteLogTable(db: Database, name: string) returns (r: Outcome<Exception>)
    requires db.Valid()
    modifies db
    ensures db.Valid()
    ensures db.endpoints == old(db.endpoints) && db.users == old(db.users) && db.metadataTables == old(db.metadataTables)
    ensures db.endpointSerial == old(db.endpointSerial) && db.userSerial == old(db.userSerial)
    ensures match DropIfExists(old(db.logTables), name)
            case Success(tables) => r == Pass && db.logTables == tables
            case Failure(e) => r == Fail(e) && db.logTables == old(db.logTables)
  {
    match DropIfExists(db.logTables, name)
    case Failure(e) =>
      return Fail(e);
    case Success(tables) =>
      db.logTables := tables;
      return Pass;
  }

  /** `select_all_from_log_table`: every row of the table. Without ORDER BY PostgreSQL returns them in no set
      order; the model returns them in the order they were written. */
  function SelectAllFromLogTable(tables: map<string, seq<LogRow>>, name: string): (r: Result<seq<LogRow>, Exception>)
    ensures SanitizeTableName(name).Failure? ==> r == Failure(ValueError("Invalid table name"))
    ensures SanitizeTableName(name).Success? ==> r == LookupLogTable(tables, name)
    ensures r.Success? <==> && SanitizeTableName(name).Success? && !IsDigit(name[0])
                            && Lower(StripFinalNewline(name)) in tables
    ensures SanitizeTableName(name).Success? && IsDigit(name[0]) ==>
              r == Failure(SyntaxError(StripFinalNewline(name)))
    ensures SanitizeTableName(name).Success? && !IsDigit(name[0]) && Lower(StripFinalNewline(name)) !in tables ==>
              r == Failure(UndefinedTable("log." + Lower(StripFinalNewline(name))))
    ensures r.Success? ==> var target := Lower(StripFinalNewline(name));
              && SanitizeTableName(name).Success? && !IsDigit(name[0])
              && target in tables && multiset(r.value) == multiset(tables[target])
  {
    match SanitizeTableName(name)
    case Failure(e) => Failure(e)
    case Success(_) => LookupLogTable(tables, name)
  }

  /** The rows created at or after the bound, in their order. */
  function RowsSince(rows: seq<LogRow>, bound: int): (r: seq<LogRow>)
    ensures |r| <= |rows|
    ensures forall x :: x in r <==> x in rows && x.createdAt >= bound
    ensures forall x :: multiset(r)[x] == if x.createdAt >= bound then multiset(rows)[x] else 0
  {
    if rows == [] then []
    else
      var rest := RowsSince(rows[1..], bound);
      assert rows == [rows[0]] + rows[1..];
      if rows[0].createdAt >= bound then [rows[0]] + rest else rest
  }

  /** The instant the WHERE clause of `select_logs_from_last_hours` compares with: the cutoff truncated to
      its second, since it is written into the SQL with strftime("%Y-%m-%d %H:%M:%S"). */
  function SinceBound(cutoff: int): int {
    cutoff / Calendar.MicrosPerSecond * Calendar.MicrosPerSecond
  }

  /** `datetime.now() - timedelta(hours=hours)`. */
  function Cutoff(now: int, hours: int): int {
    now - hours * Calendar.MicrosPerHour
  }

  /** The cutoff as the statement carries it: written with strftime and read back by PostgreSQL. */
  function WrittenCutoff(cutoff: int): (bound: int)
    requires Calendar.IsDatetime(cutoff)
    ensures bound == SinceBound(cutoff)
  {
    Calendar.FormatTimeTruncates(cutoff);
    Calendar.ParseTime(Calendar.FormatTime(cutoff))
  }

  /** `select_logs_from_last_hours(name, hours)` when the clock reads `now`. */
  function SelectLogsFromLastHours(tables: map<string, seq<LogRow>>, name: string, hours: int, now: int)
    : (r: Result<seq<LogRow>, Exception>)
    ensures SanitizeTableName(name).Failure? ==> r == Failure(ValueError("Invalid table name"))
    ensures SanitizeTableName(name).Success? && !Calendar.IsDatetime(Cutoff(now, hours)) ==>
              r == Failure(OverflowError("date value out of range"))
    ensures SanitizeTableName(name).Success? && Calendar.IsDatetime(Cutoff(now, hours)) ==>
              match LookupLogTable(tables, name)
              case Failure(e) => r == Failure(e)
              case Success(rows) => r == Success(RowsSince(rows, SinceBound(Cutoff(now, hours))))
  {
    match SanitizeTableName(name)
    case Failure(e) => Failure(e)
    case Success(_) =>
      var cutoff := Cutoff(now, hours);
      if !Calendar.IsDatetime(cutoff) then Failure(OverflowError("date value out of range"))
      else
        var bound := WrittenCutoff(cutoff);
        match LookupLogTable(tables, name)
        case Failure(e) => Failure(e)
        case Success(rows) => Success(RowsSince(rows, bound))
  }

  /** Because the cutoff loses its microseconds, every row written at or after `now - hours` is returned, and
      so are rows up to one second older, but nothing older. */
  lemma SinceCoversCutoff(tables: map<string, seq<LogRow>>, name: string, hours: int, now: int)
    requires SelectLogsFromLastHours(tables, name, hours, now).Success?
    ensures SanitizeTableName(name).Success? && LookupLogTable(tables, name).Success?
    ensures var cutoff := Cutoff(now, hours);
            var r := SelectLogsFromLastHours(tables, name, hours, now).value;
            var rows := LookupLogTable(tables, name).value;
            && (forall x :: x in rows && x.createdAt >= cutoff ==> x in r)
            && (forall x :: x in r ==> x in rows && x.createdAt > cutoff - Calendar.MicrosPerSecond)
  {
  }
}

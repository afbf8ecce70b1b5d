/** Naive `datetime` values as microseconds counted from 1970-01-01 00:00:00 on the proleptic Gregorian
    calendar. Arithmetic with `timedelta` on naive datetimes is plain addition on this count, so the only
    calendar work is rendering: `strftime("%Y-%m-%d %H:%M:%S")` and `isoformat()`, and reading a rendered
    text back the way PostgreSQL reads a timestamp literal. */
module Calendar {
  import Text

  const SecondsPerMinute: int := 60
  const SecondsPerHour: int := 3600
  const SecondsPerDay: int := 86400

  datatype Date = Date(year: int, month: nat, day: nat)

  /* H. Hinnant's `civil_from_days` and `days_from_civil`. Years are counted from March inside 400-year
     eras of 146097 days, so that the leap day is the last day of a year. Euclidean division by a
     positive constant is floor division, as the algorithms need. */

  /** Day of the era on which year `yoe` of the era starts. */
  function StartOfYear(yoe: int): int
  {
    365 * yoe + yoe / 4 - yoe / 100
  }

  /** Day of the March-based year on which month `mp` (0 = March) starts. */
  function MonthStart(mp: int): int
  {
    (153 * mp + 2) / 5
  }

  /** The year of the era holding day `doe` of the era. */
  function YearOfEra(doe: int): (yoe: int)
    requires 0 <= doe < 146097
    ensures 0 <= yoe < 400 && StartOfYear(yoe) <= doe <= StartOfYear(yoe) + 365
  {
    var yoe := (doe - doe / 1460 + doe / 36524 - doe / 146096) / 365;
    YearOfEraBounds(doe, yoe);
    yoe
  }

  lemma YearOfEraBounds(doe: int, yoe: int)
    requires 0 <= doe < 146097
    requires yoe == (doe - doe / 1460 + doe / 36524 - doe / 146096) / 365
    ensures 0 <= yoe < 400 && 0 <= doe - StartOfYear(yoe) <= 365
  {
    if doe == 146096 {
      assert yoe == 399;
    } else {
      var c := doe / 36524;
      var e := doe % 36524;
      var q := e / 1461;
      var f := e % 1461;
      var r := if f / 365 < 3 then f / 365 else 3;
      CycleYear(doe, c, q, r, f - 365 * r);
    }
  }

  /** Day `doe` of an era, as century c, four-year cycle q, year r of the cycle and day d of the year. */
  lemma CycleYear(doe: int, c: int, q: int, r: int, d: int)
    requires 0 <= c <= 3 && 0 <= q <= 24 && 0 <= r <= 3 && 0 <= d && (r < 3 ==> d < 365) && d <= 365
    requires 1461 * q + 365 * r + d < 36524
    requires doe == 36524 * c + 1461 * q + 365 * r + d
    ensures (doe - doe / 1460 + doe / 36524 - doe / 146096) / 365 == 100 * c + 4 * q + r
    ensures doe - StartOfYear(100 * c + 4 * q + r) == d
  {
    var t := 24 * c + q + 365 * r + d;
    var carry := t / 1460;
    assert doe / 1460 == 25 * c + q + carry;
    assert doe / 36524 == c && doe / 146096 == 0;
    assert carry == 1 ==> 1 <= d;
    assert carry == 0 ==> d <= 364;
    var y := 100 * c + 4 * q + r;
    assert doe - doe / 1460 + doe / 36524 - doe / 146096 == 365 * y + d - carry;
    assert y / 4 == 25 * c + q && y / 100 == c;
  }

  /** The March-based month holding day `doy` of the year, and the day of that month. */
  function MonthOfYear(doy: int): (md: (int, int))
    requires 0 <= doy <= 365
    ensures 0 <= md.0 < 12 && 1 <= md.1 <= 31 && MonthStart(md.0) + md.1 - 1 == doy
  {
    var mp := (5 * doy + 2) / 153;
    (mp, doy - MonthStart(mp) + 1)
  }

  /** January is 1; the March-based month 0 is March. */
  function CivilMonth(mp: int): int
  {
    if mp < 10 then mp + 3 else mp - 9
  }

  function MarchMonth(month: int): int
  {
    if month > 2 then month - 3 else month + 9
  }

  /** The civil date of a day number (days since 1970-01-01). */
  function CivilFromDays(days: int): (d: Date)
    ensures 1 <= d.month <= 12 && 1 <= d.day <= 31
  {
    var z := days + 719468;
    var era := z / 146097;
    var yoe := YearOfEra(z - era * 146097);
    var md := MonthOfYear(z - era * 146097 - StartOfYear(yoe));
    var month := CivilMonth(md.0);
    Date(if month <= 2 then era * 400 + yoe + 1 else era * 400 + yoe, month, md.1)
  }

  /** The day number of a civil date. */
  function DaysFromCivil(d: Date): int
  {
    var y := if d.month <= 2 then d.year - 1 else d.year;
    var era := y / 400;
    var yoe := y - era * 400;
    era * 146097 + StartOfYear(yoe) + MonthStart(MarchMonth(d.month)) + d.day - 1 - 719468
  }

  /** A day number survives the trip to a civil date and back. */
  lemma CivilRoundTrip(days: int)
    ensures DaysFromCivil(CivilFromDays(days)) == days
  {
    var z := days + 719468;
    var era := z / 146097;
    var doe := z - era * 146097;
    var yoe := YearOfEra(doe);
    var md := MonthOfYear(doe - StartOfYear(yoe));
    var month := CivilMonth(md.0);
    CivilFromDaysParts(days, era, yoe, md);
    DaysOfCivil(era, yoe, md.0, md.1);
  }

  /** CivilFromDays with its intermediate values named. */
  lemma CivilFromDaysParts(days: int, era: int, yoe: int, md: (int, int))
    requires era == (days + 719468) / 146097
    requires 0 <= days + 719468 - era * 146097 < 146097
    requires yoe == YearOfEra(days + 719468 - era * 146097)
    requires 0 <= days + 719468 - era * 146097 - StartOfYear(yoe) <= 365
    requires md == MonthOfYear(days + 719468 - era * 146097 - StartOfYear(yoe))
    ensures var month := CivilMonth(md.0);
      CivilFromDays(days) == Date(if month <= 2 then era * 400 + yoe + 1 else era * 400 + yoe, month, md.1)
  {
  }

  /** The day number of the date a day of an era names. */
  lemma DaysOfCivil(era: int, yoe: int, mp: int, day: nat)
    requires 0 <= yoe < 400 && 0 <= mp < 12
    ensures var month := CivilMonth(mp);
      DaysFromCivil(Date(if month <= 2 then era * 400 + yoe + 1 else era * 400 + yoe, month, day))
      == era * 146097 + StartOfYear(yoe) + MonthStart(mp) + day - 1 - 719468
  {
    CivilMonthRoundTrip(mp);
    EraRoundTrip(era, yoe);
  }

  lemma CivilMonthRoundTrip(mp: int)
    requires 0 <= mp < 12
    ensures 1 <= CivilMonth(mp) <= 12 && MarchMonth(CivilMonth(mp)) == mp
    ensures CivilMonth(mp) <= 2 <==> mp >= 10
  {
  }

  lemma EraRoundTrip(era: int, yoe: int)
    requires 0 <= yoe < 400
    ensures (era * 400 + yoe) / 400 == era
  {
  }

  /** The broken-down fields of a timestamp. */
  datatype Fields = Fields(date: Date, hour: nat, minute: nat, second: nat)

  function FieldsOf(t: int): (f: Fields)
    ensures f.hour < 24 && f.minute < 60 && f.second < 60
    ensures DaysFromCivil(f.date) * SecondsPerDay + f.hour * SecondsPerHour + f.minute * SecondsPerMinute + f.second == t
  {
    var days := t / SecondsPerDay;
    var secs := t % SecondsPerDay;
    var date := CivilFromDays(days);
    CivilRoundTrip(days);
    SplitSeconds(secs);
    Fields(date, secs / SecondsPerHour, secs % SecondsPerHour / SecondsPerMinute, secs % SecondsPerMinute)
  }

  lemma SplitSeconds(secs: int)
    requires 0 <= secs < SecondsPerDay
    ensures secs / SecondsPerHour < 24
    ensures secs / SecondsPerHour * SecondsPerHour + secs % SecondsPerHour / SecondsPerMinute * SecondsPerMinute
            + secs % SecondsPerMinute == secs
  {
  }

  /** `%Y` and isoformat's year: at least four digits (a minus sign before years below 0). */
  function YearText(year: int): string
  {
    if year < 0 then "-" + Text.PadZero(-year, 4) else Text.PadZero(year, 4)
  }

  /** Date and time of day joined by `sep`. */
  function Render(t: int, sep: char): string
  {
    RenderFields(FieldsOf(t), sep)
  }

  function RenderFields(f: Fields, sep: char): string
  {
    DateText(f.date) + [sep] + TimeText(f)
  }

  /** "YYYY-MM-DD" */
  function DateText(d: Date): string
  {
    YearText(d.year) + "-" + Text.PadZero(d.month, 2) + "-" + Text.PadZero(d.day, 2)
  }

  /** "HH:MM:SS" */
  function TimeText(f: Fields): string
  {
    Text.PadZero(f.hour, 2) + ":" + Text.PadZero(f.minute, 2) + ":" + Text.PadZero(f.second, 2)
  }

  /** Microseconds: the resolution of `datetime` and of PostgreSQL's TIMESTAMP. A timestamp of the
      model is a count of microseconds since 1970-01-01 00:00:00. */
  const MicrosPerSecond: int := 1000000
  const MicrosPerHour: int := 3600 * MicrosPerSecond

  /** `strftime("%Y-%m-%d %H:%M:%S")`: the microseconds are not printed. */
  function FormatTime(t: int): string
  {
    Render(t / MicrosPerSecond, ' ')
  }

  /** `isoformat()`: "YYYY-MM-DDTHH:MM:SS", followed by ".ffffff" when the microseconds are not zero. */
  function IsoFormat(t: int): string
  {
    Render(t / MicrosPerSecond, 'T') + FractionText(t % MicrosPerSecond)
  }

  function FractionText(us: nat): string
  {
    if us == 0 then "" else "." + Text.PadZero(us, 6)
  }

  /** `datetime` holds the years 1..9999 (MINYEAR and MAXYEAR); arithmetic leaving them overflows. */
  predicate IsDatetime(t: int) {
    1 <= FieldsOf(t / MicrosPerSecond).date.year <= 9999
  }

  /** The first 19 characters have digits wherever "YYYY-MM-DD?HH:MM:SS" has digits. */
  predicate DigitLayout(s: string) {
    |s| >= 19 && forall i :: 0 <= i < 19 && i != 4 && i != 7 && i != 10 && i != 13 && i != 16 ==> Text.IsDigit(s[i])
  }

  /** The layout "YYYY-MM-DD?HH:MM:SS" read back into a count of seconds. */
  function ParseSeconds(s: string): int
    requires DigitLayout(s)
  {
    var date := Date(Text.DigitsValue(s[0..4]), Text.DigitsValue(s[5..7]), Text.DigitsValue(s[8..10]));
    DaysFromCivil(date) * SecondsPerDay + Text.DigitsValue(s[11..13]) * SecondsPerHour
      + Text.DigitsValue(s[14..16]) * SecondsPerMinute + Text.DigitsValue(s[17..19])
  }

  /** What PostgreSQL makes of the literal '<YYYY-MM-DD HH:MM:SS>' compared with a TIMESTAMP column. */
  function ParseTime(s: string): int
    requires DigitLayout(s)
  {
    ParseSeconds(s) * MicrosPerSecond
  }

  /** The isoformat layout: 19 characters, optionally followed by "." and six digits. */
  predicate IsoLayout(s: string) {
    DigitLayout(s)
    && (|s| == 19 || (|s| == 26 && s[19] == '.' && forall i :: 20 <= i < 26 ==> Text.IsDigit(s[i])))
  }

  /** An isoformat text read back into a timestamp. */
  function ParseIso(s: string): int
    requires IsoLayout(s)
  {
    ParseSeconds(s) * MicrosPerSecond + if |s| == 19 then 0 else Text.DigitsValue(s[20..26])
  }

  /** In years 0..9999 the rendering has the fixed layout "YYYY-MM-DD?HH:MM:SS" and reads back to t. */
  lemma RenderRoundTrip(t: int, sep: char)
    requires 0 <= FieldsOf(t).date.year <= 9999
    ensures var s := Render(t, sep);
      && |s| == 19 && s[4] == '-' && s[7] == '-' && s[10] == sep && s[13] == ':' && s[16] == ':'
      && DigitLayout(s) && ParseSeconds(s) == t
  {
    var f := FieldsOf(t);
    RenderFieldsLayout(f, sep);
  }

  /** `strftime` keeps whole seconds: reading the text back gives t truncated to its second. */
  lemma FormatTimeTruncates(t: int)
    requires IsDatetime(t)
    ensures var s := FormatTime(t);
      && |s| == 19 && s[4] == '-' && s[7] == '-' && s[10] == ' ' && s[13] == ':' && s[16] == ':'
      && DigitLayout(s)
      && ParseTime(s) == t / MicrosPerSecond * MicrosPerSecond
      && ParseTime(s) <= t < ParseTime(s) + MicrosPerSecond
  {
    RenderRoundTrip(t / MicrosPerSecond, ' ');
  }

  /** `isoformat` loses nothing: its text reads back to the same timestamp. */
  lemma IsoRoundTrip(t: int)
    requires IsDatetime(t)
    ensures IsoLayout(IsoFormat(t)) && ParseIso(IsoFormat(t)) == t
  {
    var secs, us := t / MicrosPerSecond, t % MicrosPerSecond;
    RenderRoundTrip(secs, 'T');
    FractionLayout(us);
    IsoPieces(Render(secs, 'T'), FractionText(us), us);
  }

  /** A rendered date and time followed by a fraction text read back to the seconds and microseconds. */
  lemma IsoPieces(r: string, fraction: string, us: nat)
    requires |r| == 19 && DigitLayout(r)
    requires us == 0 ==> fraction == ""
    requires us != 0 ==> |fraction| == 7 && fraction[0] == '.' && (forall i :: 1 <= i < 7 ==> Text.IsDigit(fraction[i]))
                         && Text.DigitsValue(fraction[1..]) == us
    ensures IsoLayout(r + fraction) && ParseIso(r + fraction) == ParseSeconds(r) * MicrosPerSecond + us
  {
    var s := r + fraction;
    ParseSecondsPrefix(r, fraction);
    if us != 0 {
      assert s[20..26] == fraction[1..];
      forall i | 20 <= i < 26
        ensures Text.IsDigit(s[i])
      {
        assert s[i] == fraction[i - 19];
      }
    } else {
      assert s == r;
    }
  }

  /** The fraction is empty for zero microseconds, otherwise "." and six digits reading back to them. */
  lemma FractionLayout(us: nat)
    requires us < MicrosPerSecond
    ensures var f := FractionText(us);
      && (us == 0 ==> f == "")
      && (us != 0 ==> |f| == 7 && f[0] == '.' && (forall i :: 1 <= i < 7 ==> Text.IsDigit(f[i]))
                      && Text.DigitsValue(f[1..]) == us)
  {
    if us != 0 {
      assert Pow10(6) == 1000000;
      SmallNatDigits(us, 6);
      var f := FractionText(us);
      assert f[1..] == Text.PadZero(us, 6);
    }
  }

  /** ParseSeconds reads only the first 19 characters. */
  lemma ParseSecondsPrefix(r: string, tail: string)
    requires |r| == 19 && DigitLayout(r)
    ensures DigitLayout(r + tail) && ParseSeconds(r + tail) == ParseSeconds(r)
  {
    var s := r + tail;
    assert s[0..4] == r[0..4] && s[5..7] == r[5..7] && s[8..10] == r[8..10];
    assert s[11..13] == r[11..13] && s[14..16] == r[14..16] && s[17..19] == r[17..19];
  }

  /** The layout of rendered fields, and what ParseSeconds reads from it. */
  lemma RenderFieldsLayout(f: Fields, sep: char)
    requires 0 <= f.date.year <= 9999 && 1 <= f.date.month <= 12 && 1 <= f.date.day <= 31
    requires f.hour < 24 && f.minute < 60 && f.second < 60
    ensures var s := RenderFields(f, sep);
      && |s| == 19 && s[4] == '-' && s[7] == '-' && s[10] == sep && s[13] == ':' && s[16] == ':'
      && DigitLayout(s)
      && ParseSeconds(s) == DaysFromCivil(f.date) * SecondsPerDay + f.hour * SecondsPerHour
                         + f.minute * SecondsPerMinute + f.second
  {
    PadPiece(f.date.year, 4);
    PadPiece(f.date.month, 2);
    PadPiece(f.date.day, 2);
    PadPiece(f.hour, 2);
    PadPiece(f.minute, 2);
    PadPiece(f.second, 2);
    var y, mo, d := Text.PadZero(f.date.year, 4), Text.PadZero(f.date.month, 2), Text.PadZero(f.date.day, 2);
    var h, mi, se := Text.PadZero(f.hour, 2), Text.PadZero(f.minute, 2), Text.PadZero(f.second, 2);
    var s := RenderFields(f, sep);
    assert DateText(f.date) == y + "-" + mo + "-" + d;
    assert s == y + "-" + mo + "-" + d + [sep] + h + ":" + mi + ":" + se;
    PiecesLayout(s, y, mo, d, sep, h, mi, se);
  }

  /** A number below 10^k padded to k places is k digits that read back to it. */
  lemma PadPiece(n: nat, k: nat)
    requires k >= 1 && n < Pow10(k)
    ensures |Text.PadZero(n, k)| == k && AllDigits(Text.PadZero(n, k)) && Text.DigitsValue(Text.PadZero(n, k)) == n
  {
    SmallNatDigits(n, k);
  }

  predicate AllDigits(s: string) {
    forall i :: 0 <= i < |s| ==> Text.IsDigit(s[i])
  }

  /** Digit pieces joined by the separators give the layout ParseSeconds reads, and it reads the pieces. */
  lemma PiecesLayout(s: string, y: string, mo: string, d: string, sep: char, h: string, mi: string, se: string)
    requires |y| == 4 && |mo| == 2 && |d| == 2 && |h| == 2 && |mi| == 2 && |se| == 2
    requires AllDigits(y) && AllDigits(mo) && AllDigits(d) && AllDigits(h) && AllDigits(mi) && AllDigits(se)
    requires s == y + "-" + mo + "-" + d + [sep] + h + ":" + mi + ":" + se
    ensures |s| == 19 && s[4] == '-' && s[7] == '-' && s[10] == sep && s[13] == ':' && s[16] == ':'
    ensures DigitLayout(s)
    ensures s[0..4] == y && s[5..7] == mo && s[8..10] == d && s[11..13] == h && s[14..16] == mi && s[17..19] == se
  {
    Layout(y, mo, d, sep, h, mi, se);
    assert s[0..4] == [s[0], s[1], s[2], s[3]] && y == [y[0], y[1], y[2], y[3]];
    assert s[5..7] == [s[5], s[6]] && mo == [mo[0], mo[1]];
    assert s[8..10] == [s[8], s[9]] && d == [d[0], d[1]];
    assert s[11..13] == [s[11], s[12]] && h == [h[0], h[1]];
    assert s[14..16] == [s[14], s[15]] && mi == [mi[0], mi[1]];
    assert s[17..19] == [s[17], s[18]] && se == [se[0], se[1]];
    forall i | 0 <= i < 19 && i != 4 && i != 7 && i != 10 && i != 13 && i != 16
      ensures Text.IsDigit(s[i])
    {
      if i < 4 { assert s[i] == s[0..4][i]; }
      else if i < 7 { assert s[i] == s[5..7][i - 5]; }
      else if i < 10 { assert s[i] == s[8..10][i - 8]; }
      else if i < 13 { assert s[i] == s[11..13][i - 11]; }
      else if i < 16 { assert s[i] == s[14..16][i - 14]; }
      else { assert s[i] == s[17..19][i - 17]; }
    }
  }

  /** Where each character of a rendered timestamp comes from. */
  lemma Layout(y: string, mo: string, d: string, sep: char, h: string, mi: string, se: string)
    requires |y| == 4 && |mo| == 2 && |d| == 2 && |h| == 2 && |mi| == 2 && |se| == 2
    ensures var s := y + "-" + mo + "-" + d + [sep] + h + ":" + mi + ":" + se;
      && |s| == 19 && s[4] == '-' && s[7] == '-' && s[10] == sep && s[13] == ':' && s[16] == ':'
      && s[0] == y[0] && s[1] == y[1] && s[2] == y[2] && s[3] == y[3] && s[5] == mo[0] && s[6] == mo[1]
      && s[8] == d[0] && s[9] == d[1] && s[11] == h[0] && s[12] == h[1] && s[14] == mi[0] && s[15] == mi[1]
      && s[17] == se[0] && s[18] == se[1]
  {
  }

  /** A number below 10^k has at most k digits. */
  lemma {:induction false} SmallNatDigits(n: nat, k: nat)
    requires k >= 1 && n < Pow10(k)
    ensures |Text.NatToString(n)| <= k
  {
    if n >= 10 {
      assert k >= 2;
      SmallNatDigits(n / 10, k - 1);
    }
  }

  function Pow10(k: nat): nat
  {
    if k == 0 then 1 else 10 * Pow10(k - 1)
  }

  /** 1704070800 seconds after the epoch is 2024-01-01 01:00:00. */
  lemma FormatExample(t: int)
    requires t / MicrosPerSecond == 1704070800
    ensures FormatTime(t) == "2024-01-01 01:00:00"
    ensures t % MicrosPerSecond == 500000 ==> IsoFormat(t) == "2024-01-01T01:00:00.500000"
  {
    var secs := t / MicrosPerSecond;
    FieldsExample(secs);
    var f := Fields(Date(2024, 1, 1), 1, 0, 0);
    TextExample();
    FractionExample();
    var dt, tt := DateText(f.date), TimeText(f);
    assert FormatTime(t) == dt + " " + tt;
    JoinExample(dt, tt);
    if t % MicrosPerSecond == 500000 {
      assert IsoFormat(t) == dt + "T" + tt + ".500000";
    }
  }

  lemma JoinExample(dt: string, tt: string)
    requires dt == "2024-01-01" && tt == "01:00:00"
    ensures dt + " " + tt == "2024-01-01 01:00:00"
    ensures dt + "T" + tt + ".500000" == "2024-01-01T01:00:00.500000"
  {
  }

  lemma TextExample()
    ensures DateText(Date(2024, 1, 1)) == "2024-01-01"
    ensures TimeText(Fields(Date(2024, 1, 1), 1, 0, 0)) == "01:00:00"
  {
    assert Text.PadZero(2024, 4) == "2024";
    assert Text.PadZero(1, 2) == "01";
    assert Text.PadZero(0, 2) == "00";
  }

  lemma FieldsExample(secs: int)
    requires secs == 1704070800
    ensures FieldsOf(secs) == Fields(Date(2024, 1, 1), 1, 0, 0)
  {
    var z := 19723 + 719468;
    assert z / 146097 == 5;
    var doe := z - 5 * 146097;
    assert doe == 8706;
    assert YearOfEra(doe) == 23;
    assert StartOfYear(23) == 8400;
    assert MonthOfYear(306) == (10, 1);
    assert CivilFromDays(19723) == Date(2024, 1, 1);
    assert secs / SecondsPerDay == 19723 && secs % SecondsPerDay == 3600;
  }

  lemma FractionExample()
    ensures FractionText(500000) == ".500000"
  {
    assert Text.NatToString(5) == "5";
    assert Text.NatToString(50) == "50";
    assert Text.NatToString(500) == "500";
    assert Text.NatToString(5000) == "5000";
    assert Text.NatToString(50000) == "50000";
    assert Text.NatToString(500000) == "500000";
  }
}

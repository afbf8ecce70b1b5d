/** The hourly uptime graph of `get_uptime_graph_by_id` (app/services/endpoints_srv.py): the window of the last
    hours before the clock reading is cut into hour-long slots, and each slot shows the first failing log row
    fetched in it, else its newest row, else a "nodata" record. */
module UptimeGraph {
  import opened Wrappers
  import opened Json
  import opened Models
  import Calendar

  /** The number of hours the graph covers. */
  const GraphHours: nat := 72

  const NoDataStatus: string := "nodata"
  const NoDataDetails: string := "No logs for this hour"

  /** One slot of the graph: a log row, or the "nodata" record labelled with the slot's start. */
  datatype HourlyEntry = Logged(row: LogRow) | NoData(hour: string)

  /** `log['status'] != 'ok'`: a NULL status counts as a failure too. */
  predicate IsFailing(x: LogRow) {
    x.status != Some("ok")
  }

  /** `end_time - timedelta(hours=hours)`. */
  function WindowStart(endTime: int, hours: int): int {
    endTime - hours * Calendar.MicrosPerHour
  }

  /** `current_hour_start` of slot k. */
  function HourStart(endTime: int, hours: int, k: int): int {
    WindowStart(endTime, hours) + k * Calendar.MicrosPerHour
  }

  /** `next_hour_start` of slot k: one hour later, clipped to the end of the window. */
  function HourEnd(endTime: int, hours: int, k: int): int {
    var next := HourStart(endTime, hours, k) + Calendar.MicrosPerHour;
    if next > endTime then endTime else next
  }

  /** The row falls in slot k: `current_hour_start <= created_at < next_hour_start`. */
  predicate InHour(x: LogRow, endTime: int, hours: int, k: int) {
    HourStart(endTime, hours, k) <= x.createdAt < HourEnd(endTime, hours, k)
  }

  /** The rows created in [lo, hi), in the order they were fetched. */
  function RowsIn(logs: seq<LogRow>, lo: int, hi: int): (r: seq<LogRow>)
    ensures |r| <= |logs|
    ensures forall x :: x in r <==> x in logs && lo <= x.createdAt < hi
  {
    if logs == [] then []
    else
      var rest := RowsIn(logs[1..], lo, hi);
      assert logs == [logs[0]] + logs[1..];
      if lo <= logs[0].createdAt < hi then [logs[0]] + rest else rest
  }

  /** `next(log for log in rows if log['status'] != 'ok')`, as the position of that row. */
  function FirstFailureIndex(rows: seq<LogRow>): (r: Option<nat>)
    ensures r.None? <==> forall j :: 0 <= j < |rows| ==> !IsFailing(rows[j])
    ensures r.Some? ==> r.value < |rows| && IsFailing(rows[r.value])
                        && forall j :: 0 <= j < r.value ==> !IsFailing(rows[j])
  {
    if rows == [] then None
    else if IsFailing(rows[0]) then Some(0)
    else
      match FirstFailureIndex(rows[1..])
      case None => None
      case Some(i) => Some(i + 1)
  }

  /** The entry of one slot given the rows that fell in it. */
  function Representative(rows: seq<LogRow>, caption: string): HourlyEntry {
    match FirstFailureIndex(rows)
    case Some(i) => Logged(rows[i])
    case None => if |rows| == 0 then NoData(caption) else Logged(rows[NewestIndex(rows)])
  }

  /** The entry of slot k. */
  function Entry(logs: seq<LogRow>, endTime: int, hours: int, k: int): HourlyEntry {
    var lo := HourStart(endTime, hours, k);
    Representative(RowsIn(logs, lo, HourEnd(endTime, hours, k)), Calendar.FormatTime(lo))
  }

  /** The whole graph: one entry per slot, the oldest slot first. */
  function Timeline(logs: seq<LogRow>, endTime: int, hours: nat): (r: seq<HourlyEntry>)
    ensures |r| == hours
    ensures forall k :: 0 <= k < hours ==> r[k] == Entry(logs, endTime, hours, k)
  {
    seq(hours, k requires 0 <= k < hours => Entry(logs, endTime, hours, k))
  }

  /** The loop of `get_uptime_graph_by_id` over the fetched rows, with the clock reading `endTime`. */
  method HourlyLogs(logs: seq<LogRow>, endTime: int, hours: nat) returns (hourlyLogs: seq<HourlyEntry>)
    ensures hourlyLogs == Timeline(logs, endTime, hours)
  {
    hourlyLogs := [];
    var startTime := endTime - hours * Calendar.MicrosPerHour;
    for hour := 0 to hours
      invariant |hourlyLogs| == hour
      invariant forall k :: 0 <= k < hour ==> hourlyLogs[k] == Entry(logs, endTime, hours, k)
    {
      var currentHourStart := startTime + hour * Calendar.MicrosPerHour;
      var nextHourStart := currentHourStart + Calendar.MicrosPerHour;
      if nextHourStart > endTime {
        nextHourStart := endTime;
      }
      assert currentHourStart == HourStart(endTime, hours, hour) && nextHourStart == HourEnd(endTime, hours, hour);
      var logsCurrentHour := RowsIn(logs, currentHourStart, nextHourStart);
      var hourlyLog: HourlyEntry;
      match FirstFailureIndex(logsCurrentHour) {
        case Some(i) =>
          hourlyLog := Logged(logsCurrentHour[i]);
        case None =>
          if |logsCurrentHour| > 0 {
            hourlyLog := Logged(logsCurrentHour[NewestIndex(logsCurrentHour)]);
          } else {
            hourlyLog := NoData(Calendar.FormatTime(currentHourStart));
          }
      }
      assert hourlyLog == Entry(logs, endTime, hours, hour);
      ghost var before := hourlyLogs;
      hourlyLogs := hourlyLogs + [hourlyLog];
      forall k | 0 <= k < hour + 1
        ensures hourlyLogs[k] == Entry(logs, endTime, hours, k)
      {
        if k < hour {
          assert hourlyLogs[k] == before[k];
        }
      }
    }
    var timeline := Timeline(logs, endTime, hours);
    assert forall k :: 0 <= k < hours ==> hourlyLogs[k] == timeline[k];
  }

  /* Properties of the graph */

  /** Inside the window the clip never fires: every slot is a full hour and ends no later than the window. */
  lemma SlotsAreWholeHours(endTime: int, hours: nat, k: int)
    requires 0 <= k < hours
    ensures HourEnd(endTime, hours, k) == HourStart(endTime, hours, k) + Calendar.MicrosPerHour
    ensures WindowStart(endTime, hours) <= HourStart(endTime, hours, k) && HourEnd(endTime, hours, k) <= endTime
    ensures HourEnd(endTime, hours, hours - 1) == endTime
  {
  }

  /** An earlier slot ends before a later one starts. */
  lemma SlotsInOrder(endTime: int, hours: int, k1: int, k2: int)
    requires k1 < k2
    ensures HourEnd(endTime, hours, k1) <= HourStart(endTime, hours, k2)
  {
    var h := Calendar.MicrosPerHour;
    assert HourStart(endTime, hours, k2) - HourStart(endTime, hours, k1) == (k2 - k1) * h;
    assert (k2 - k1) * h >= h;
  }

  /** The slots cut the window [end - hours, end) into disjoint pieces: an instant lies in some slot exactly when
      it lies in the window, and then in slot (t - start) / 1 h and no other. */
  lemma SlotsPartitionWindow(endTime: int, hours: nat, t: int)
    ensures (exists k :: 0 <= k < hours && HourStart(endTime, hours, k) <= t < HourEnd(endTime, hours, k))
            <==> WindowStart(endTime, hours) <= t < endTime
    ensures forall k1, k2 :: (0 <= k1 < hours && 0 <= k2 < hours
                              && HourStart(endTime, hours, k1) <= t < HourEnd(endTime, hours, k1)
                              && HourStart(endTime, hours, k2) <= t < HourEnd(endTime, hours, k2)) ==> k1 == k2
  {
    var start := WindowStart(endTime, hours);
    var h := Calendar.MicrosPerHour;
    if start <= t < endTime {
      var k := (t - start) / h;
      assert k * h <= t - start < k * h + h;
      assert 0 <= k < hours;
      assert HourStart(endTime, hours, k) <= t < HourEnd(endTime, hours, k);
    }
    forall k1, k2 | 0 <= k1 < hours && 0 <= k2 < hours
              && HourStart(endTime, hours, k1) <= t < HourEnd(endTime, hours, k1)
              && HourStart(endTime, hours, k2) <= t < HourEnd(endTime, hours, k2)
      ensures k1 == k2
    {
    }
  }

  /** No fetched row of [lo, hi) fails. */
  predicate NoneFailingIn(logs: seq<LogRow>, lo: int, hi: int) {
    forall i :: 0 <= i < |logs| && lo <= logs[i].createdAt < hi ==> !IsFailing(logs[i])
  }

  /** logs[i] is the first fetched row of [lo, hi) that fails. */
  predicate FirstFailingAt(logs: seq<LogRow>, lo: int, hi: int, i: int) {
    && 0 <= i < |logs| && lo <= logs[i].createdAt < hi && IsFailing(logs[i])
    && forall j :: 0 <= j < i && lo <= logs[j].createdAt < hi ==> !IsFailing(logs[j])
  }

  /** Past a first row that is not a failure of the slot, positions shift by one. */
  lemma FailingShift(logs: seq<LogRow>, lo: int, hi: int)
    requires logs != [] && !(lo <= logs[0].createdAt < hi && IsFailing(logs[0]))
    ensures NoneFailingIn(logs, lo, hi) <==> NoneFailingIn(logs[1..], lo, hi)
    ensures forall i :: FirstFailingAt(logs[1..], lo, hi, i) ==> FirstFailingAt(logs, lo, hi, i + 1)
  {
    if NoneFailingIn(logs[1..], lo, hi) {
      forall i | 0 <= i < |logs| && lo <= logs[i].createdAt < hi
        ensures !IsFailing(logs[i])
      {
        if i > 0 {
          assert logs[i] == logs[1..][i - 1];
        }
      }
    }
    forall i | FirstFailingAt(logs[1..], lo, hi, i)
      ensures FirstFailingAt(logs, lo, hi, i + 1)
    {
      forall j | 0 <= j < i + 1 && lo <= logs[j].createdAt < hi
        ensures !IsFailing(logs[j])
      {
        if j > 0 {
          assert logs[j] == logs[1..][j - 1];
        }
      }
    }
  }

  /** The first failing row of a slot, in fetched order, is the first failing row of the fetched rows that
      falls in the slot. */
  lemma {:induction false} FirstFailureOfRowsIn(logs: seq<LogRow>, lo: int, hi: int)
    ensures var f := FirstFailureIndex(RowsIn(logs, lo, hi));
            && (f.None? <==> NoneFailingIn(logs, lo, hi))
            && (f.Some? ==> exists i :: FirstFailingAt(logs, lo, hi, i) && logs[i] == RowsIn(logs, lo, hi)[f.value])
  {
    if logs != [] {
      var rows := RowsIn(logs, lo, hi);
      var rest := RowsIn(logs[1..], lo, hi);
      FirstFailureOfRowsIn(logs[1..], lo, hi);
      var inSlot := lo <= logs[0].createdAt < hi;
      if inSlot && IsFailing(logs[0]) {
        assert rows == [logs[0]] + rest;
        assert FirstFailureIndex(rows) == Some(0);
        assert FirstFailingAt(logs, lo, hi, 0);
      } else {
        FailingShift(logs, lo, hi);
        if inSlot {
          assert rows == [logs[0]] + rest;
          match FirstFailureIndex(rest)
          case None =>
            assert FirstFailureIndex(rows).None?;
          case Some(j) =>
            assert FirstFailureIndex(rows) == Some(j + 1);
            var i :| FirstFailingAt(logs[1..], lo, hi, i) && logs[1..][i] == rest[j];
            assert FirstFailingAt(logs, lo, hi, i + 1) && logs[i + 1] == rows[j + 1];
        } else {
          assert rows == rest;
          match FirstFailureIndex(rest)
          case None =>
          case Some(j) =>
            var i :| FirstFailingAt(logs[1..], lo, hi, i) && logs[1..][i] == rest[j];
            assert FirstFailingAt(logs, lo, hi, i + 1) && logs[i + 1] == rows[j];
        }
      }
    }
  }

  /** A slot shows one of the fetched rows, and only one created in that slot. */
  lemma LoggedRowBelongsToSlot(logs: seq<LogRow>, endTime: int, hours: int, k: int)
    requires Entry(logs, endTime, hours, k).Logged?
    ensures Entry(logs, endTime, hours, k).row in logs
    ensures InHour(Entry(logs, endTime, hours, k).row, endTime, hours, k)
  {
    var rows := RowsIn(logs, HourStart(endTime, hours, k), HourEnd(endTime, hours, k));
    assert Entry(logs, endTime, hours, k).row in rows;
  }

  /** A slot is "nodata", labelled with its start written by strftime, exactly when no fetched row falls in it. */
  lemma NoDataExactlyWhenSlotEmpty(logs: seq<LogRow>, endTime: int, hours: int, k: int)
    ensures Entry(logs, endTime, hours, k).NoData? <==> forall x :: x in logs ==> !InHour(x, endTime, hours, k)
    ensures Entry(logs, endTime, hours, k).NoData? ==>
              Entry(logs, endTime, hours, k).hour == Calendar.FormatTime(HourStart(endTime, hours, k))
  {
    var rows := RowsIn(logs, HourStart(endTime, hours, k), HourEnd(endTime, hours, k));
    if |rows| > 0 {
      assert rows[0] in rows;
    }
  }

  /** A failure outweighs any number of healthy rows: when some row of the slot fails, the slot shows the first
      failing row in fetched order. */
  lemma FailureWins(logs: seq<LogRow>, endTime: int, hours: int, k: int, x: LogRow)
    requires x in logs && InHour(x, endTime, hours, k) && IsFailing(x)
    ensures Entry(logs, endTime, hours, k).Logged?
    ensures exists i :: FirstFailingAt(logs, HourStart(endTime, hours, k), HourEnd(endTime, hours, k), i)
                        && logs[i] == Entry(logs, endTime, hours, k).row
  {
    var lo, hi := HourStart(endTime, hours, k), HourEnd(endTime, hours, k);
    var rows := RowsIn(logs, lo, hi);
    FirstFailureOfRowsIn(logs, lo, hi);
    var n :| 0 <= n < |logs| && logs[n] == x;
    assert !NoneFailingIn(logs, lo, hi);
    var f := FirstFailureIndex(rows).value;
    assert Entry(logs, endTime, hours, k) == Logged(rows[f]);
  }

  /** When every row of a non-empty slot is healthy, the slot shows a newest one, and the first of several
      newest rows in fetched order. */
  lemma NewestWhenHealthy(logs: seq<LogRow>, endTime: int, hours: int, k: int)
    requires exists x :: x in logs && InHour(x, endTime, hours, k)
    requires forall x :: x in logs && InHour(x, endTime, hours, k) ==> !IsFailing(x)
    ensures Entry(logs, endTime, hours, k).Logged?
    ensures var x := Entry(logs, endTime, hours, k).row;
            && x in logs && InHour(x, endTime, hours, k) && x.status == Some("ok")
            && forall y :: y in logs && InHour(y, endTime, hours, k) ==> y.createdAt <= x.createdAt
  {
    var lo, hi := HourStart(endTime, hours, k), HourEnd(endTime, hours, k);
    var rows := RowsIn(logs, lo, hi);
    var x0 :| x0 in logs && InHour(x0, endTime, hours, k);
    assert x0 in rows;
    assert FirstFailureIndex(rows).None? by {
      forall j | 0 <= j < |rows|
        ensures !IsFailing(rows[j])
      {
        assert rows[j] in rows;
      }
    }
    var x := rows[NewestIndex(rows)];
    assert x in rows;
    forall y | y in logs && InHour(y, endTime, hours, k)
      ensures y.createdAt <= x.createdAt
    {
      assert y in rows;
      var j :| 0 <= j < |rows| && rows[j] == y;
    }
  }

  /** Slots are in time order: a row shown in an earlier slot is older than a row shown in a later one. */
  lemma EntriesInTimeOrder(logs: seq<LogRow>, endTime: int, hours: nat, k1: int, k2: int)
    requires 0 <= k1 < k2 < hours
    requires Entry(logs, endTime, hours, k1).Logged? && Entry(logs, endTime, hours, k2).Logged?
    ensures Entry(logs, endTime, hours, k1).row.createdAt < Entry(logs, endTime, hours, k2).row.createdAt
  {
    LoggedRowBelongsToSlot(logs, endTime, hours, k1);
    LoggedRowBelongsToSlot(logs, endTime, hours, k2);
    SlotsInOrder(endTime, hours, k1, k2);
  }

  /** A row created at the clock reading or later, or before the window, is shown in no slot. */
  lemma RowsOutsideWindowNotShown(logs: seq<LogRow>, endTime: int, hours: nat, k: int)
    requires 0 <= k < hours
    requires Entry(logs, endTime, hours, k).Logged?
    ensures WindowStart(endTime, hours) <= Entry(logs, endTime, hours, k).row.createdAt < endTime
  {
    SlotsAreWholeHours(endTime, hours, k);
    LoggedRowBelongsToSlot(logs, endTime, hours, k);
  }

  /** The JSON of one entry: the row's `_asdict()` with `created_at` in ISO text, or the "nodata" record. */
  function EntryJson(e: HourlyEntry): (v: Value)
    ensures v.Obj?
    ensures e.NoData? ==> v.fields.Keys == {"hour", "status", "details"} && v.fields["status"] == Str(NoDataStatus)
                          && v.fields["hour"] == Str(e.hour)
    ensures e.Logged? ==> v.fields.Keys == LogRowKeys && v.fields["status"] == OptionalText(e.row.status)
  {
    match e
    case Logged(row) => Obj(LogRowAsDict(row))
    case NoData(hour) =>
      Obj(map["hour" := Str(hour), "status" := Str(NoDataStatus), "details" := Str(NoDataDetails)])
  }

  /** The `data` of the uptime reply. */
  function GraphJson(entries: seq<HourlyEntry>): (r: seq<Value>)
    ensures |r| == |entries| && forall i :: 0 <= i < |entries| ==> r[i] == EntryJson(entries[i])
  {
    seq(|entries|, i requires 0 <= i < |entries| => EntryJson(entries[i]))
  }
}

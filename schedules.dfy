/**
 * Shift schedules: the pending rows of the "add professionals" form, their
 * validation into schedules, the per-day lookup of the calendar cells and
 * the detection of two schedules that claim the same period on one day.
 */
module Schedules {
  import opened Optional
  import opened DayList

  /** A professional on shift: a name, a period ("Diurno" or "Noturno"), the days of the month, and the paid-at-once flag. */
  datatype Schedule = Schedule(name: string, period: string, days: seq<int>, isPG: bool)

  /** A row of the form as typed: the days are still free text. */
  datatype PendingRow = PendingRow(name: string, period: string, days: string, isPG: bool)

  /** The row the form starts with and is reset to. */
  const BlankRow := PendingRow("", "Diurno", "", false)

  /** A schedule the form can produce: at least one day, every day positive. */
  predicate WellFormed(s: Schedule) {
    |s.days| > 0 && forall i :: 0 <= i < |s.days| ==> s.days[i] > 0
  }

  // ---------------------------------------------------------------------
  // Validation of the pending rows (handleAddSchedule)
  // ---------------------------------------------------------------------

  /**
   * A row becomes a schedule with its name, period and flag and the days
   * parsed from its text, unless no valid day is left (`null`).
   */
  function Validate(row: PendingRow): (r: Option<Schedule>)
    ensures r.None? <==> ParseDays(row.days) == []
    ensures r.Some? ==> WellFormed(r.value)
    ensures r.Some? ==> r.value.name == row.name && r.value.period == row.period && r.value.isPG == row.isPG
    ensures r.Some? ==> r.value.days == ParseDays(row.days)
  {
    var numbers := ParseDays(row.days);
    if |numbers| == 0 then None
    else Some(Schedule(row.name, row.period, numbers, row.isPG))
  }

  /** `tempSchedules.map(...)`. */
  function ValidateAll(rows: seq<PendingRow>): seq<Option<Schedule>>
  {
    seq(|rows|, i requires 0 <= i < |rows| => Validate(rows[i]))
  }

  /** `.filter((schedule) => schedule !== null)`. */
  function DropNulls(xs: seq<Option<Schedule>>): seq<Schedule> {
    if xs == [] then []
    else (if xs[0].Some? then [xs[0].value] else []) + DropNulls(xs[1..])
  }

  /** The schedules a batch of pending rows yields: the valid rows, in order. */
  function NewSchedules(rows: seq<PendingRow>): (r: seq<Schedule>)
    ensures |r| <= |rows|
    ensures forall i :: 0 <= i < |r| ==> WellFormed(r[i])
  {
    DropNullsBound(ValidateAll(rows));
    DropNulls(ValidateAll(rows))
  }

  lemma {:induction false} DropNullsBound(xs: seq<Option<Schedule>>)
    requires forall i :: 0 <= i < |xs| ==> xs[i].Some? ==> WellFormed(xs[i].value)
    ensures |DropNulls(xs)| <= |xs|
    ensures forall i :: 0 <= i < |DropNulls(xs)| ==> WellFormed(DropNulls(xs)[i])
  {
    if xs != [] {
      DropNullsBound(xs[1..]);
    }
  }

  lemma {:induction false} DropNullsAppend(xs: seq<Option<Schedule>>, ys: seq<Option<Schedule>>)
    ensures DropNulls(xs + ys) == DropNulls(xs) + DropNulls(ys)
  {
    if xs != [] {
      assert (xs + ys)[0] == xs[0] && (xs + ys)[1..] == xs[1..] + ys;
      DropNullsAppend(xs[1..], ys);
      var head := if xs[0].Some? then [xs[0].value] else [];
      assert DropNulls(xs + ys) == head + (DropNulls(xs[1..]) + DropNulls(ys));
    } else {
      assert xs + ys == ys;
    }
  }

  /** The filter keeps exactly the schedules present in the list. */
  lemma {:induction false} DropNullsMembers(xs: seq<Option<Schedule>>, s: Schedule)
    ensures s in DropNulls(xs) <==> Some(s) in xs
  {
    if xs != [] {
      DropNullsMembers(xs[1..], s);
      assert xs == [xs[0]] + xs[1..];
    }
  }

  /** Rows are validated independently: a batch yields what its parts yield, in order. */
  lemma NewSchedulesAppend(rows1: seq<PendingRow>, rows2: seq<PendingRow>)
    ensures NewSchedules(rows1 + rows2) == NewSchedules(rows1) + NewSchedules(rows2)
  {
    assert ValidateAll(rows1 + rows2) == ValidateAll(rows1) + ValidateAll(rows2);
    DropNullsAppend(ValidateAll(rows1), ValidateAll(rows2));
  }

  /** A single row yields one schedule with its fields and parsed days, or nothing when no day is valid. */
  lemma NewSchedulesSingle(row: PendingRow)
    ensures ParseDays(row.days) == [] ==> NewSchedules([row]) == []
    ensures ParseDays(row.days) != [] ==>
              NewSchedules([row]) == [Schedule(row.name, row.period, ParseDays(row.days), row.isPG)]
  {
    var vs := ValidateAll([row]);
    assert vs == [Validate(row)] && vs[1..] == [];
    assert DropNulls(vs) == (if vs[0].Some? then [vs[0].value] else []) + DropNulls([]);
  }

  /** The batch is rejected (yields nothing) exactly when no row has a valid day. */
  lemma {:induction false} NewSchedulesEmpty(rows: seq<PendingRow>)
    ensures NewSchedules(rows) == [] <==> forall i :: 0 <= i < |rows| ==> ParseDays(rows[i].days) == []
    decreases |rows|
  {
    if rows != [] {
      assert rows == [rows[0]] + rows[1..];
      NewSchedulesAppend([rows[0]], rows[1..]);
      NewSchedulesSingle(rows[0]);
      NewSchedulesEmpty(rows[1..]);
      assert forall i :: 1 <= i < |rows| ==> rows[i] == rows[1..][i - 1];
    }
  }

  /** Every new schedule comes from a valid row, and every valid row gives one. */
  lemma {:induction false} NewSchedulesMembers(rows: seq<PendingRow>, s: Schedule)
    ensures s in NewSchedules(rows) <==> exists i :: 0 <= i < |rows| && Validate(rows[i]) == Some(s)
    decreases |rows|
  {
    if rows != [] {
      assert rows == [rows[0]] + rows[1..];
      NewSchedulesAppend([rows[0]], rows[1..]);
      NewSchedulesSingle(rows[0]);
      NewSchedulesMembers(rows[1..], s);
      if exists i :: 0 <= i < |rows| && Validate(rows[i]) == Some(s) {
        var i :| 0 <= i < |rows| && Validate(rows[i]) == Some(s);
        if i > 0 {
          assert rows[1..][i - 1] == rows[i];
        }
      }
      if exists i :: 0 <= i < |rows[1..]| && Validate(rows[1..][i]) == Some(s) {
        var i :| 0 <= i < |rows[1..]| && Validate(rows[1..][i]) == Some(s);
        assert rows[i + 1] == rows[1..][i];
      }
    }
  }

  // ---------------------------------------------------------------------
  // Editing the pending rows
  // ---------------------------------------------------------------------

  /** One field of a pending row set to a new value (`{ ...row, [field]: value }`). */
  datatype RowEdit = SetName(name: string) | SetPeriod(period: string) | SetDays(days: string) | SetIsPG(isPG: bool)

  function ApplyEdit(row: PendingRow, edit: RowEdit): (r: PendingRow)
    ensures edit.SetName? ==> r.name == edit.name
    ensures edit.SetPeriod? ==> r.period == edit.period
    ensures edit.SetDays? ==> r.days == edit.days
    ensures edit.SetIsPG? ==> r.isPG == edit.isPG
  {
    match edit
    case SetName(v) => row.(name := v)
    case SetPeriod(v) => row.(period := v)
    case SetDays(v) => row.(days := v)
    case SetIsPG(v) => row.(isPG := v)
  }

  /** An edit touches its own field only. */
  lemma ApplyEditOthers(row: PendingRow, edit: RowEdit)
    ensures !edit.SetName? ==> ApplyEdit(row, edit).name == row.name
    ensures !edit.SetPeriod? ==> ApplyEdit(row, edit).period == row.period
    ensures !edit.SetDays? ==> ApplyEdit(row, edit).days == row.days
    ensures !edit.SetIsPG? ==> ApplyEdit(row, edit).isPG == row.isPG
  {
  }

  /** `rows.filter((_, i) => i !== index)`: every row but the one at `index`. */
  function RemoveAt(rows: seq<PendingRow>, index: int): (r: seq<PendingRow>)
    ensures 0 <= index < |rows| ==> r == rows[..index] + rows[index + 1..]
    ensures !(0 <= index < |rows|) ==> r == rows
    decreases |rows|
  {
    if rows == [] then []
    else
      var n := |rows| - 1;
      assert rows[..n] + [rows[n]] == rows;
      RemoveAt(rows[..n], index) + (if n == index then [] else [rows[n]])
  }

  // ---------------------------------------------------------------------
  // The calendar cells (renderCalendar)
  // ---------------------------------------------------------------------

  /** `schedules.filter((schedule) => schedule.days.includes(day))`. */
  function SchedulesOn(schedules: seq<Schedule>, day: int): (r: seq<Schedule>)
    ensures |r| <= |schedules|
    ensures forall i :: 0 <= i < |r| ==> day in r[i].days
  {
    if schedules == [] then []
    else (if day in schedules[0].days then [schedules[0]] else []) + SchedulesOn(schedules[1..], day)
  }

  /** A schedule is listed on a day exactly when it is one of the schedules and works that day. */
  lemma {:induction false} SchedulesOnMembers(schedules: seq<Schedule>, day: int, s: Schedule)
    ensures s in SchedulesOn(schedules, day) <==> s in schedules && day in s.days
    decreases |schedules|
  {
    if schedules != [] {
      SchedulesOnMembers(schedules[1..], day, s);
      assert schedules == [schedules[0]] + schedules[1..];
    }
  }

  /** The lookup keeps the order of the schedules: it distributes over concatenation. */
  lemma {:induction false} SchedulesOnAppend(xs: seq<Schedule>, ys: seq<Schedule>, day: int)
    ensures SchedulesOn(xs + ys, day) == SchedulesOn(xs, day) + SchedulesOn(ys, day)
    decreases |xs|
  {
    if xs != [] {
      assert (xs + ys)[0] == xs[0] && (xs + ys)[1..] == xs[1..] + ys;
      SchedulesOnAppend(xs[1..], ys, day);
      var head := if day in xs[0].days then [xs[0]] else [];
      assert SchedulesOn(xs + ys, day) == head + (SchedulesOn(xs[1..], day) + SchedulesOn(ys, day));
    } else {
      assert xs + ys == ys;
    }
  }

  /** `other.period === p` for some `other` of `xs`. */
  function SamePeriodIn(p: string, xs: seq<Schedule>): (b: bool)
    ensures b <==> exists j :: 0 <= j < |xs| && xs[j].period == p
  {
    if xs == [] then false
    else xs[0].period == p || SamePeriodIn(p, xs[1..])
  }

  /**
   * `hasOverlap`: some schedule shares its period with one listed after it,
   * `xs.some((s, i) => xs.slice(i + 1).some((o) => o.period === s.period))`.
   */
  function HasOverlap(xs: seq<Schedule>): (b: bool)
    ensures |xs| < 2 ==> !b
  {
    if xs == [] then false
    else SamePeriodIn(xs[0].period, xs[1..]) || HasOverlap(xs[1..])
  }

  /** Two entries at distinct positions share a period. */
  predicate TwoSharePeriod(xs: seq<Schedule>) {
    exists i, j :: 0 <= i < j < |xs| && xs[i].period == xs[j].period
  }

  /** The overlap flag is raised exactly when two distinct entries share a period. */
  lemma {:induction false} HasOverlapSpec(xs: seq<Schedule>)
    ensures HasOverlap(xs) <==> TwoSharePeriod(xs)
    decreases |xs|
  {
    if xs != [] {
      var tail := xs[1..];
      HasOverlapSpec(tail);
      if HasOverlap(xs) {
        if SamePeriodIn(xs[0].period, tail) {
          var j :| 0 <= j < |tail| && tail[j].period == xs[0].period;
          assert xs[0].period == xs[j + 1].period;
        } else {
          var i, j :| 0 <= i < j < |tail| && tail[i].period == tail[j].period;
          assert xs[i + 1].period == xs[j + 1].period;
        }
      }
      if TwoSharePeriod(xs) {
        var i, j :| 0 <= i < j < |xs| && xs[i].period == xs[j].period;
        if i == 0 {
          assert tail[j - 1].period == xs[0].period;
        } else {
          assert tail[i - 1].period == tail[j - 1].period;
        }
      }
    }
  }

  /**
   * The form offers two periods only, so three schedules on one day always
   * raise the overlap flag.
   */
  lemma ThreeOverlap(xs: seq<Schedule>)
    requires forall i :: 0 <= i < |xs| ==> xs[i].period == "Diurno" || xs[i].period == "Noturno"
    requires |xs| >= 3
    ensures HasOverlap(xs)
  {
    HasOverlapSpec(xs);
    if xs[0].period == xs[1].period {
      assert xs[0].period == xs[1].period;
    } else if xs[0].period == xs[2].period {
      assert xs[0].period == xs[2].period;
    } else {
      assert xs[1].period == xs[2].period;
    }
  }
}

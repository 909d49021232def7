/**
 * The `CalendarApp` component as a state machine: the generated month
 * (`days`), the accepted schedules (`schedules`) and the rows of the form
 * (`tempSchedules`), changed by the handlers of the page, and the grid of
 * cells the page draws from them.
 */
module Calendar {
  import opened Optional
  import opened Dates
  import opened DayList
  import opened Weeks
  import opened Schedules

  /** The dates 1 .. n of a month, as `handleGenerate` builds them. */
  method MonthDates(year: int, month: int) returns (dates: seq<Date>)
    requires 1 <= month <= 12
    ensures |dates| == DaysInMonth(FullYear(year), month)
    ensures forall i :: 0 <= i < |dates| ==> dates[i] == CalendarDate(FullYear(year), month, i + 1)
    ensures Consecutive(dates)
  {
    var y := FullYear(year);
    // new Date(year, month, 0).getDate(): the last day of the month
    var lastDay := DaysInMonth(y, month);
    dates := [];
    var i := 1;
    while i <= lastDay
      invariant 1 <= i <= lastDay + 1
      invariant |dates| == i - 1
      invariant forall j :: 0 <= j < |dates| ==> dates[j] == CalendarDate(y, month, j + 1)
      invariant Consecutive(dates)
    {
      var d: Date := CalendarDate(y, month, i);
      if i > 1 {
        var previous := dates[i - 2];
        assert Tomorrow(previous) == d;
        TomorrowIsNextDay(previous);
      }
      dates := dates + [d];
      i := i + 1;
    }
  }

  /** What a cell of the grid shows: its date (if any), the schedules of that day, and the overlap flag. */
  datatype CellView = CellView(date: Option<Date>, schedules: seq<Schedule>, overlap: bool)

  /**
   * `scheduleForDay` and `hasOverlap` of one cell: an empty slot shows no
   * schedule; a dated cell shows, in order, the schedules working on its day
   * of the month, flagged when two of them share a period.
   */
  function CellFor(schedules: seq<Schedule>, cell: Cell): (v: CellView)
    ensures v.date == cell
    ensures cell.None? ==> v.schedules == [] && !v.overlap
    ensures cell.Some? ==> v.schedules == SchedulesOn(schedules, cell.value.day)
    ensures v.overlap <==> TwoSharePeriod(v.schedules)
  {
    var forDay := if cell.Some? then SchedulesOn(schedules, cell.value.day) else [];
    HasOverlapSpec(forDay);
    CellView(cell, forDay, HasOverlap(forDay))
  }

  /** `weeks.map(...)` with `Array.from({ length: 7 }).map(...)`: seven cells per row. */
  function Grid(schedules: seq<Schedule>, weeks: seq<seq<Cell>>): seq<seq<CellView>>
  {
    seq(|weeks|, i requires 0 <= i < |weeks| => seq(7, j requires 0 <= j < 7 => CellFor(schedules, CellAt(weeks[i], j))))
  }

  /** Every dated cell of the grid holds one of the days, in the column of its weekday. */
  predicate DatedCellsInColumns(grid: seq<seq<CellView>>, days: seq<Date>) {
    forall i, j :: 0 <= i < |grid| && 0 <= j < |grid[i]| && grid[i][j].date.Some? ==>
      grid[i][j].date.value in days && Weekday(grid[i][j].date.value) == j
  }

  /** The dates the grid shows, row by row. */
  function DatesOf(grid: seq<seq<CellView>>): seq<seq<Cell>> {
    seq(|grid|, i requires 0 <= i < |grid| => seq(|grid[i]|, j requires 0 <= j < |grid[i]| => grid[i][j].date))
  }

  /** The k-th day sits at row (first + k) / 7, column (first + k) % 7, `first` the weekday of day 1. */
  predicate DaysInPlace(grid: seq<seq<CellView>>, days: seq<Date>)
    requires |days| > 0
  {
    DatesFrom(DatesOf(grid), Weekday(days[0]), days)
  }

  /** The cells before day 1 and after the last day are empty; all the others are dated. */
  predicate DatedExactlyDays(grid: seq<seq<CellView>>, days: seq<Date>)
    requires |days| > 0
  {
    SlotsOfDays(DatesOf(grid), Weekday(days[0]), |days|)
  }

  /** Each cell lists the schedules of its day and raises the flag exactly on a shared period. */
  predicate CellsShowSchedules(grid: seq<seq<CellView>>, schedules: seq<Schedule>) {
    forall i, j :: 0 <= i < |grid| && 0 <= j < |grid[i]| ==> grid[i][j] == CellFor(schedules, grid[i][j].date)
  }

  lemma GridCells(dates: seq<Date>, weeks: seq<seq<Cell>>, schedules: seq<Schedule>, grid: seq<seq<CellView>>)
    requires |dates| > 0 && WeekPartition(dates, weeks) && Consecutive(dates) && MonthLayout(dates, weeks)
    requires grid == Grid(schedules, weeks)
    ensures DatedCellsInColumns(grid, dates)
  {
    CellsAreDates(dates, weeks);
    forall i, j | 0 <= i < |grid| && 0 <= j < |grid[i]| && grid[i][j].date.Some?
      ensures grid[i][j].date.value in dates && Weekday(grid[i][j].date.value) == j
    {
      assert grid[i][j].date == CellAt(weeks[i], j);
      assert InColumns(weeks[i]);
    }
  }

  lemma GridPositions(dates: seq<Date>, weeks: seq<seq<Cell>>, schedules: seq<Schedule>, grid: seq<seq<CellView>>)
    requires |dates| > 0 && MonthLayout(dates, weeks)
    requires grid == Grid(schedules, weeks)
    ensures DaysInPlace(grid, dates)
  {
    ShownDates(schedules, weeks, grid);
    WiderRowsKeepPlaces(weeks, DatesOf(grid), Weekday(dates[0]), dates);
  }

  /** The grid shows, in each of its seven columns, what `week[day]` reads. */
  lemma ShownDates(schedules: seq<Schedule>, weeks: seq<seq<Cell>>, grid: seq<seq<CellView>>)
    requires grid == Grid(schedules, weeks)
    ensures |DatesOf(grid)| == |weeks|
    ensures forall i :: 0 <= i < |weeks| ==> |DatesOf(grid)[i]| == 7
    ensures forall i, j :: 0 <= i < |weeks| && 0 <= j < 7 ==> DatesOf(grid)[i][j] == CellAt(weeks[i], j)
  {
  }

  /** Rows padded out to seven columns keep every date where it was. */
  lemma WiderRowsKeepPlaces(weeks: seq<seq<Cell>>, shown: seq<seq<Cell>>, first: nat, dates: seq<Date>)
    requires |shown| == |weeks|
    requires forall i :: 0 <= i < |weeks| ==> |shown[i]| == 7
    requires forall i, j :: 0 <= i < |weeks| && 0 <= j < 7 ==> shown[i][j] == CellAt(weeks[i], j)
    requires DatesFrom(weeks, first, dates)
    ensures DatesFrom(shown, first, dates)
  {
    forall k | 0 <= k < |dates|
      ensures PlacedAt(shown, first + k, dates[k])
    {
      var p := first + k;
      assert PlacedAt(weeks, p, dates[k]);
      assert shown[p / 7][p % 7] == CellAt(weeks[p / 7], p % 7);
    }
  }

  lemma GridSlots(dates: seq<Date>, weeks: seq<seq<Cell>>, schedules: seq<Schedule>, grid: seq<seq<CellView>>)
    requires |dates| > 0 && WeekPartition(dates, weeks) && MonthLayout(dates, weeks)
    requires grid == Grid(schedules, weeks)
    ensures DatedExactlyDays(grid, dates)
  {
    EmptySlots(dates, weeks);
    var shown := DatesOf(grid);
    forall i, j | 0 <= i < |shown| && 0 <= j < 7
      ensures CellAt(shown[i], j).Some? <==> Weekday(dates[0]) <= 7 * i + j < Weekday(dates[0]) + |dates|
    {
      assert CellAt(shown[i], j) == CellAt(weeks[i], j);
    }
  }

  lemma GridSchedules(schedules: seq<Schedule>, weeks: seq<seq<Cell>>, grid: seq<seq<CellView>>)
    requires grid == Grid(schedules, weeks)
    ensures CellsShowSchedules(grid, schedules)
  {
  }

  /** February 2025 starts on a Saturday and so spreads over five week rows. */
  lemma February2025Rows()
    ensures (Weekday(CalendarDate(2025, 2, 1)) + DaysInMonth(FullYear(2025), 2) + 6) / 7 == 5
  {
    February2025Weekday();
  }

  class CalendarApp {
    var days: seq<Date>
    var schedules: seq<Schedule>
    var tempSchedules: seq<PendingRow>

    /** The generated days follow each other; every accepted schedule has valid days. */
    ghost predicate Valid()
      reads this
    {
      Consecutive(days) && forall i :: 0 <= i < |schedules| ==> WellFormed(schedules[i])
    }

    /** The initial state: no month, no schedule, one blank row. */
    constructor()
      ensures Valid()
      ensures days == [] && schedules == [] && tempSchedules == [BlankRow]
    {
      days := [];
      schedules := [];
      tempSchedules := [BlankRow];
    }

    /** `handleGenerate`: the month's dates replace the shown days. */
    method Generate(year: int, month: int)
      requires Valid() && 1 <= month <= 12
      modifies this
      ensures Valid()
      ensures |days| == DaysInMonth(FullYear(year), month)
      ensures forall i :: 0 <= i < |days| ==> days[i] == CalendarDate(FullYear(year), month, i + 1)
      ensures schedules == old(schedules) && tempSchedules == old(tempSchedules)
    {
      days := MonthDates(year, month);
    }

    /**
     * `handleAddSchedule`: the valid rows are appended to the schedules and
     * the form is reset to one blank row; when no row has a valid day the
     * batch is rejected (the alert) and nothing changes.
     */
    method Submit() returns (accepted: bool)
      requires Valid()
      modifies this
      ensures Valid()
      ensures accepted <==> exists i :: 0 <= i < |old(tempSchedules)| && ParseDays(old(tempSchedules)[i].days) != []
      ensures accepted ==> schedules == old(schedules) + NewSchedules(old(tempSchedules)) && tempSchedules == [BlankRow]
      ensures !accepted ==> schedules == old(schedules) && tempSchedules == old(tempSchedules)
      ensures days == old(days)
    {
      NewSchedulesEmpty(tempSchedules);
      var newSchedules := NewSchedules(tempSchedules);
      if |newSchedules| == 0 {
        accepted := false;
        return;
      }
      schedules := schedules + newSchedules;
      tempSchedules := [BlankRow];
      accepted := true;
    }

    /** `handleTempScheduleChange`: one field of the row at `index` takes a new value. */
    method ChangeRow(index: int, edit: RowEdit)
      requires Valid() && 0 <= index < |tempSchedules|
      modifies this
      ensures Valid()
      ensures tempSchedules == old(tempSchedules)[index := ApplyEdit(old(tempSchedules)[index], edit)]
      ensures days == old(days) && schedules == old(schedules)
    {
      var updated := tempSchedules;
      updated := updated[index := ApplyEdit(updated[index], edit)];
      tempSchedules := updated;
    }

    /** `handleAddTempSchedule`: a blank row is appended to the form. */
    method AddRow()
      requires Valid()
      modifies this
      ensures Valid()
      ensures tempSchedules == old(tempSchedules) + [BlankRow]
      ensures days == old(days) && schedules == old(schedules)
    {
      tempSchedules := tempSchedules + [BlankRow];
    }

    /** `handleRemoveTempSchedule`: the row at `index` goes; an index out of range changes nothing. */
    method RemoveRow(index: int)
      requires Valid()
      modifies this
      ensures Valid()
      ensures 0 <= index < |old(tempSchedules)| ==>
                tempSchedules == old(tempSchedules)[..index] + old(tempSchedules)[index + 1..]
      ensures !(0 <= index < |old(tempSchedules)|) ==> tempSchedules == old(tempSchedules)
      ensures days == old(days) && schedules == old(schedules)
    {
      tempSchedules := RemoveAt(tempSchedules, index);
    }

    /** `handleClearCalendar`: back to the initial state. */
    method Clear()
      modifies this
      ensures Valid()
      ensures days == [] && schedules == [] && tempSchedules == [BlankRow]
    {
      days := [];
      schedules := [];
      tempSchedules := [BlankRow];
    }

    /**
     * `renderCalendar`, without the drawing: one row of seven cells per week
     * of the month. The k-th day sits at row (first + k) / 7, column
     * (first + k) % 7 where `first` is the weekday of day 1; every dated cell
     * holds a day of the month in the column of its weekday; each cell lists
     * the schedules of its day and the overlap flag. The grid is only drawn
     * when there are days.
     */
    method Render() returns (grid: seq<seq<CellView>>)
      requires Valid() && |days| > 0
      ensures |grid| == (Weekday(days[0]) + |days| + 6) / 7
      ensures forall i :: 0 <= i < |grid| ==> |grid[i]| == 7
      ensures CellsShowSchedules(grid, schedules)
      ensures DatedCellsInColumns(grid, days)
      ensures DaysInPlace(grid, days)
      ensures DatedExactlyDays(grid, days)
    {
      var weeks := GetWeeks(days);
      grid := Grid(schedules, weeks);
      GridCells(days, weeks, schedules, grid);
      GridPositions(days, weeks, schedules, grid);
      GridSchedules(schedules, weeks, grid);
      GridSlots(days, weeks, schedules, grid);
    }
  }
}

/**
 * The week partition of the month grid (`getWeeks`): the dates of a month
 * are laid out in rows of a Sunday-first table, the first row padded with
 * empty cells up to the weekday of the first date, a new row started at
 * every Sunday.
 */
module Weeks {
  import opened Optional
  import opened Dates

  /** A cell of the grid: a date, or an empty (`undefined`) slot. */
  type Cell = Option<Date>

  /** `n` empty cells. */
  function Padding(n: nat): seq<Cell>
  {
    seq(n, _ => None)
  }

  /** Each date in its own cell, in order. */
  function AsCells(dates: seq<Date>): seq<Cell>
  {
    seq(|dates|, i requires 0 <= i < |dates| => Some(dates[i]))
  }

  /** `week[day]`: reading past the end of a row gives an empty slot (`undefined`). */
  function CellAt(row: seq<Cell>, j: int): Cell {
    if 0 <= j < |row| then row[j] else None
  }

  /**
   * Read in rows of seven columns, slot (i, j) holds a date exactly when
   * 7 * i + j falls among the `n` cells after the `first` padding slots.
   */
  predicate SlotsOfDays(weeks: seq<seq<Cell>>, first: int, n: int) {
    forall i, j :: 0 <= i < |weeks| && 0 <= j < 7 ==>
      (CellAt(weeks[i], j).Some? <==> first <= 7 * i + j < first + n)
  }

  /** The rows read one after the other. */
  function Flatten(weeks: seq<seq<Cell>>): seq<Cell> {
    if weeks == [] then [] else Flatten(weeks[..|weeks| - 1]) + weeks[|weeks| - 1]
  }

  predicate IsSunday(c: Cell) {
    c.Some? && Weekday(c.value) == 0
  }

  /** Every row but the last one is full. */
  predicate FullRows(weeks: seq<seq<Cell>>) {
    forall w :: 0 <= w < |weeks| - 1 ==> |weeks[w]| == 7
  }

  /** No Sunday date in the row except, possibly, at its head. */
  predicate NoInnerSunday(row: seq<Cell>) {
    forall j :: 0 < j < |row| ==> !IsSunday(row[j])
  }

  /** Every date of the row sits in the column of its weekday (0 = Sunday). */
  predicate InColumns(row: seq<Cell>) {
    forall j :: 0 <= j < |row| && row[j].Some? ==> Weekday(row[j].value) == j
  }

  /** The first row: `first` empty cells, then the first date. */
  predicate FirstRow(row: seq<Cell>, first: nat, d: Date) {
    |row| > first && row[..first] == Padding(first) && row[first] == Some(d)
  }

  /**
   * What `getWeeks` promises for any non-empty list of dates: the rows, read
   * in order, are the padding followed by the dates; no row is empty; every
   * row after the first starts at a Sunday and no Sunday sits anywhere but
   * at the head of a row; the first row starts with exactly as many empty
   * cells as the weekday of the first date.
   */
  ghost predicate WeekPartition(dates: seq<Date>, weeks: seq<seq<Cell>>)
    requires |dates| > 0
  {
    && Flatten(weeks) == Padding(Weekday(dates[0])) + AsCells(dates)
    && (forall w :: 0 <= w < |weeks| ==> weeks[w] != [])
    && (forall w :: 0 < w < |weeks| ==> IsSunday(weeks[w][0]))
    && (forall w :: 0 <= w < |weeks| ==> NoInnerSunday(weeks[w]))
    && |weeks| > 0 && FirstRow(weeks[0], Weekday(dates[0]), dates[0])
  }

  /**
   * What it promises in addition for the days of a month: rows hold at most
   * seven cells, all but the last exactly seven, every date sits in the
   * column of its weekday, there are (first + n + 6) / 7 rows, and the k-th
   * date is found at row (first + k) / 7, column (first + k) % 7.
   */
  ghost predicate MonthLayout(dates: seq<Date>, weeks: seq<seq<Cell>>)
    requires |dates| > 0
  {
    var first := Weekday(dates[0]);
    && FullRows(weeks)
    && (forall w :: 0 <= w < |weeks| ==> |weeks[w]| <= 7 && InColumns(weeks[w]))
    && |weeks| == (first + |dates| + 6) / 7
    && DatesFrom(weeks, first, dates)
  }

  /** Read in rows of seven, cell `p` of `weeks` holds `d`. */
  predicate PlacedAt(weeks: seq<seq<Cell>>, p: nat, d: Date) {
    p / 7 < |weeks| && p % 7 < |weeks[p / 7]| && weeks[p / 7][p % 7] == Some(d)
  }

  /** Date k sits at cell first + k. */
  predicate DatesFrom(weeks: seq<seq<Cell>>, first: nat, dates: seq<Date>) {
    forall k :: 0 <= k < |dates| ==> PlacedAt(weeks, first + k, dates[k])
  }

  /**
   * `getWeeks(dates)`. `dates[0]` is read unguarded, so the list must not be
   * empty (the grid is only drawn when there are days).
   */
  method GetWeeks(dates: seq<Date>) returns (weeks: seq<seq<Cell>>)
    requires |dates| > 0
    ensures WeekPartition(dates, weeks)
    ensures Consecutive(dates) ==> MonthLayout(dates, weeks)
  {
    weeks := [];
    var week: seq<Cell> := [];
    var first := Weekday(dates[0]);

    var i := 0;
    while i < first
      invariant 0 <= i <= first
      invariant week == Padding(i)
    {
      week := week + [None];
      i := i + 1;
    }

    Start(dates, week);
    var k := 0;
    while k < |dates|
      invariant 0 <= k <= |dates|
      invariant LoopState(dates, k, weeks, week)
    {
      var date := dates[k];
      ghost var weeks0, week0 := weeks, week;
      if Weekday(date) == 0 && |week| > 0 {
        weeks := weeks + [week];
        week := [];
      }
      week := week + [Some(date)];
      Step(dates, k, weeks0, week0, weeks, week);
      k := k + 1;
    }

    Finish(dates, weeks, week);
    if |week| > 0 {
      weeks := weeks + [week];
    }
  }

  /** The loop invariant of `getWeeks` after the first `k` dates. */
  ghost predicate LoopState(dates: seq<Date>, k: nat, weeks: seq<seq<Cell>>, week: seq<Cell>)
    requires 0 < |dates| && k <= |dates|
  {
    Partial(dates, k, weeks, week) && (Consecutive(dates) ==> Aligned(dates, k, weeks, week))
  }

  lemma Start(dates: seq<Date>, week: seq<Cell>)
    requires |dates| > 0 && week == Padding(Weekday(dates[0]))
    ensures LoopState(dates, 0, [], week)
  {
    assert AsCells(dates[..0]) == [];
    assert Flatten([]) + week == Padding(Weekday(dates[0])) + AsCells(dates[..0]);
  }

  lemma Step(dates: seq<Date>, k: nat, weeks0: seq<seq<Cell>>, week0: seq<Cell>,
             weeks: seq<seq<Cell>>, week: seq<Cell>)
    requires k < |dates| && LoopState(dates, k, weeks0, week0)
    requires Placed(weeks0, week0, dates[k], weeks, week)
    ensures LoopState(dates, k + 1, weeks, week)
  {
    StepPartial(dates, k, weeks0, week0, weeks, week);
    if Consecutive(dates) {
      StepAligned(dates, k, weeks0, week0, weeks, week);
    }
  }

  lemma Finish(dates: seq<Date>, weeks0: seq<seq<Cell>>, week: seq<Cell>)
    requires |dates| > 0 && LoopState(dates, |dates|, weeks0, week)
    ensures week != []
    ensures WeekPartition(dates, weeks0 + [week])
    ensures Consecutive(dates) ==> MonthLayout(dates, weeks0 + [week])
  {
    FinishPartition(dates, weeks0, week);
    if Consecutive(dates) {
      FinishLayout(dates, weeks0, week);
    }
  }

  /** The state of `getWeeks` after the first `k` dates: closed rows `weeks`, open row `week`. */
  ghost predicate Partial(dates: seq<Date>, k: nat, weeks: seq<seq<Cell>>, week: seq<Cell>)
    requires 0 < |dates| && k <= |dates|
  {
    Covers(dates, k, weeks, week) && SundayRows(weeks, week) && Starts(dates, k, weeks, week)
  }

  /** The rows so far read out the padding and the first `k` dates. */
  ghost predicate Covers(dates: seq<Date>, k: nat, weeks: seq<seq<Cell>>, week: seq<Cell>)
    requires 0 < |dates| && k <= |dates|
  {
    Flatten(weeks) + week == Padding(Weekday(dates[0])) + AsCells(dates[..k])
  }

  /** Closed rows are not empty, rows after the first start at a Sunday, no Sunday inside a row. */
  predicate SundayRows(weeks: seq<seq<Cell>>, week: seq<Cell>) {
    && (forall w :: 0 <= w < |weeks| ==> weeks[w] != [])
    && (forall w :: 0 < w < |weeks| ==> IsSunday(weeks[w][0]))
    && (|weeks| > 0 ==> week != [] && IsSunday(week[0]))
    && (forall w :: 0 <= w < |weeks| ==> NoInnerSunday(weeks[w]))
    && NoInnerSunday(week)
  }

  /** The first row (closed or still open) is the padding followed by the first date. */
  ghost predicate Starts(dates: seq<Date>, k: nat, weeks: seq<seq<Cell>>, week: seq<Cell>)
    requires 0 < |dates| && k <= |dates|
  {
    var first := Weekday(dates[0]);
    && (k == 0 ==> weeks == [] && week == Padding(first))
    && (k > 0 ==> FirstRow(if weeks == [] then week else weeks[0], first, dates[0]))
  }

  /** The same state, for consecutive dates: full closed rows, the open row aligned. */
  ghost predicate Aligned(dates: seq<Date>, k: nat, weeks: seq<seq<Cell>>, week: seq<Cell>)
    requires 0 < |dates| && k <= |dates|
  {
    var first := Weekday(dates[0]);
    && (forall w :: 0 <= w < |weeks| ==> |weeks[w]| == 7 && InColumns(weeks[w]))
    && |week| == (if k == 0 then first else Weekday(dates[k - 1]) + 1)
    && InColumns(week)
    && 7 * |weeks| + |week| == first + k
  }

  /** One step of the `forEach`: close the open row at a Sunday, then add the date. */
  predicate Placed(weeks0: seq<seq<Cell>>, week0: seq<Cell>, d: Date, weeks: seq<seq<Cell>>, week: seq<Cell>) {
    if Weekday(d) == 0 && |week0| > 0 then weeks == weeks0 + [week0] && week == [Some(d)]
    else weeks == weeks0 && week == week0 + [Some(d)]
  }

  lemma StepPartial(dates: seq<Date>, k: nat, weeks0: seq<seq<Cell>>, week0: seq<Cell>,
                    weeks: seq<seq<Cell>>, week: seq<Cell>)
    requires k < |dates| && Partial(dates, k, weeks0, week0)
    requires Placed(weeks0, week0, dates[k], weeks, week)
    ensures Partial(dates, k + 1, weeks, week)
  {
    StepCovers(dates, k, weeks0, week0, weeks, week);
    StepSundayRows(weeks0, week0, dates[k], weeks, week);
    StepStarts(dates, k, weeks0, week0, weeks, week);
  }

  lemma StepCovers(dates: seq<Date>, k: nat, weeks0: seq<seq<Cell>>, week0: seq<Cell>,
                   weeks: seq<seq<Cell>>, week: seq<Cell>)
    requires k < |dates| && Covers(dates, k, weeks0, week0)
    requires Placed(weeks0, week0, dates[k], weeks, week)
    ensures Covers(dates, k + 1, weeks, week)
  {
    var d := dates[k];
    var first := Weekday(dates[0]);
    assert AsCells(dates[..k + 1]) == AsCells(dates[..k]) + [Some(d)];
    assert Padding(first) + AsCells(dates[..k + 1]) == (Padding(first) + AsCells(dates[..k])) + [Some(d)];
    if Weekday(d) == 0 && |week0| > 0 {
      FlattenPush(weeks0, week0);
    }
    assert Flatten(weeks) + week == (Flatten(weeks0) + week0) + [Some(d)];
  }

  lemma StepSundayRows(weeks0: seq<seq<Cell>>, week0: seq<Cell>, d: Date, weeks: seq<seq<Cell>>, week: seq<Cell>)
    requires SundayRows(weeks0, week0)
    requires Placed(weeks0, week0, d, weeks, week)
    ensures SundayRows(weeks, week)
  {
  }

  lemma StepStarts(dates: seq<Date>, k: nat, weeks0: seq<seq<Cell>>, week0: seq<Cell>,
                   weeks: seq<seq<Cell>>, week: seq<Cell>)
    requires k < |dates| && Starts(dates, k, weeks0, week0)
    requires Placed(weeks0, week0, dates[k], weeks, week)
    ensures Starts(dates, k + 1, weeks, week)
  {
    var first := Weekday(dates[0]);
    if !(Weekday(dates[k]) == 0 && |week0| > 0) && k > 0 && weeks == [] {
      assert week[..first] == week0[..first];
    }
  }

  lemma StepAligned(dates: seq<Date>, k: nat, weeks0: seq<seq<Cell>>, week0: seq<Cell>,
                    weeks: seq<seq<Cell>>, week: seq<Cell>)
    requires k < |dates| && Consecutive(dates) && Aligned(dates, k, weeks0, week0)
    requires Placed(weeks0, week0, dates[k], weeks, week)
    ensures Aligned(dates, k + 1, weeks, week)
  {
    var d := dates[k];
    var w := Weekday(d);
    if k > 0 {
      NextWeekday(dates[k - 1], d);
      WeekdayWrap(Weekday(dates[k - 1]), w);
    }
    assert |week0| == w || (w == 0 && |week0| == 7);
    if w == 0 && |week0| > 0 {
      assert |week0| == 7 && week == [Some(d)];
    } else {
      assert |week0| == w && week == week0 + [Some(d)];
      assert forall j :: 0 <= j < |week0| ==> week[j] == week0[j];
    }
  }

  /** The weekday after `w0`, modulo seven: Sunday follows Saturday, otherwise one more. */
  lemma WeekdayWrap(w0: int, w: int)
    requires 0 <= w0 < 7 && w == (w0 + 1) % 7
    ensures w == 0 <==> w0 == 6
    ensures w != 0 ==> w == w0 + 1
  {
  }

  /** After the last date the open row is not empty; closing it completes the partition. */
  lemma FinishPartition(dates: seq<Date>, weeks0: seq<seq<Cell>>, week: seq<Cell>)
    requires |dates| > 0 && Partial(dates, |dates|, weeks0, week)
    ensures week != []
    ensures WeekPartition(dates, weeks0 + [week])
  {
    assert dates[..|dates|] == dates;
    FlattenPush(weeks0, week);
  }

  /** For consecutive dates the closed rows also make up the month layout. */
  lemma FinishLayout(dates: seq<Date>, weeks0: seq<seq<Cell>>, week: seq<Cell>)
    requires |dates| > 0 && week != [] && Covers(dates, |dates|, weeks0, week)
    requires Aligned(dates, |dates|, weeks0, week)
    ensures MonthLayout(dates, weeks0 + [week])
  {
    FinishRows(dates, weeks0, week);
    FinishCount(dates, weeks0, week);
    FinishPositions(dates, weeks0, week);
  }

  lemma FinishRows(dates: seq<Date>, weeks0: seq<seq<Cell>>, week: seq<Cell>)
    requires |dates| > 0 && Aligned(dates, |dates|, weeks0, week)
    ensures var weeks := weeks0 + [week];
            FullRows(weeks) && forall w :: 0 <= w < |weeks| ==> |weeks[w]| <= 7 && InColumns(weeks[w])
  {
  }

  lemma FinishCount(dates: seq<Date>, weeks0: seq<seq<Cell>>, week: seq<Cell>)
    requires |dates| > 0 && week != [] && Aligned(dates, |dates|, weeks0, week)
    ensures |weeks0 + [week]| == (Weekday(dates[0]) + |dates| + 6) / 7
  {
    var first := Weekday(dates[0]);
    assert 7 * |weeks0| + |week| == first + |dates| && 1 <= |week| <= 7;
    RowCount(|weeks0|, |week|, first + |dates|);
  }

  lemma RowCount(full: int, last: int, cells: int)
    requires 7 * full + last == cells && 1 <= last <= 7
    ensures (cells + 6) / 7 == full + 1
  {
  }

  lemma FinishPositions(dates: seq<Date>, weeks0: seq<seq<Cell>>, week: seq<Cell>)
    requires |dates| > 0 && Covers(dates, |dates|, weeks0, week)
    requires Aligned(dates, |dates|, weeks0, week)
    ensures DatesFrom(weeks0 + [week], Weekday(dates[0]), dates)
  {
    assert dates[..|dates|] == dates;
    FlattenPush(weeks0, week);
    FinishRows(dates, weeks0, week);
    FullRowsPositions(weeks0 + [week], Weekday(dates[0]), dates);
  }

  /** Read in rows of seven, the padding followed by the dates puts date k at cell first + k. */
  lemma FullRowsPositions(weeks: seq<seq<Cell>>, first: nat, dates: seq<Date>)
    requires FullRows(weeks) && forall w :: 0 <= w < |weeks| ==> |weeks[w]| <= 7
    requires Flatten(weeks) == Padding(first) + AsCells(dates)
    ensures DatesFrom(weeks, first, dates)
  {
    forall k | 0 <= k < |dates|
      ensures PlacedAt(weeks, first + k, dates[k])
    {
      var p := first + k;
      FlattenFullRows(weeks, p);
      assert Flatten(weeks)[p] == AsCells(dates)[k];
    }
  }

  lemma FlattenPush(weeks: seq<seq<Cell>>, week: seq<Cell>)
    ensures Flatten(weeks + [week]) == Flatten(weeks) + week
  {
    assert (weeks + [week])[..|weeks|] == weeks;
  }

  /** With full rows, the p-th cell read in order is at row p / 7, column p % 7. */
  lemma {:induction false} FlattenFullRows(weeks: seq<seq<Cell>>, p: int)
    requires FullRows(weeks) && forall w :: 0 <= w < |weeks| ==> |weeks[w]| <= 7
    requires 0 <= p < |Flatten(weeks)|
    ensures p / 7 < |weeks| && p % 7 < |weeks[p / 7]| && Flatten(weeks)[p] == weeks[p / 7][p % 7]
    decreases |weeks|
  {
    var n := |weeks| - 1;
    var prefix := weeks[..n];
    FlattenLength(prefix);
    if p < |Flatten(prefix)| {
      FlattenFullRows(prefix, p);
    } else {
      assert |Flatten(prefix)| == 7 * n;
      assert p / 7 == n && p % 7 == p - 7 * n;
    }
  }

  /** Full rows of seven cells read out to seven cells each. */
  lemma {:induction false} FlattenLength(weeks: seq<seq<Cell>>)
    requires forall w :: 0 <= w < |weeks| ==> |weeks[w]| == 7
    ensures |Flatten(weeks)| == 7 * |weeks|
    decreases |weeks|
  {
    if weeks != [] {
      FlattenLength(weeks[..|weeks| - 1]);
    }
  }

  /** Every dated cell of the partition holds one of the input dates. */
  lemma CellsAreDates(dates: seq<Date>, weeks: seq<seq<Cell>>)
    requires |dates| > 0 && WeekPartition(dates, weeks)
    ensures forall w, j :: 0 <= w < |weeks| && 0 <= j < |weeks[w]| && weeks[w][j].Some? ==>
              weeks[w][j].value in dates
  {
    forall w, j | 0 <= w < |weeks| && 0 <= j < |weeks[w]| && weeks[w][j].Some?
      ensures weeks[w][j].value in dates
    {
      FlattenContains(weeks, w, j);
      var cells := Padding(Weekday(dates[0])) + AsCells(dates);
      var first := Weekday(dates[0]);
      var p :| 0 <= p < |cells| && cells[p] == weeks[w][j];
      assert forall q :: 0 <= q < first ==> cells[q] == None;
      assert p >= first;
      assert cells[p] == AsCells(dates)[p - first] == Some(dates[p - first]);
    }
  }

  lemma {:induction false} FlattenContains(weeks: seq<seq<Cell>>, w: int, j: int)
    requires 0 <= w < |weeks| && 0 <= j < |weeks[w]|
    ensures weeks[w][j] in Flatten(weeks)
    decreases |weeks|
  {
    var n := |weeks| - 1;
    if w < n {
      FlattenContains(weeks[..n], w, j);
    } else {
      assert Flatten(weeks)[|Flatten(weeks[..n])| + j] == weeks[w][j];
    }
  }

  /** Row i, column j of rows that are full but for the last is cell 7 * i + j of the rows read in order. */
  lemma {:induction false} FlattenCell(weeks: seq<seq<Cell>>, i: int, j: int)
    requires FullRows(weeks) && forall w :: 0 <= w < |weeks| ==> |weeks[w]| <= 7
    requires 0 <= i < |weeks| && 0 <= j < |weeks[i]|
    ensures 7 * i + j < |Flatten(weeks)| && Flatten(weeks)[7 * i + j] == weeks[i][j]
    decreases |weeks|
  {
    var n := |weeks| - 1;
    var prefix := weeks[..n];
    FlattenLength(prefix);
    if i < n {
      FlattenCell(prefix, i, j);
    }
  }

  /** All the rows but the last are full, so the cells read in order end inside the last row. */
  lemma FlattenEnd(weeks: seq<seq<Cell>>)
    requires |weeks| > 0 && FullRows(weeks)
    ensures |Flatten(weeks)| == 7 * (|weeks| - 1) + |weeks[|weeks| - 1]|
  {
    FlattenLength(weeks[..|weeks| - 1]);
  }

  /**
   * The rows of a month leave empty exactly the slots before the first date
   * and after the last one: slot (i, j) is dated if and only if
   * first <= 7 * i + j < first + n.
   */
  lemma EmptySlots(dates: seq<Date>, weeks: seq<seq<Cell>>)
    requires |dates| > 0 && WeekPartition(dates, weeks) && MonthLayout(dates, weeks)
    ensures SlotsOfDays(weeks, Weekday(dates[0]), |dates|)
  {
    var first := Weekday(dates[0]);
    var cells := Padding(first) + AsCells(dates);
    FlattenEnd(weeks);
    forall i, j | 0 <= i < |weeks| && 0 <= j < 7
      ensures CellAt(weeks[i], j).Some? <==> first <= 7 * i + j < first + |dates|
    {
      if j < |weeks[i]| {
        FlattenCell(weeks, i, j);
        assert CellAt(weeks[i], j) == cells[7 * i + j];
      } else {
        assert i == |weeks| - 1;
      }
    }
  }
}

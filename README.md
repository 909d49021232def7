# Shift calendar (`CalendarApp`) in Dafny

A model of the `CalendarApp` page of the shift-board application. The page
lets a user:

- generate the days of a month;
- type pending rows, each with a professional's name, a period ("Diurno" or
  "Noturno"), a free-text list of days and a paid-in-cash flag;
- submit the rows as schedules;
- see the month as a grid of weeks, where each day lists the schedules that
  work on it and is flagged when two of them share a period.

The modules follow the parts of the component:

- `Dates`: the calendar dates the page builds with `new Date(...)`. It gives
  the length of a month, the two-digit-year rule, the next day, and the
  weekday that `getDay()` returns. The weekday is a proleptic Gregorian day
  count taken modulo 7, proved equal to the closed form with the 4/100/400
  leap rule.
- `DayList`: the day-list parser `split(/[ ,.]+/)`, `trim`, dropping empty
  tokens, `Number` and the positive filter. It is proved piece by piece:
  - what `split` yields;
  - how the parse of a concatenation splits at a separator;
  - the numeral round trip;
  - which numbers come out.
- `Weeks`: `getWeeks`, an imperative loop proved against the partition it
  builds and, for a month of consecutive days, the grid layout.
- `Schedules`: pending rows and their validation, the submitted batch, row
  edits and removal, the per-day lookup and the overlap flag.
- `Calendar`: the component itself, as the class `CalendarApp`:
  - its three pieces of state, `days`, `schedules` and `tempSchedules`;
  - one method per handler;
  - `Render`, the grid of cells without the drawing.

## Model

| member | source | states |
|---|---|---|
| Dates.DaysInMonth | src/components/Calendar/index.tsx:39 | the last day of a month (day 0 of the next one) is between 28 and 31 |
| Dates.Weekday | src/components/Calendar/index.tsx:108 | `getDay()` is a weekday number from 0 (Sunday) to 6 |
| Dates.Tomorrow | src/components/Calendar/index.tsx:42-43 | the next date starts a month exactly after the month's last day, and changes the year only from 31 December to 1 January of the next year |
| Dates.YearLength | src/components/Calendar/index.tsx:39 | the twelve month lengths add up to the year's 365 or 366 days |
| Dates.DaysBeforeYearClosedForm | src/components/Calendar/index.tsx:108 | the day count before a year equals the Gregorian closed form 365(y-1) + (y-1)/4 - (y-1)/100 + (y-1)/400, for all years |
| Dates.TomorrowIsNextDay | src/components/Calendar/index.tsx:42-43 | the date of the next loop step is exactly one day later |
| Dates.TomorrowWeekday | src/components/Calendar/index.tsx:113-114 | the next day's weekday is one more, modulo 7 |
| Dates.WeekdayClosedForm | src/components/Calendar/index.tsx:108 | the weekday of a date in closed form from its year, month and day |
| Dates.EpochWeekday | src/components/Calendar/index.tsx:108 | 1 January 1970 is a Thursday (4), which anchors the count to the JavaScript calendar |
| Dates.February2025Weekday | src/components/Calendar/index.tsx:108 | 1 February 2025 is a Saturday (6) |
| DayList.Split | src/components/Calendar/index.tsx:55 | splitting always yields at least one piece |
| DayList.SplitNoSeparator | src/components/Calendar/index.tsx:55 | no piece of the split holds a space, comma or dot |
| DayList.SplitConcat | src/components/Calendar/index.tsx:55 | the pieces put back together are the text without its separators, in order |
| DayList.SplitInnerPieces | src/components/Calendar/index.tsx:55 | a run of separators makes a single cut: no inner piece is empty, nor the first piece when the text starts with a non-separator |
| DayList.SplitTrailingSeparator | src/components/Calendar/index.tsx:55 | a text ending in a separator splits into at least two pieces, and the last one is empty |
| DayList.TrimStartSpec | src/components/Calendar/index.tsx:56 | trimming the start leaves a suffix of the text, starting with a non-white-space character or empty, after a prefix of white space only |
| DayList.TrimEndSpec | src/components/Calendar/index.tsx:56 | trimming the end leaves a prefix of the text, ending with a non-white-space character or empty, before a tail of white space only |
| DayList.TrimSpec | src/components/Calendar/index.tsx:56 | the text is white space, then the trimmed token, then white space; the trimmed token is empty or starts and ends with a non-white-space character |
| DayList.TrimFixedPoint | src/components/Calendar/index.tsx:56 | trimming leaves a text unchanged if and only if it is empty or neither starts nor ends with white space |
| DayList.TokensClean | src/components/Calendar/index.tsx:55-57 | every token that reaches `Number` is non-empty, holds no space, comma or dot, and neither starts nor ends with white space |
| DayList.DropEmptyKeeps | src/components/Calendar/index.tsx:57 | every token kept by the filter is one of the trimmed pieces |
| DayList.DropEmptyMembers | src/components/Calendar/index.tsx:57 | a token is kept by the filter if and only if it is one of the trimmed pieces and is not empty |
| DayList.DropEmpty | src/components/Calendar/index.tsx:57 | the filter keeps no empty token and never grows the list |
| DayList.ToNumber | src/components/Calendar/index.tsx:58 | a token that reads as a number is non-empty, and with a leading minus its value is not positive; the converse shapes are in `ToNumberCanonical` and `PaddedNumeral` |
| DayList.ToNumberCanonical | src/components/Calendar/index.tsx:58 | a token reads as n only in the shapes zeros then the numeral of n, a plus sign then that, or (for n < 0, or n = 0) a minus sign, zeros and the numeral of -n |
| DayList.PaddedNumeral | src/components/Calendar/index.tsx:58 | leading zeros and a leading '+' do not change the value read, and a leading '-' negates it |
| DayList.DigitsCanonical | src/components/Calendar/index.tsx:58 | every string of digits is some zeros followed by the numeral of its value |
| DayList.ToNumbersAppend | src/components/Calendar/index.tsx:58 | the conversion maps each token on its own, so it distributes over concatenation |
| DayList.KeepPositive | src/components/Calendar/index.tsx:59 | only positive numbers pass the filter |
| DayList.KeepPositiveMembers | src/components/Calendar/index.tsx:59 | a number passes the filter if and only if it is present and positive |
| DayList.ParseDays | src/components/Calendar/index.tsx:54-59 | every parsed day is positive |
| DayList.ParseDaysMembers | src/components/Calendar/index.tsx:54-59 | n is a parsed day if and only if n > 0 and some token of the text reads as n |
| DayList.NumeralRoundTrip | src/components/Calendar/index.tsx:58 | the decimal numeral of n reads back as n |
| DayList.TokensAppend | src/components/Calendar/index.tsx:55-57 | the tokens of a, a separator, then b are the tokens of a followed by those of b |
| DayList.ParseDaysAppend | src/components/Calendar/index.tsx:54-59 | the days of a, a separator, then b are the days of a followed by those of b |
| DayList.ParseDaysSeparatorRun | src/components/Calendar/index.tsx:54-59 | any non-empty run of separators between two texts acts like a single one |
| DayList.SingleToken | src/components/Calendar/index.tsx:54-59 | a word with no separator and no edge white space is one token, and it gives a day exactly when it reads as a positive number |
| DayList.ParseNumeral | src/components/Calendar/index.tsx:54-59 | the numeral of a positive n parses to the single day n |
| DayList.MixedSeparators | src/components/Calendar/index.tsx:55 | four positive numbers joined by ", ", ".", and two spaces parse to those four numbers, in order |
| DayList.ParseZero | src/components/Calendar/index.tsx:59 | "0" gives no day |
| DayList.ParseNegative | src/components/Calendar/index.tsx:59 | a negative number gives no day |
| DayList.NoValidDay | src/components/Calendar/index.tsx:58-59 | zero, a negative number and a word that is not a number, separated by ", ", give no day |
| DayList.ExampleDays | src/components/Calendar/index.tsx:54-59 | "1, 2.3  4" gives the days 1, 2, 3, 4 |
| DayList.ExampleNoDays | src/components/Calendar/index.tsx:54-59 | "0, -1, abc" gives no day |
| DayList.ParseDigits | src/components/Calendar/index.tsx:54-59 | a string of digits with a positive value parses to that single day |
| DayList.ParsePlusDigits | src/components/Calendar/index.tsx:54-59 | the same digits after a plus sign parse to the same single day |
| DayList.ParsePadded | src/components/Calendar/index.tsx:54-59 | a positive numeral after any number of zeros parses to its value |
| DayList.PaddedThenPlus | src/components/Calendar/index.tsx:54-59 | a zero-padded numeral, separators, then the numeral after a plus sign give that day twice |
| DayList.PaddedExample | src/components/Calendar/index.tsx:54-59 | "05, +5" gives the day 5 twice |
| Weeks.GetWeeks | src/components/Calendar/index.tsx:104-126 | read in order, the rows are the padding followed by the dates; no row is empty; every row after the first starts on a Sunday; no row has a Sunday inside it. For consecutive dates: every row but the last has 7 cells, and there are (first + n + 6) / 7 rows. Each date sits in its weekday's column, and date k is at row (first + k) / 7, column (first + k) % 7 |
| Weeks.CellsAreDates | src/components/Calendar/index.tsx:104-126 | every filled cell of the rows holds one of the input dates |
| Weeks.EmptySlots | src/components/Calendar/index.tsx:104-126 | for the days of a month, the slot at row i, column j (read as `week[day]`, line 134) holds a date if and only if first <= 7i + j < first + n: the padding and the slots after the last day are empty |
| Schedules.Validate | src/components/Calendar/index.tsx:53-68 | a row is dropped if and only if its days parse to nothing; otherwise it keeps its name, period and flag, takes the parsed days, and is well formed |
| Schedules.NewSchedules | src/components/Calendar/index.tsx:52-70 | the batch has no more schedules than there were rows, each with at least one positive day |
| Schedules.DropNullsAppend | src/components/Calendar/index.tsx:70 | removing the dropped rows distributes over concatenation |
| Schedules.DropNullsMembers | src/components/Calendar/index.tsx:70 | a schedule survives the null filter if and only if it was a non-null result |
| Schedules.NewSchedulesAppend | src/components/Calendar/index.tsx:52-70 | the batch of two lists of rows is the batch of the first followed by the batch of the second |
| Schedules.NewSchedulesSingle | src/components/Calendar/index.tsx:52-70 | one row gives no schedule when its days parse to nothing, and otherwise exactly its validated schedule |
| Schedules.NewSchedulesEmpty | src/components/Calendar/index.tsx:61-75 | the batch is empty if and only if no row has a valid day |
| Schedules.NewSchedulesMembers | src/components/Calendar/index.tsx:52-70 | a schedule is in the batch if and only if it is the validation of some row |
| Schedules.ApplyEdit | src/components/Calendar/index.tsx:88 | the edited field takes the new value |
| Schedules.ApplyEditOthers | src/components/Calendar/index.tsx:88 | the other three fields of the row are unchanged |
| Schedules.RemoveAt | src/components/Calendar/index.tsx:100 | the row at an index in range is removed and the others stay in order; an index out of range removes nothing |
| Schedules.SchedulesOn | src/components/Calendar/index.tsx:135-139 | every schedule listed for a day works on that day |
| Schedules.SchedulesOnMembers | src/components/Calendar/index.tsx:135-139 | a schedule is listed for a day if and only if it is a schedule and works on that day |
| Schedules.SchedulesOnAppend | src/components/Calendar/index.tsx:135-139 | the lookup distributes over concatenation, so schedules added later appear after the earlier ones |
| Schedules.SamePeriodIn | src/components/Calendar/index.tsx:144-145 | true if and only if some schedule in the list has the given period |
| Schedules.HasOverlap | src/components/Calendar/index.tsx:142-146 | fewer than two schedules never overlap |
| Schedules.HasOverlapSpec | src/components/Calendar/index.tsx:142-146 | the flag is raised if and only if two distinct schedules of the cell share a period |
| Schedules.ThreeOverlap | src/components/Calendar/index.tsx:142-146 | with only the two periods, three or more schedules on a day always raise the flag |
| Calendar.MonthDates | src/components/Calendar/index.tsx:38-45 | the month's dates are day 1 to the last day of the month, in order, each the day after the previous one |
| Calendar.CellFor | src/components/Calendar/index.tsx:133-146 | an empty slot shows no schedule and no flag; a dated cell shows the schedules of its day of the month; the flag is raised if and only if two of them share a period |
| Calendar.GridCells | src/components/Calendar/index.tsx:129-156 | every dated cell of the grid holds a day of the month, in the column of its weekday |
| Calendar.GridPositions | src/components/Calendar/index.tsx:129-156 | day k of the month is drawn at row (first + k) / 7, column (first + k) % 7 |
| Calendar.ShownDates | src/components/Calendar/index.tsx:131-134 | the grid has one row per week and seven cells per row, and cell (i, j) shows the date at `week[j]`, or none past the end of the row |
| Calendar.WiderRowsKeepPlaces | src/components/Calendar/index.tsx:131-134 | drawing seven cells per row keeps every date at the row and column it had in the weeks |
| Calendar.GridSlots | src/components/Calendar/index.tsx:131-156 | a cell of the grid shows a date if and only if its position 7i + j lies between first and first + n - 1: the cells before day 1 and after the last day are empty |
| Calendar.GridSchedules | src/components/Calendar/index.tsx:133-146 | every cell of the grid shows the schedules and the flag for its date |
| Calendar.February2025Rows | src/components/Calendar/index.tsx:104-126 | February 2025 is drawn over five week rows |
| Calendar.CalendarApp.constructor | src/components/Calendar/index.tsx:32-36 | the page starts with no days, no schedules and one blank pending row |
| Calendar.CalendarApp.Generate | src/components/Calendar/index.tsx:38-46 | the days become the chosen month's dates; schedules and pending rows are unchanged |
| Calendar.CalendarApp.Submit | src/components/Calendar/index.tsx:48-80 | the submission is accepted if and only if some pending row has a valid day. If accepted, the batch is appended to the schedules and the form is reset to one blank row. If rejected, nothing changes. The days never change |
| Calendar.CalendarApp.ChangeRow | src/components/Calendar/index.tsx:82-90 | only the row at the index changes, by the edit; days and schedules are unchanged |
| Calendar.CalendarApp.AddRow | src/components/Calendar/index.tsx:92-97 | a blank row is appended to the pending rows; nothing else changes |
| Calendar.CalendarApp.RemoveRow | src/components/Calendar/index.tsx:99-102 | the row at the index is removed, or nothing changes when the index is out of range; days and schedules are unchanged |
| Calendar.CalendarApp.Clear | src/components/Calendar/index.tsx:180-184 | back to the initial state |
| Calendar.CalendarApp.Render | src/components/Calendar/index.tsx:128-178 | (first + n + 6) / 7 rows of seven cells; day k at row (first + k) / 7, column (first + k) % 7; every dated cell in its weekday's column; a cell is dated if and only if first <= 7i + j < first + n, so the padding and the cells after the last day are empty; every cell with its day's schedules and overlap flag |

## Left out

- The drawing: the table markup, headers, cell colours, schedule colours by
  period and the "PG" label. Only the content of each cell is modelled.
- The form fields for month and year (`setMonth`, `setYear`). They become
  the parameters of `Generate`. The month select offers only 1..12, which
  is the precondition.
- The year typed into the form is read with `Number`, so it may be a
  fraction or NaN. The model takes an integer year.
- `Date` behaviour beyond what the page relies on is not modelled: time
  zones and out-of-range months or days. The two-digit-year rule is
  modelled, because `new Date(year, ...)` applies it.
- Calendar.MonthDates: returns the full month for every integer year. A
  JavaScript time value only spans 8.64e15 ms either side of 1970, about
  the years -271821 to 275760. Outside that range `new Date(year, month, 0)`
  is an invalid date, `getDate()` is NaN, the loop of `handleGenerate` does
  not run and the days become empty. The model does not have this limit.
- `Number` is modelled for an optional sign followed by decimal digits.
  Other inputs are not modelled and give no day here:
  - hexadecimal, binary and octal prefixes;
  - exponents and fractions ("1.5" never reaches `Number`, because "." is
    a separator);
  - the word "Infinity".
- DayList.ToNumber: reads a token as an exact integer. `Number` gives a
  double: above 2^53 the value is rounded, and above about 1.8e308 it
  becomes Infinity, which is still positive and kept. The model keeps the
  exact value, so such a day is never rounded, and no day is kept or
  dropped differently.
- `alert` is modelled as `Submit` returning `false`. `preventDefault` is
  not modelled.
- React's state updates are applied at once. The asynchrony of `useState`
  and re-rendering are not modelled.
- The wrapper page, `src/pages/Home/index.tsx`, only mounts the component.
  It is not part of this model.
- Calendar.CalendarApp.ChangeRow: requires the index to be in range. The
  form only calls it with the index of a row it is drawing, and the field
  and value pair becomes the typed `RowEdit`.
- Weeks.GetWeeks: requires at least one date, because `dates[0]` is read
  unguarded. On an empty list the code throws instead of returning no
  rows, and the page only calls it when there are days.

## Notes

- 1 February 2025 is a Saturday, so February 2025 is drawn over five week
  rows: one for the 1st alone, then four more (`Calendar.February2025Rows`).
- `getWeeks` reads `dates[0]` without checking that the list is non-empty
  (src/components/Calendar/index.tsx:108), hence the precondition of
  `Weeks.GetWeeks`.

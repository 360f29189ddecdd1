# Habit tracker core, modelled in Dafny

This project models the logic of `HabitTrackerApp` in `myhabit_tracker.py`, a
desktop habit tracker. The user interface is not modelled. The model covers:

- **Registry.** `self.habits` maps a habit name to a record holding a
  description, a creation date and a completion history. The history maps
  dates to booleans.
- **Mutators.** The add-habit dialog parses `"name, description"` and then
  inserts the record, refusing an empty or duplicate name. "Mark done" stores
  `True` for today. "Mark undone" deletes today's entry. "Delete" removes the
  habit.
- **Progress report** (`display_habit_progress`):
  - the current streak, a backward walk from today;
  - the longest streak, computed as the code computes it;
  - the completion percentage;
  - the completion calendar, with one `calendar.monthcalendar` grid per month
    from the first recorded month through today's month, and done days marked.

Dates are day ordinals, as `date.toordinal()` returns them (0001-01-01 is 1).
Conversions to and from (year, month, day) follow the proleptic Gregorian
calendar (leap-year rule of Appendix C of RFC 3339). Going back one day is
`d - 1`, and a difference of dates is a subtraction.

Modules:

| file | module | contents |
|---|---|---|
| `dates.dfy` | `Dates` | calendar arithmetic, ordinals, weekdays, month stepping |
| `text.dfy` | `Text` | `str.split(sep)` and `str.strip()` |
| `habits.dfy` | `Habits` | history, input parsing, the `HabitRegistry` class and its mutators |
| `streaks.dfy` | `Streaks` | current streak, longest streak as coded, a calendar-contiguous longest streak |
| `progress.dfy` | `Progress` | completion percentage |
| `calendar_view.dfy` | `CalendarView` | `monthcalendar`, the rendered month grids, the month loop |

The source changes state step by step in these places, and the model does the same:

- The registry is a class whose methods update `habits` (a `map`) and `order`
  (the dictionary's insertion order, a `seq`).
- The streak scans, the week and day loops of the calendar, and the month loop
  are methods with `while` loops. The longest streak as coded and the calendar
  loops are proved equal to specification functions (`MaxRun`, `WeekCells`,
  `MonthGrid`, `ViewOf`). The current streak and the calendar-contiguous streak
  are proved against the properties that characterise them (the done days
  ending today, and the longest run of consecutive done days).

Pure computations are functions:

- parsing;
- sorting the keys;
- the percentage;
- `monthcalendar`.

## Model

| member | source | states |
|---|---|---|
| Habits.HabitRegistry.constructor | myhabit_tracker.py:17 | the registry starts empty, with a consistent key order and (vacuously) all-true histories |
| Habits.HabitRegistry.Add | myhabit_tracker.py:106-128 | `None` input cancels; an empty stripped name is refused; a name already present is refused and nothing changes; otherwise exactly one new key is added, mapped to (description, today, empty history), and appended to the key order while the other records are unchanged |
| Habits.ParseHabitInput | myhabit_tracker.py:111-113 | defines the parse (`split(',')`, then `strip()` of the first and, if present, second field); its meaning is proved by `ParseHabitName`, `ParseHabitDescription` and `ParseHabitNoDescription` |
| Habits.ParseHabitName | myhabit_tracker.py:111-112 | the name is the stripped text before the first comma, or the whole stripped input when there is no comma |
| Habits.ParseHabitDescription | myhabit_tracker.py:111-113 | with a comma, the description is the stripped text between the first comma and the next comma or the end |
| Habits.ParseHabitNoDescription | myhabit_tracker.py:113 | without a comma the description is `""` |
| Habits.IndexOf | myhabit_tracker.py:111 | the result is the position of the first occurrence, or the length when there is none, and no earlier position holds the character |
| Habits.IndexOfUnique | myhabit_tracker.py:111 | a separator-free prefix that ends at a separator or at the end is exactly the prefix up to the first separator |
| Habits.NoSecondField | myhabit_tracker.py:113 | an input without a comma splits into one field, so `len(parts) > 1` is false |
| Habits.SecondFieldIsNextSegment | myhabit_tracker.py:111-113 | with a comma, `parts[1]` is the text from just after the first comma up to the next comma or the end |
| Text.Split | myhabit_tracker.py:111 | `split(sep)` gives one more field than there are separators; no field contains the separator; joining the fields with the separator gives back the input |
| Text.JoinFirst | myhabit_tracker.py:111 | putting a character in front of the first field puts it in front of the joined string |
| Text.SplitFirstField | myhabit_tracker.py:111-112 | `parts[0]` is the prefix before the first separator, or the whole input when there is none |
| Text.SplitSecondField | myhabit_tracker.py:111-113 | when the separator occurs, `parts[1]` is the segment from after the first separator up to the next one or the end |
| Text.CountPositive | myhabit_tracker.py:111 | a character occurs in a string exactly when its count is positive |
| Text.SkipSpaces | myhabit_tracker.py:112 | the leading scan of `strip()` stops at the first non-whitespace character at or after the start, having passed only whitespace |
| Text.TrimSpaces | myhabit_tracker.py:112 | the trailing scan of `strip()` stops after the last non-whitespace character, having passed only whitespace |
| Text.Strip | myhabit_tracker.py:112-113 | the result is the infix of the input with only whitespace before and after it, and it neither starts nor ends with whitespace |
| Text.StripEmpty | myhabit_tracker.py:115 | the stripped name is empty (`not habit_name`) exactly when the input field is all whitespace |
| Text.StripIdempotent | myhabit_tracker.py:112 | stripping twice equals stripping once |
| Habits.HabitRegistry.MarkDone | myhabit_tracker.py:169-172 | `saved` is true exactly when the name exists; the registry becomes `WithDayMarked`, and the key order, the registry invariant and all-true histories are kept |
| Habits.WithDayMarked | myhabit_tracker.py:171-172 | the same names; every other habit unchanged; the named habit has today done, and its description and creation date are kept |
| Habits.MarkDay | myhabit_tracker.py:172 | today is done afterwards; the key set gains today; every other entry is unchanged |
| Habits.HabitRegistry.MarkUndone | myhabit_tracker.py:177-180 | `saved` is true exactly when the name exists and today is a key of its history; the registry becomes `WithDayUnmarked`; the invariants are kept |
| Habits.WithDayUnmarked | myhabit_tracker.py:179-180 | the same names; every other habit unchanged; today is no longer a key of the named habit's history, and its other fields are kept |
| Habits.UnmarkDay | myhabit_tracker.py:179-180 | today is no longer a key; the key set loses exactly today; every remaining value is unchanged |
| Habits.HabitRegistry.Delete | myhabit_tracker.py:189-191 | `saved` is true exactly when the name exists; the name leaves both the map and the key order; the order loses exactly that name's position, the other names keeping their insertion order, and stays duplicate-free |
| Habits.Without | myhabit_tracker.py:191 | exactly that key is removed and every remaining record is unchanged |
| Habits.Removed | myhabit_tracker.py:191 | the key order afterwards holds exactly the other names and is no longer |
| Habits.RemovedKeepsDistinct | myhabit_tracker.py:191 | removing a name from a duplicate-free order leaves it duplicate-free |
| Habits.RemovedCutsOut | myhabit_tracker.py:191 | in a duplicate-free order, removing a present name cuts out exactly its position, so the remaining names keep their insertion order |
| Habits.RemovedAbsent | myhabit_tracker.py:190 | removing an absent name leaves the order unchanged |
| Habits.IsDone | myhabit_tracker.py:256 | defines the test `d in history and history[d]`, used by the current streak (:256) and the calendar mark (:288); `DoneDays`, `MarkDay` and `UnmarkDay` state their contracts through it |
| Habits.DoneDays | myhabit_tracker.py:264 | a date belongs exactly when it is a key with a true value |
| Habits.AllMarksTrueIsKeySet | myhabit_tracker.py:172 | when only `True` is ever stored, the done days are exactly the keys |
| Habits.MarkDayProperties | myhabit_tracker.py:172 | marking twice equals marking once; marking keeps all values true; marking a done day changes nothing |
| Habits.UnmarkDayProperties | myhabit_tracker.py:179-180 | unmarking twice equals unmarking once; unmarking keeps all values true; unmarking undoes a mark on a fresh day |
| Habits.MarkingProperties | myhabit_tracker.py:169-180 | marking and unmarking a habit are idempotent; with an unknown name both leave the registry alone; each changes the named history exactly as `MarkDay`/`UnmarkDay` do |
| Habits.DeleteProperties | myhabit_tracker.py:189-191 | deleting an absent name changes nothing; deleting twice equals deleting once; deleting a present name removes one entry |
| Streaks.Least | myhabit_tracker.py:237 | the result is a member of the non-empty set and no member is smaller |
| Streaks.LeastExists | myhabit_tracker.py:237 | every non-empty finite set of dates has a least element |
| Streaks.Sorted | myhabit_tracker.py:237 | `sorted(keys)` holds exactly the keys, each once, in strictly increasing date order |
| Streaks.PrependIncreasing | myhabit_tracker.py:237 | a date below every element of a strictly increasing sequence keeps it strictly increasing when put in front |
| Streaks.ValuesAt | myhabit_tracker.py:239-243 | position `i` holds the history's value at the `i`-th date |
| Streaks.ValuesInDateOrder | myhabit_tracker.py:237-243 | one value for each key of the history |
| Streaks.CurrentStreak | myhabit_tracker.py:254-258 | every day from `today - streak + 1` to today is done; the day before that is not; the streak is 0 exactly when today is not done; it never exceeds the number of done days |
| Streaks.StreakStep | myhabit_tracker.py:256-258 | one more done day extends the span of done days back by one day, and the span still fits among the done days |
| Streaks.LeadingTrues | myhabit_tracker.py:243-244 | the count is at most the length; every value before it is true; the value at it, if any, is false |
| Streaks.MaxRun | myhabit_tracker.py:249-251 | the longest run is no longer than the sequence |
| Streaks.LongestStreakAsCoded | myhabit_tracker.py:237-251 | the backward scan returns the longest stretch of adjacent true values in date order (`MaxRun` of the values in key order) |
| Streaks.BackScanStep | myhabit_tracker.py:243-250 | one step of the scan keeps its state: a true value extends the running count, and a false value closes it into `longest` |
| Streaks.MaxRunAttained | myhabit_tracker.py:249-251 | some stretch of `MaxRun` adjacent values is all true |
| Streaks.MaxRunBound | myhabit_tracker.py:249-251 | no all-true stretch is longer than `MaxRun` |
| Streaks.LeadingTruesBound | myhabit_tracker.py:243-244 | a true prefix of length `j` gives at least `j` leading trues |
| Streaks.AllTrueMaxRun | myhabit_tracker.py:249-251 | when every value is true, the longest run is the whole sequence |
| Streaks.LongestTrueStretch | myhabit_tracker.py:249-251 | `MaxRun` bounds every all-true stretch, is attained by one and is at most the length |
| Streaks.AsCodedIsLongestTrueStretch | myhabit_tracker.py:237-251 | the reported figure is at least every stretch of keys adjacent in date order with true values, is attained by one, and is at most the number of keys |
| Streaks.AsCodedCountsAllKeys | myhabit_tracker.py:237-251 | when every stored value is true, the figure equals the number of keys, whatever the gaps between the dates |
| Streaks.CurrentWithinAsCoded | myhabit_tracker.py:251-258 | the current streak never exceeds the longest streak as coded |
| Streaks.RunPosition | myhabit_tracker.py:237-258 | the days of a current streak occupy adjacent positions of the sorted keys, and their values are all true |
| Streaks.RunAmongDates | myhabit_tracker.py:237-243 | consecutive done days occupy adjacent positions of any strictly increasing key sequence, and the values read there are true |
| Streaks.SpanInKeys | myhabit_tracker.py:237 | every day of a done span is among the sorted keys and is done |
| Streaks.PositionOf | myhabit_tracker.py:237 | a date in the sorted keys sits at some position |
| Streaks.SpanValuesTrue | myhabit_tracker.py:239-243 | the values read at positions holding consecutive done days are all true |
| Streaks.ConsecutiveDaysAdjacent | myhabit_tracker.py:237 | when consecutive dates are all keys, they occupy consecutive positions of the sorted keys |
| Streaks.LongestCalendarStreak | myhabit_tracker.py:237-251 | the length of the longest run of consecutive calendar days that are all done: it is 0 exactly when nothing is done, some run has that length, and no run is longer |
| Streaks.LongestRun | myhabit_tracker.py:237-251 | the scan over the sorted done days: the result is 0 exactly when the set is empty, some run of consecutive days has that length, and no run is longer |
| Streaks.ScanStep | myhabit_tracker.py:239-250 | one step of the calendar-contiguous scan keeps its state: the run ending at the current day, the best run so far, and the bound on every run ending at a scanned day |
| Streaks.ScanFinish | myhabit_tracker.py:251 | after the last day, the scan's figure is 0 exactly for no done days, is attained, and bounds every run |
| Streaks.RunsEndingAnywhere | myhabit_tracker.py:251 | a bound on runs ending at any scanned day bounds every run |
| Streaks.NextRun | myhabit_tracker.py:243-245 | the maximal run ending at a day extends the one ending the day before when that day is done, and otherwise starts afresh |
| Streaks.RunsEndingUpTo | myhabit_tracker.py:249-251 | runs ending at one of the days scanned so far are bounded by the best run so far, or by the run ending at the current day |
| Streaks.ExtendRun | myhabit_tracker.py:245 | a run followed by a done day is a run one day longer |
| Streaks.EndOfRunIsDone | myhabit_tracker.py:245 | the last day of a non-empty run is done |
| Streaks.DayBeforeMissing | myhabit_tracker.py:245 | where sorted done days do not step by one, the day before is not done |
| Streaks.RunBoundedByStart | myhabit_tracker.py:245 | a run ending where a maximal run ends is no longer than it |
| Streaks.CurrentStreakIsRun | myhabit_tracker.py:254-258 | the days of the current streak form a calendar run |
| Streaks.CalendarWithinAsCoded | myhabit_tracker.py:237-251 | every calendar run is at most the longest streak as coded |
| Streaks.GapCounted | myhabit_tracker.py:239-251 | for five done days starting on any date, with the fourth day missing, the figure as coded is 5 |
| Streaks.GapEndsRun | myhabit_tracker.py:239-251 | on that history the first three days form a run, and no run of consecutive done days is longer than 3 |
| Streaks.GapCountedAsStreak | myhabit_tracker.py:239-251 | on the all-done history {2024-01-01, -02, -03, -05, -06} the figure as coded is 5 |
| Streaks.GapEndsCalendarStreak | myhabit_tracker.py:239-251 | on the same history the longest run of consecutive done days is 3 |
| Progress.CompletedDays | myhabit_tracker.py:264 | defines the count of true values as the size of `DoneDays`; `PercentageBounded` and `MarkingRaisesPercentage` prove its bounds and monotonicity |
| Progress.TotalDays | myhabit_tracker.py:263 | defines the inclusive span length from creation to today; `PercentageFull` relates it to `DaySpan` |
| Progress.CompletionPercentage | myhabit_tracker.py:262-265 | the percentage is non-negative, and it is 0 exactly when the span from creation to today is empty or nothing is done |
| Progress.Percent | myhabit_tracker.py:265 | the result is non-negative; it is 0 exactly when the total is not positive or nothing is completed; for a positive total, result × total = 100 × completed |
| Progress.PercentMonotone | myhabit_tracker.py:265 | more completed days over the same total give a percentage at least as large |
| Progress.PercentFull | myhabit_tracker.py:265 | when completed ≤ total, the percentage is at most 100, and it is exactly 100 when they are equal |
| Progress.PercentageBounded | myhabit_tracker.py:262-265 | when every done day lies between the creation date and today, the percentage lies in [0, 100] |
| Progress.PercentageFull | myhabit_tracker.py:262-265 | in that case the percentage is 100 exactly when every day from creation to today is done |
| Progress.MarkingRaisesPercentage | myhabit_tracker.py:172 | marking a day done never lowers the percentage |
| Progress.ScaleOrder | myhabit_tracker.py:265 | scaling by the same positive total preserves order, and dividing by it reflects it back |
| Progress.SixtyPercent | myhabit_tracker.py:262-265 | three done days over a five-day span give exactly 60 |
| Dates.DaysInMonth | myhabit_tracker.py:278 | a month has 28 to 31 days, and 29 exactly for February of a leap year |
| Dates.DaysBeforeYear | myhabit_tracker.py:241 | the number of days before a year is non-negative |
| Dates.DaysBeforeYearClosedForm | myhabit_tracker.py:241 | the day count before year `y` equals the closed form `p*365 + p/4 - p/100 + p/400` with `p = y - 1` |
| Dates.ClosedFormStep | myhabit_tracker.py:241 | the closed form grows by the length of each year |
| Dates.MonthFollows | myhabit_tracker.py:295-298 | each month starts where the previous one ends, and December ends the year |
| Dates.MonthsOrdered | myhabit_tracker.py:276 | an earlier month of a year ends before a later one starts |
| Dates.MonthWithinYear | myhabit_tracker.py:241 | every month ends within its year |
| Dates.YearFollows | myhabit_tracker.py:296 | each year starts where the previous one ends |
| Dates.YearsOrdered | myhabit_tracker.py:237 | an earlier year ends before a later one starts |
| Dates.ToOrdinal | myhabit_tracker.py:241 | a date's ordinal lies within its year and its month, and is at least 1 |
| Dates.OrdinalMonotone | myhabit_tracker.py:237 | calendar order implies ordinal order |
| Dates.OrdinalInjective | myhabit_tracker.py:237 | distinct dates have distinct ordinals |
| Dates.OrdinalOrder | myhabit_tracker.py:237 | ordinal order and calendar order agree both ways, and so does equality, so sorting by `fromisoformat` sorts the ordinals |
| Dates.LocateInMonth | myhabit_tracker.py:258 | the date found is valid, in year `y`, and has the requested ordinal |
| Dates.LocateInYear | myhabit_tracker.py:258 | the date found is valid and has the requested ordinal |
| Dates.FromOrdinal | myhabit_tracker.py:258 | the date of an ordinal is valid and converts back to that ordinal |
| Dates.OrdinalRoundTrip | myhabit_tracker.py:258 | converting a date to its ordinal and back gives the date |
| Dates.Weekday | myhabit_tracker.py:278 | `weekday()` lies in 0..6, Monday is 0, and it is the ordinal's position in its week |
| Dates.FirstOfMonth | myhabit_tracker.py:274 | `replace(day=1)` is the valid first day of the same year and month, and the date lies within that month |
| Dates.MonthStart | myhabit_tracker.py:274-276 | the first day of the month with a given index is valid and has that index |
| Dates.MonthStartOfIndex | myhabit_tracker.py:274-276 | a first-of-month date is the start of its own month index |
| Dates.NextMonthStart | myhabit_tracker.py:295-298 | stepping from the start of month `i` gives the start of month `i + 1` |
| Dates.NextMonth | myhabit_tracker.py:295-298 | the step gives the first of the next month (January of the next year after December): the index is one more, and the ordinal is one month's length later |
| Dates.MonthStartOrder | myhabit_tracker.py:276 | comparing first-of-month dates compares their month indices, both ways |
| Dates.DaySpan | myhabit_tracker.py:256-258 | the span holds exactly the days from `first` to `last`, and has that many elements |
| Dates.SubsetSize | myhabit_tracker.py:264 | a subset is no larger |
| Dates.StrictSubsetSize | myhabit_tracker.py:264 | a proper subset is smaller |
| CalendarView.Zeros | myhabit_tracker.py:278 | `n` padding cells, all 0 |
| CalendarView.DayNumbers | myhabit_tracker.py:278 | the day numbers 1..n in order |
| CalendarView.Offset | myhabit_tracker.py:278 | the padding before day 1 lies in 0..6 |
| CalendarView.MonthDays | myhabit_tracker.py:278 | the cells fill whole weeks, their count is offset plus days plus end padding, and every cell lies in 0..days of the month |
| CalendarView.PadToWeek | myhabit_tracker.py:278 | padding up to the end of the week gives a multiple of seven |
| CalendarView.CellsInRange | myhabit_tracker.py:278 | zeros around day numbers in 1..n give cells in 0..n |
| CalendarView.MonthCalendar | myhabit_tracker.py:278 | `monthcalendar` weeks have seven cells, each 0 or a day of the month |
| CalendarView.MonthCalendarCells | myhabit_tracker.py:278 | a month has 4 to 6 weeks; the cell at week `w`, column `c` holds `7w + c - offset + 1` inside the month and 0 outside |
| CalendarView.ColumnArithmetic | myhabit_tracker.py:278 | a day's weekday is the offset plus the days before it, modulo 7 |
| CalendarView.WeekdayShift | myhabit_tracker.py:278 | moving `k` days on moves the weekday `k` places round the week |
| CalendarView.DayAtItsWeekday | myhabit_tracker.py:278-282 | each day of the month appears exactly once in the grid, at its week row and its weekday column |
| CalendarView.MonthGridMarks | myhabit_tracker.py:280-291 | in the rendered grid, a day's cell is at its week row and weekday column and is marked exactly when its date is done |
| CalendarView.CellFor | myhabit_tracker.py:283-291 | defines one rendered cell: blank for 0, otherwise the day marked when it is done; `MonthGridMarks` and `DoneDayShown` prove what the grid shows |
| CalendarView.WeekCells | myhabit_tracker.py:282-291 | defines a rendered week as `CellFor` of its seven cells; `RenderWeek` is proved equal to it |
| CalendarView.MonthGrid | myhabit_tracker.py:280-293 | defines the rendered month as `WeekCells` of every `monthcalendar` week; `RenderMonth` is proved equal to it and `MonthGridMarks` proves where each day lands |
| CalendarView.RenderWeek | myhabit_tracker.py:282-291 | the day loop renders a week: blank for 0, otherwise the day, marked when its date is a key with a true value |
| CalendarView.RenderMonth | myhabit_tracker.py:278-293 | the week loop renders the whole `monthcalendar` grid of the month |
| CalendarView.FirstRecorded | myhabit_tracker.py:273 | with an empty history it is today; otherwise it is the earliest key |
| CalendarView.LeastOfSorted | myhabit_tracker.py:273 | the first sorted key is the least key |
| CalendarView.FirstMonth | myhabit_tracker.py:273-274 | the first month shown is a valid month index |
| CalendarView.LastMonth | myhabit_tracker.py:276 | the last month shown is a valid month index |
| CalendarView.ShownMonth | myhabit_tracker.py:274-298 | the `k`-th month shown starts on the first day of the month with index first month + `k` |
| CalendarView.MonthCount | myhabit_tracker.py:276 | defines how many months the loop runs (first recorded month to today's month, none when the first is later); `RenderCalendar`, `CalendarRange` and `EmptyHistoryShowsToday` state it |
| CalendarView.RenderCalendar | myhabit_tracker.py:273-298 | the month loop renders exactly `MonthCount` months, and the `k`-th is the grid of the `k`-th month from the first recorded month |
| CalendarView.ViewsStep | myhabit_tracker.py:295-298 | rendering the next month extends the months rendered so far, in order |
| CalendarView.CalendarConsecutive | myhabit_tracker.py:295-298 | each shown month is the month after the previous one, December rolling over to January |
| CalendarView.CalendarRange | myhabit_tracker.py:273-276 | when the first recorded date is not after today, at least one month is shown; the first is the month of the first recorded date and the last is today's month |
| CalendarView.EmptyHistoryShowsToday | myhabit_tracker.py:273-276 | with an empty history exactly one month is shown, today's |
| CalendarView.DoneDayShown | myhabit_tracker.py:273-291 | every done day up to today is shown marked, in its own month, at its week row and weekday column |
| CalendarView.MonthOfOrder | myhabit_tracker.py:276 | an earlier date lies in the same or an earlier month |
| CalendarView.MonthEndsBefore | myhabit_tracker.py:276 | a month that starts before another ends no later than the other starts |

## Left out

- The user interface is not modelled: widgets, frames, message boxes and the
  confirmation dialog. A method's `saved` result records only whether the
  source goes on to save and refresh.
- `load_data` and `save_data` are not modelled, because they do file and JSON
  I/O. The registry starts from the empty state that `load_data` falls back to.
- The clock is not modelled. `datetime.date.today()` becomes the `today` parameter.
- ISO date strings are not modelled. Keys are day ordinals, so the model
  assumes that every stored key is a valid ISO date. `sorted` by
  `fromisoformat` is sorting by ordinal (`Dates.OrdinalOrder`).
- Dates before 0001-01-01 cannot occur in Python. The functions that need a
  year require ordinals of at least 1. Years above 9999 are not excluded.
- CalendarView.RenderCalendar, Streaks.CurrentStreak: the source raises where
  Python's `date` leaves 0001-9999, and the model carries on instead.
  - When today's month is December 9999, `replace(year=year + 1, month=1)` at
    line 296 raises `ValueError`. `RenderCalendar` returns the months normally.
  - When 0001-01-01 and every day after it up to today are done,
    `check_date -= timedelta(days=1)` at line 258 raises `OverflowError`.
    `CurrentStreak` steps on to ordinal 0, which is never done, and returns.
- The current-streak computation inside the scan (lines 245-247) is not
  modelled: the code overwrites its result before reading it.
- Float division and the `:.2f` rendering are not modelled. The percentage is
  an exact `real`.
- The text of the report is not modelled: headers, month names, day numbers
  padded to two characters, the `*` mark, `week_str.strip()`. The model keeps
  the grid of cells instead.
- `Text.Strip`: whitespace is the ASCII set that `str.isspace()` accepts.
  The Unicode space characters are not modelled.
- `update_progress_habit_selection` and the order of the combo box are not
  part of this model.

## Findings

| source | as written | input that shows it | evidently intended | confidence | as-written member | corrected member |
|---|---|---|---|---|---|---|
| myhabit_tracker.py:239-251 | the longest streak counts adjacent true values in sorted key order, and only a false value interrupts it, so a calendar gap does not end a streak | every day of 2024-01-01, 01-02, 01-03, 01-05 and 01-06 marked done: the reported longest streak is 5 | the longest run of consecutive calendar days that are done, 3 for this input | high; not executed | Streaks.GapCountedAsStreak (from Streaks.GapCounted, on the scan `Streaks.LongestStreakAsCoded`) | Streaks.LongestCalendarStreak, with Streaks.GapEndsCalendarStreak and Streaks.GapEndsRun |

Mark done only ever stores `True`, and mark undone deletes the key. So in
practice the as-coded figure is the number of keys (`Streaks.AsCodedCountsAllKeys`).
`Streaks.CalendarWithinAsCoded` shows that the calendar-contiguous figure never
exceeds it.

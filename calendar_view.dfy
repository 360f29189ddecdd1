/**
 * The completion calendar of the progress report: one month grid for every
 * month from the month of the earliest recorded date (today's month when
 * there is none) through today's month, each laid out as
 * `calendar.monthcalendar` lays it out (weeks of seven cells, Monday first,
 * 0 for the cells outside the month), with a day marked when its date is a
 * key of the history with a true value. The text of the lines (month names,
 * two-column day numbers, the `*` mark) is not modelled; the grid is.
 */
module CalendarView {
  import opened Dates
  import opened Habits
  import opened Streaks

  // ---------------------------------------------------------------------------
  // `calendar.monthcalendar(year, month)` with Monday as the first weekday

  /** `n` padding cells */
  function Zeros(n: nat): (z: seq<int>)
    ensures |z| == n && forall k :: 0 <= k < n ==> z[k] == 0
  {
    seq(n, _ => 0)
  }

  /** The day numbers 1, 2, ..., n */
  function DayNumbers(n: nat): (s: seq<int>)
    ensures |s| == n && forall k :: 0 <= k < n ==> s[k] == k + 1
  {
    seq(n, k => k + 1)
  }

  /** Weekday of the first of the month: the number of padding cells before day 1 */
  function Offset(y: int, m: int): (off: int)
    requires y >= 1 && 1 <= m <= 12
    ensures 0 <= off < 7
  {
    Weekday(ToOrdinal(Ymd(y, m, 1)))
  }

  /** `Calendar.itermonthdays(year, month)`: padding up to day 1, the days of
      the month, and padding up to the end of the last week */
  function MonthDays(y: int, m: int): (cells: seq<int>)
    requires y >= 1 && 1 <= m <= 12
    ensures |cells| % 7 == 0
    ensures |cells| == Offset(y, m) + DaysInMonth(y, m) + (0 - Offset(y, m) - DaysInMonth(y, m)) % 7
    ensures forall k :: 0 <= k < |cells| ==> 0 <= cells[k] <= DaysInMonth(y, m)
  {
    var before := Offset(y, m);
    var ndays := DaysInMonth(y, m);
    var after := (0 - before - ndays) % 7;
    PadToWeek(before + ndays);
    CellsInRange(Zeros(before), DayNumbers(ndays), Zeros(after), ndays);
    Zeros(before) + DayNumbers(ndays) + Zeros(after)
  }

  /** Padding `x` cells up to the end of the week gives whole weeks */
  lemma PadToWeek(x: int)
    ensures (x + (0 - x) % 7) % 7 == 0
  {
    var r := (0 - x) % 7;
    assert 0 - x == ((0 - x) / 7) * 7 + r;
    assert x + r == (0 - (0 - x) / 7) * 7;
  }

  /** Padding zeros around day numbers in 1..n gives cells in 0..n */
  lemma CellsInRange(a: seq<int>, b: seq<int>, c: seq<int>, n: int)
    requires 0 <= n && forall k :: 0 <= k < |a| ==> a[k] == 0
    requires forall k :: 0 <= k < |b| ==> 0 <= b[k] <= n
    requires forall k :: 0 <= k < |c| ==> c[k] == 0
    ensures forall k :: 0 <= k < |a + b + c| ==> 0 <= (a + b + c)[k] <= n
  {
    forall k | 0 <= k < |a + b + c| ensures 0 <= (a + b + c)[k] <= n {
      if k < |a| {
        assert (a + b + c)[k] == a[k];
      } else if k < |a| + |b| {
        assert (a + b + c)[k] == b[k - |a|];
      } else {
        assert (a + b + c)[k] == c[k - |a| - |b|];
      }
    }
  }

  /** `calendar.monthcalendar(year, month)`: the month days cut into weeks of seven */
  function MonthCalendar(y: int, m: int): (weeks: seq<seq<int>>)
    requires y >= 1 && 1 <= m <= 12
    ensures forall w :: 0 <= w < |weeks| ==> |weeks[w]| == 7
    ensures forall w, c :: 0 <= w < |weeks| && 0 <= c < 7 ==> 0 <= weeks[w][c] <= DaysInMonth(y, m)
  {
    var days := MonthDays(y, m);
    seq(|days| / 7, w requires 0 <= w < |days| / 7 => days[7 * w..7 * w + 7])
  }

  /** The row of the grid holding day `d` */
  function WeekOf(y: int, m: int, d: int): int
    requires y >= 1 && 1 <= m <= 12
  {
    (Offset(y, m) + d - 1) / 7
  }

  /** The column of the grid holding day `d`: its weekday */
  function ColumnOf(y: int, m: int, d: int): int
    requires ValidYmd(Ymd(y, m, d))
  {
    Weekday(ToOrdinal(Ymd(y, m, d)))
  }

  /** A day's weekday is the month's offset advanced by the days before it */
  lemma ColumnArithmetic(y: int, m: int, d: int)
    requires ValidYmd(Ymd(y, m, d))
    ensures ColumnOf(y, m, d) == (Offset(y, m) + d - 1) % 7
  {
    var n := ToOrdinal(Ymd(y, m, 1));
    assert ToOrdinal(Ymd(y, m, d)) == n + (d - 1);
    WeekdayShift(n, d - 1);
  }

  /** Moving `k` days on moves the weekday `k` places round the week */
  lemma WeekdayShift(n: Date, k: nat)
    requires n >= 1
    ensures Weekday(n + k) == (Weekday(n) + k) % 7
  {
    var q := (n + 6) / 7;
    assert n + 6 == 7 * q + Weekday(n);
    assert n + k + 6 == 7 * q + (Weekday(n) + k);
  }

  /** A month has four to six weeks, and the cells outside the month are
      exactly the padding: cell `k` of the flattened grid holds day
      `k - Offset + 1` when that is a day of the month and 0 otherwise */
  lemma MonthCalendarCells(y: int, m: int)
    requires y >= 1 && 1 <= m <= 12
    ensures 4 <= |MonthCalendar(y, m)| <= 6
    ensures |MonthCalendar(y, m)| == (Offset(y, m) + DaysInMonth(y, m) + 6) / 7
    ensures forall w, c :: 0 <= w < |MonthCalendar(y, m)| && 0 <= c < 7 ==>
      MonthCalendar(y, m)[w][c] ==
        if Offset(y, m) <= 7 * w + c < Offset(y, m) + DaysInMonth(y, m) then 7 * w + c - Offset(y, m) + 1 else 0
  {
    var days := MonthDays(y, m);
    var weeks := MonthCalendar(y, m);
    var before, ndays := Offset(y, m), DaysInMonth(y, m);
    forall w, c | 0 <= w < |weeks| && 0 <= c < 7
      ensures weeks[w][c] == if before <= 7 * w + c < before + ndays then 7 * w + c - before + 1 else 0
    {
      assert weeks[w][c] == days[7 * w + c];
      if 7 * w + c < before {
        assert days[7 * w + c] == Zeros(before)[7 * w + c];
      } else if 7 * w + c < before + ndays {
        assert days[7 * w + c] == DayNumbers(ndays)[7 * w + c - before];
      } else {
        assert days[7 * w + c] == Zeros((0 - before - ndays) % 7)[7 * w + c - before - ndays];
      }
    }
  }

  /** Each day of the month appears in the grid exactly once: at the row
      WeekOf and the column of its weekday, and nowhere else */
  lemma DayAtItsWeekday(y: int, m: int, d: int)
    requires ValidYmd(Ymd(y, m, d))
    ensures 0 <= WeekOf(y, m, d) < |MonthCalendar(y, m)|
    ensures MonthCalendar(y, m)[WeekOf(y, m, d)][ColumnOf(y, m, d)] == d
    ensures forall w, c :: 0 <= w < |MonthCalendar(y, m)| && 0 <= c < 7 && MonthCalendar(y, m)[w][c] == d ==>
      w == WeekOf(y, m, d) && c == ColumnOf(y, m, d)
  {
    MonthCalendarCells(y, m);
    ColumnArithmetic(y, m, d);
    var k := Offset(y, m) + d - 1;
    assert 7 * WeekOf(y, m, d) + ColumnOf(y, m, d) == k;
  }

  // ---------------------------------------------------------------------------
  // Rendering the months

  /** A grid cell: padding, or a day of the month and whether it is marked */
  datatype Cell = Blank | Day(day: int, marked: bool)

  /** One month of the calendar */
  datatype MonthView = MonthView(year: int, month: int, weeks: seq<seq<Cell>>)

  /** The cell in week `w`, column `c` of a rendered month, blank outside the grid */
  function CellAt(view: MonthView, w: int, c: int): Cell {
    if 0 <= w < |view.weeks| && 0 <= c < |view.weeks[w]| then view.weeks[w][c] else Blank
  }

  /** What the inner loop writes for one `day` of `monthcalendar`:
      blank for 0, otherwise the day, marked when its date is done */
  function CellFor(h: History, y: int, m: int, day: int): Cell
    requires y >= 1 && 1 <= m <= 12 && 0 <= day <= DaysInMonth(y, m)
  {
    if day == 0 then Blank else Day(day, IsDone(h, ToOrdinal(Ymd(y, m, day))))
  }

  /** The cells one week of `monthcalendar` renders to */
  function WeekCells(h: History, y: int, m: int, week: seq<int>): seq<Cell>
    requires y >= 1 && 1 <= m <= 12
    requires |week| == 7 && forall c :: 0 <= c < 7 ==> 0 <= week[c] <= DaysInMonth(y, m)
  {
    seq(7, c requires 0 <= c < 7 => CellFor(h, y, m, week[c]))
  }

  /** The rendered grid of month `m` of year `y` */
  ghost function MonthGrid(h: History, y: int, m: int): seq<seq<Cell>>
    requires y >= 1 && 1 <= m <= 12
  {
    var cal := MonthCalendar(y, m);
    seq(|cal|, w requires 0 <= w < |cal| => WeekCells(h, y, m, cal[w]))
  }

  /** A month of the calendar: its year, its month and its rendered grid */
  ghost function ViewOf(h: History, f: Ymd): MonthView
    requires ValidYmd(f)
  {
    MonthView(f.year, f.month, MonthGrid(h, f.year, f.month))
  }

  /** In the rendered grid, each day of the month sits at its weekday column
      and is marked exactly when its date is a key with a true value */
  lemma MonthGridMarks(h: History, y: int, m: int, d: int)
    requires ValidYmd(Ymd(y, m, d))
    ensures 0 <= WeekOf(y, m, d) < |MonthGrid(h, y, m)|
    ensures 0 <= ColumnOf(y, m, d) < |MonthGrid(h, y, m)[WeekOf(y, m, d)]|
    ensures MonthGrid(h, y, m)[WeekOf(y, m, d)][ColumnOf(y, m, d)] == Day(d, IsDone(h, ToOrdinal(Ymd(y, m, d))))
  {
    DayAtItsWeekday(y, m, d);
  }

  /** The loop over the weeks of `monthcalendar` */
  method RenderMonth(h: History, f: Ymd) returns (view: MonthView)
    requires ValidYmd(f)
    ensures view == ViewOf(h, f)
  {
    var cal := MonthCalendar(f.year, f.month);
    var grid: seq<seq<Cell>> := [];
    var w := 0;
    while w < |cal|
      invariant 0 <= w <= |cal| && |grid| == w
      invariant forall v :: 0 <= v < w ==> grid[v] == WeekCells(h, f.year, f.month, cal[v])
    {
      var row := RenderWeek(h, f, cal[w]);
      grid := grid + [row];
      w := w + 1;
    }
    assert grid == MonthGrid(h, f.year, f.month);
    view := MonthView(f.year, f.month, grid);
  }

  /** The loop over the days of one week: a blank for a padding cell, else
      the day, marked when its date is a key with a true value */
  method RenderWeek(h: History, f: Ymd, week: seq<int>) returns (row: seq<Cell>)
    requires ValidYmd(f)
    requires |week| == 7 && forall c :: 0 <= c < 7 ==> 0 <= week[c] <= DaysInMonth(f.year, f.month)
    ensures row == WeekCells(h, f.year, f.month, week)
  {
    row := [];
    var c := 0;
    while c < 7
      invariant 0 <= c <= 7 && |row| == c
      invariant forall k :: 0 <= k < c ==> row[k] == CellFor(h, f.year, f.month, week[k])
    {
      var day := week[c];
      if day == 0 {
        row := row + [Blank];
      } else {
        var date := ToOrdinal(Ymd(f.year, f.month, day));
        row := row + [Day(day, date in h && h[date])];
      }
      c := c + 1;
    }
  }

  /** `sorted_dates[0] if sorted_dates else current_date` */
  function FirstRecorded(h: History, today: Date): (first: Date)
    requires today >= 1 && forall d :: d in h ==> d >= 1
    ensures first >= 1
    ensures h == map[] ==> first == today
    ensures h != map[] ==> first in h && forall d :: d in h ==> first <= d
  {
    var sortedDates := Sorted(h.Keys);
    if sortedDates != [] then
      assert sortedDates[0] in h.Keys;
      LeastOfSorted(h.Keys);
      sortedDates[0]
    else
      assert h.Keys == {};
      today
  }

  lemma LeastOfSorted(s: set<Date>)
    requires s != {}
    ensures |Sorted(s)| > 0 && forall d :: d in s ==> Sorted(s)[0] <= d
  {
    var r := Sorted(s);
    forall d | d in s ensures r[0] <= d {
      var p := PositionOf(r, d);
      assert p == 0 || r[0] < r[p];
    }
  }

  /** The index of the first month shown: the month of the first recorded date */
  function FirstMonth(h: History, today: Date): (i: int)
    requires today >= 1 && forall d :: d in h ==> d >= 1
    ensures i >= 12
  {
    MonthIndex(FirstOfMonth(FirstRecorded(h, today)))
  }

  /** The index of the last month shown: today's month */
  function LastMonth(today: Date): (i: int)
    requires today >= 1
    ensures i >= 12
  {
    MonthIndex(FirstOfMonth(today))
  }

  /** How many months are shown: none when the first recorded date lies in a
      month after today's */
  function MonthCount(h: History, today: Date): nat
    requires today >= 1 && forall d :: d in h ==> d >= 1
  {
    if FirstMonth(h, today) <= LastMonth(today) then LastMonth(today) - FirstMonth(h, today) + 1 else 0
  }

  /** The first day of the `k`-th month shown */
  function ShownMonth(h: History, today: Date, k: nat): (f: Ymd)
    requires today >= 1 && forall d :: d in h ==> d >= 1
    ensures ValidYmd(f) && f.day == 1 && MonthIndex(f) == FirstMonth(h, today) + k
  {
    MonthStart(FirstMonth(h, today) + k)
  }

  /** The month loop of `display_habit_progress`: from the first of the month
      of the first recorded date, render a month and step to the next, while
      the month does not come after today's */
  method RenderCalendar(h: History, today: Date) returns (months: seq<MonthView>)
    requires today >= 1 && forall d :: d in h ==> d >= 1
    ensures |months| == MonthCount(h, today)
    ensures forall k :: 0 <= k < |months| ==> months[k] == ViewOf(h, ShownMonth(h, today, k))
  {
    var first := FirstRecorded(h, today);
    var monthFirst := FirstOfMonth(first);
    var last := FirstOfMonth(today);
    ghost var start := FirstMonth(h, today);
    months := [];
    while ToOrdinal(monthFirst) <= ToOrdinal(last)
      invariant ValidYmd(monthFirst) && monthFirst.day == 1
      invariant MonthIndex(monthFirst) == start + |months|
      invariant |months| <= MonthCount(h, today)
      invariant ViewsFrom(h, start, months)
      decreases LastMonth(today) - MonthIndex(monthFirst)
    {
      MonthStartOrder(monthFirst, last);
      var view := RenderMonth(h, monthFirst);
      ViewsStep(h, start, months, monthFirst, view);
      months := months + [view];
      monthFirst := NextMonth(monthFirst);
    }
    MonthStartOrder(monthFirst, last);
  }

  /** `months` are the rendered months from month index `start` on, in order */
  ghost predicate ViewsFrom(h: History, start: int, months: seq<MonthView>)
    requires start >= 12
  {
    forall k :: 0 <= k < |months| ==> months[k] == ViewOf(h, MonthStart(start + k))
  }

  /** Rendering the month that follows the ones rendered so far extends them
      by the next month */
  lemma ViewsStep(h: History, start: int, months: seq<MonthView>, monthFirst: Ymd, view: MonthView)
    requires start >= 12 && ValidYmd(monthFirst) && monthFirst.day == 1
    requires MonthIndex(monthFirst) == start + |months|
    requires ViewsFrom(h, start, months) && view == ViewOf(h, monthFirst)
    ensures ViewsFrom(h, start, months + [view])
  {
    MonthStartOfIndex(monthFirst);
  }

  /** The months shown are consecutive: each is the month after the one
      before, December being followed by January of the next year */
  lemma CalendarConsecutive(h: History, today: Date, k: nat)
    requires today >= 1 && forall d :: d in h ==> d >= 1
    requires 0 < k < MonthCount(h, today)
    ensures ShownMonth(h, today, k) == NextMonth(ShownMonth(h, today, k - 1))
  {
    NextMonthStart(FirstMonth(h, today) + k - 1);
  }

  /** The first month shown is the month of the first recorded date and the
      last is today's month, whenever the first recorded date is not after today */
  lemma CalendarRange(h: History, today: Date)
    requires today >= 1 && forall d :: d in h ==> d >= 1
    requires FirstRecorded(h, today) <= today
    ensures MonthCount(h, today) >= 1
    ensures ShownMonth(h, today, 0) == FirstOfMonth(FirstRecorded(h, today))
    ensures ShownMonth(h, today, MonthCount(h, today) - 1) == FirstOfMonth(today)
  {
    MonthOfOrder(FirstRecorded(h, today), today);
    MonthStartOfIndex(FirstOfMonth(FirstRecorded(h, today)));
    MonthStartOfIndex(FirstOfMonth(today));
  }

  /** With an empty history the calendar is exactly today's month */
  lemma EmptyHistoryShowsToday(today: Date)
    requires today >= 1
    ensures MonthCount(map[], today) == 1
    ensures ShownMonth(map[], today, 0) == FirstOfMonth(today)
  {
    MonthStartOfIndex(FirstOfMonth(today));
  }

  /** Every done day up to today is shown marked, in its month and at its
      weekday column */
  lemma DoneDayShown(h: History, today: Date, d: Date)
    requires today >= 1 && forall e :: e in h ==> e >= 1
    requires IsDone(h, d) && d <= today
    ensures var k := MonthIndex(FirstOfMonth(d)) - FirstMonth(h, today);
      var date := FromOrdinal(d);
      0 <= k < MonthCount(h, today) && ShownMonth(h, today, k) == FirstOfMonth(d) &&
      CellAt(ViewOf(h, ShownMonth(h, today, k)), WeekOf(date.year, date.month, date.day), ColumnOf(date.year, date.month, date.day))
        == Day(date.day, true)
  {
    MonthOfOrder(FirstRecorded(h, today), d);
    MonthOfOrder(d, today);
    MonthStartOfIndex(FirstOfMonth(d));
    var date := FromOrdinal(d);
    MonthGridMarks(h, date.year, date.month, date.day);
  }

  /** Earlier dates lie in the same or an earlier month */
  lemma MonthOfOrder(a: Date, b: Date)
    requires 1 <= a <= b
    ensures MonthIndex(FirstOfMonth(a)) <= MonthIndex(FirstOfMonth(b))
  {
    var f, g := FirstOfMonth(a), FirstOfMonth(b);
    MonthStartOrder(f, g);
    if MonthIndex(g) < MonthIndex(f) {
      assert ToOrdinal(g) < ToOrdinal(f);
      MonthEndsBefore(g, f);
    }
  }

  /** A month that starts before another ends before it starts */
  lemma MonthEndsBefore(g: Ymd, f: Ymd)
    requires ValidYmd(g) && g.day == 1 && ValidYmd(f) && f.day == 1
    requires MonthIndex(g) < MonthIndex(f)
    ensures ToOrdinal(g) + DaysInMonth(g.year, g.month) <= ToOrdinal(f)
  {
    MonthStartOrder(NextMonth(g), f);
  }
}

/**
 * Proleptic Gregorian calendar arithmetic, as used by Python's `datetime.date`.
 *
 * A date is represented by its day ordinal (0001-01-01 is day 1), the same
 * number `date.toordinal()` returns. Stepping back one day is `d - 1`, the
 * difference of two dates in days is `a - b`, and the conversions to and from
 * (year, month, day) use the leap-year rule and month lengths of the Gregorian
 * calendar (section 5.7 and Appendix C of RFC 3339).
 */
module Dates {

  /** A calendar date as its day ordinal: 0001-01-01 is 1, 0001-01-02 is 2, ... */
  type Date = int

  /** A date as (year, month, day) */
  datatype Ymd = Ymd(year: int, month: int, day: int)

  predicate IsLeapYear(y: int) {
    y % 4 == 0 && (y % 100 != 0 || y % 400 == 0)
  }

  function DaysInYear(y: int): int {
    if IsLeapYear(y) then 366 else 365
  }

  function DaysInMonth(y: int, m: int): (n: int)
    requires 1 <= m <= 12
    ensures 28 <= n <= 31
    ensures n == 29 <==> m == 2 && IsLeapYear(y)
  {
    if m == 2 then (if IsLeapYear(y) then 29 else 28)
    else if m == 4 || m == 6 || m == 9 || m == 11 then 30
    else 31
  }

  /** Days in the months of year `y` that come before month `m` */
  function DaysBeforeMonth(y: int, m: int): int
    requires 1 <= m <= 12
  {
    var table := [0, 31, 59, 90, 120, 151, 181, 212, 243, 273, 304, 334];
    table[m - 1] + (if m > 2 && IsLeapYear(y) then 1 else 0)
  }

  /** Days in the years before year `y`: the lengths of years 1 to y - 1 added up */
  function DaysBeforeYear(y: int): (days: int)
    requires y >= 1
    ensures days >= 0
    decreases y
  {
    if y == 1 then 0 else DaysBeforeYear(y - 1) + DaysInYear(y - 1)
  }

  /** Python's `_days_before_year(y)` closed form computes the same number */
  lemma {:induction false} DaysBeforeYearClosedForm(y: int)
    requires y >= 1
    ensures DaysBeforeYear(y) == ClosedForm(y - 1)
    decreases y
  {
    if y > 1 {
      DaysBeforeYearClosedForm(y - 1);
      ClosedFormStep(y - 2);
    }
  }

  /** `p * 365 + p // 4 - p // 100 + p // 400`: the days in the first `p` years */
  function ClosedForm(p: int): int {
    p * 365 + p / 4 - p / 100 + p / 400
  }

  lemma ClosedFormStep(p: int)
    requires p >= 0
    ensures ClosedForm(p + 1) == ClosedForm(p) + DaysInYear(p + 1)
  {
    assert (p + 1) / 4 == p / 4 + (if (p + 1) % 4 == 0 then 1 else 0);
    assert (p + 1) / 100 == p / 100 + (if (p + 1) % 100 == 0 then 1 else 0);
    assert (p + 1) / 400 == p / 400 + (if (p + 1) % 400 == 0 then 1 else 0);
  }

  predicate ValidYmd(d: Ymd) {
    d.year >= 1 && 1 <= d.month <= 12 && 1 <= d.day <= DaysInMonth(d.year, d.month)
  }

  /** The months of a year fill it exactly, one after the other */
  lemma MonthFollows(y: int, m: int)
    requires 1 <= m <= 12
    ensures m < 12 ==> DaysBeforeMonth(y, m + 1) == DaysBeforeMonth(y, m) + DaysInMonth(y, m)
    ensures m == 12 ==> DaysBeforeMonth(y, m) + DaysInMonth(y, m) == DaysInYear(y)
  {
  }

  /** Month starts are strictly ordered within a year */
  lemma MonthsOrdered(y: int, m1: int, m2: int)
    requires 1 <= m1 < m2 <= 12
    ensures DaysBeforeMonth(y, m1) + DaysInMonth(y, m1) <= DaysBeforeMonth(y, m2)
  {
  }

  /** Every month ends within its year */
  lemma MonthWithinYear(y: int, m: int)
    requires 1 <= m <= 12
    ensures DaysBeforeMonth(y, m) + DaysInMonth(y, m) <= DaysInYear(y)
  {
  }

  /** Each year starts where the one before it ends */
  lemma YearFollows(y: int)
    requires y >= 1
    ensures DaysBeforeYear(y + 1) == DaysBeforeYear(y) + DaysInYear(y)
  {
  }

  /** Years are laid end to end: a later year starts after an earlier one ends */
  lemma {:induction false} YearsOrdered(y1: int, y2: int)
    requires 1 <= y1 < y2
    ensures DaysBeforeYear(y1 + 1) <= DaysBeforeYear(y2)
    decreases y2 - y1
  {
    if y1 + 1 < y2 {
      YearsOrdered(y1 + 1, y2);
      YearFollows(y1 + 1);
    }
  }

  /** `date(y, m, d).toordinal()`: the number of the day, counting 0001-01-01 as 1 */
  function ToOrdinal(d: Ymd): (n: Date)
    requires ValidYmd(d)
    ensures DaysBeforeYear(d.year) < n <= DaysBeforeYear(d.year + 1)
    ensures DaysBeforeYear(d.year) + DaysBeforeMonth(d.year, d.month) < n
    ensures n <= DaysBeforeYear(d.year) + DaysBeforeMonth(d.year, d.month) + DaysInMonth(d.year, d.month)
    ensures n >= 1
  {
    YearFollows(d.year);
    MonthWithinYear(d.year, d.month);
    DaysBeforeYear(d.year) + DaysBeforeMonth(d.year, d.month) + d.day
  }

  /** Lexicographic order on (year, month, day) */
  predicate Before(a: Ymd, b: Ymd) {
    a.year < b.year || (a.year == b.year && (a.month < b.month || (a.month == b.month && a.day < b.day)))
  }

  /** Ordinals follow calendar order */
  lemma OrdinalMonotone(a: Ymd, b: Ymd)
    requires ValidYmd(a) && ValidYmd(b) && Before(a, b)
    ensures ToOrdinal(a) < ToOrdinal(b)
  {
    if a.year < b.year {
      YearsOrdered(a.year, b.year);
    } else if a.month < b.month {
      MonthsOrdered(a.year, a.month, b.month);
    }
  }

  /** Distinct calendar dates have distinct ordinals */
  lemma OrdinalInjective(a: Ymd, b: Ymd)
    requires ValidYmd(a) && ValidYmd(b) && ToOrdinal(a) == ToOrdinal(b)
    ensures a == b
  {
    if Before(a, b) {
      OrdinalMonotone(a, b);
    } else if Before(b, a) {
      OrdinalMonotone(b, a);
    }
  }

  /** Calendar order and ordinal order agree, in both directions */
  lemma OrdinalOrder(a: Ymd, b: Ymd)
    requires ValidYmd(a) && ValidYmd(b)
    ensures ToOrdinal(a) < ToOrdinal(b) <==> Before(a, b)
    ensures ToOrdinal(a) == ToOrdinal(b) <==> a == b
  {
    if Before(a, b) {
      OrdinalMonotone(a, b);
    } else if Before(b, a) {
      OrdinalMonotone(b, a);
    } else {
      assert a == b;
    }
  }

  /** The date that is day `rem` (counting from 1) of month `m` of year `y` or a later month */
  function LocateInMonth(y: int, m: int, rem: int): (d: Ymd)
    requires y >= 1 && 1 <= m <= 12
    requires 1 <= rem <= DaysInYear(y) - DaysBeforeMonth(y, m)
    ensures ValidYmd(d) && d.year == y
    ensures ToOrdinal(d) == DaysBeforeYear(y) + DaysBeforeMonth(y, m) + rem
    decreases 12 - m
  {
    MonthFollows(y, m);
    if rem <= DaysInMonth(y, m) then Ymd(y, m, rem)
    else LocateInMonth(y, m + 1, rem - DaysInMonth(y, m))
  }

  /** The date that is day `rem` (counting from 1) of year `y` or a later year */
  function LocateInYear(y: int, rem: int): (d: Ymd)
    requires y >= 1 && rem >= 1
    ensures ValidYmd(d)
    ensures ToOrdinal(d) == DaysBeforeYear(y) + rem
    decreases rem
  {
    if rem <= DaysInYear(y) then LocateInMonth(y, 1, rem)
    else
      YearFollows(y);
      LocateInYear(y + 1, rem - DaysInYear(y))
  }

  /** `date.fromordinal(n)`: the calendar date whose ordinal is `n` */
  function FromOrdinal(n: Date): (d: Ymd)
    requires n >= 1
    ensures ValidYmd(d) && ToOrdinal(d) == n
  {
    LocateInYear(1, n)
  }

  /** Converting a date to its ordinal and back gives the date again */
  lemma OrdinalRoundTrip(d: Ymd)
    requires ValidYmd(d)
    ensures FromOrdinal(ToOrdinal(d)) == d
  {
    OrdinalInjective(FromOrdinal(ToOrdinal(d)), d);
  }

  /** `date.weekday()`: Monday is 0, Sunday is 6 */
  function Weekday(n: Date): (w: int)
    requires n >= 1
    ensures 0 <= w < 7
    ensures (n - w) % 7 == 1
  {
    (n + 6) % 7
  }

  /** `d.replace(day=1)`: the first day of the month containing the ordinal `n` */
  function FirstOfMonth(n: Date): (f: Ymd)
    requires n >= 1
    ensures ValidYmd(f) && f.day == 1
    ensures f.year == FromOrdinal(n).year && f.month == FromOrdinal(n).month
    ensures ToOrdinal(f) <= n < ToOrdinal(f) + DaysInMonth(f.year, f.month)
  {
    var d := FromOrdinal(n);
    Ymd(d.year, d.month, 1)
  }

  /** Months numbered consecutively: January of year 1 is 12, February of year 1 is 13, ... */
  function MonthIndex(d: Ymd): int {
    d.year * 12 + d.month - 1
  }

  /** The first day of the month with a given index */
  function MonthStart(index: int): (f: Ymd)
    requires index >= 12
    ensures ValidYmd(f) && f.day == 1 && MonthIndex(f) == index
  {
    Ymd(index / 12, index % 12 + 1, 1)
  }

  /** A first-of-month date is the start of its month's index */
  lemma MonthStartOfIndex(f: Ymd)
    requires ValidYmd(f) && f.day == 1
    ensures MonthStart(MonthIndex(f)) == f
  {
    var i := MonthIndex(f);
    assert i == 12 * f.year + (f.month - 1);
    assert i / 12 == f.year && i % 12 == f.month - 1;
  }

  /** The month after the start of month `index` starts month `index + 1` */
  lemma NextMonthStart(index: int)
    requires index >= 12
    ensures MonthStart(index + 1) == NextMonth(MonthStart(index))
  {
    MonthStartOfIndex(NextMonth(MonthStart(index)));
  }

  /** Advancing a first-of-month date to the next month, December rolling over to January */
  function NextMonth(f: Ymd): (g: Ymd)
    requires ValidYmd(f) && f.day == 1
    ensures ValidYmd(g) && g.day == 1
    ensures MonthIndex(g) == MonthIndex(f) + 1
    ensures ToOrdinal(g) == ToOrdinal(f) + DaysInMonth(f.year, f.month)
  {
    YearFollows(f.year);
    MonthFollows(f.year, f.month);
    if f.month == 12 then Ymd(f.year + 1, 1, 1) else Ymd(f.year, f.month + 1, 1)
  }

  /** Comparing first-of-month dates compares their months */
  lemma MonthStartOrder(f: Ymd, g: Ymd)
    requires ValidYmd(f) && f.day == 1 && ValidYmd(g) && g.day == 1
    ensures ToOrdinal(f) <= ToOrdinal(g) <==> MonthIndex(f) <= MonthIndex(g)
  {
    OrdinalOrder(f, g);
  }

  /** The dates from `first` to `last`, both included */
  function DaySpan(first: Date, last: Date): (s: set<Date>)
    ensures forall d :: d in s <==> first <= d <= last
    ensures |s| == if first <= last then last - first + 1 else 0
    decreases last - first
  {
    if first > last then {} else DaySpan(first, last - 1) + {last}
  }

  /** A subset is no larger than its superset */
  lemma SubsetSize<T>(a: set<T>, b: set<T>)
    requires a <= b
    ensures |a| <= |b|
  {
    assert b == a + (b - a);
  }

  /** A proper subset is smaller than its superset */
  lemma StrictSubsetSize<T>(a: set<T>, b: set<T>)
    requires a < b
    ensures |a| < |b|
  {
    assert b == a + (b - a);
    assert b - a != {};
  }
}

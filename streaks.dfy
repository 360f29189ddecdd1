/**
 * The two streak figures of the progress report: the current streak (the
 * backwards walk from today) and the longest streak as the source computes
 * it (a scan of the history's values in date order that only a false value
 * interrupts), together with a calendar-contiguous longest streak, a
 * separate definition that counts only runs of consecutive days.
 */
module Streaks {
  import opened Dates
  import opened Habits

  predicate StrictlyIncreasing(s: seq<Date>) {
    forall i, j :: 0 <= i < j < |s| ==> s[i] < s[j]
  }

  /** The least element of a non-empty set of dates */
  function Least(s: set<Date>): (m: Date)
    requires s != {}
    ensures m in s && forall d :: d in s ==> m <= d
  {
    LeastExists(s);
    var m :| m in s && forall d :: d in s ==> m <= d;
    m
  }

  lemma {:induction false} LeastExists(s: set<Date>)
    requires s != {}
    ensures exists m :: m in s && forall d :: d in s ==> m <= d
    decreases |s|
  {
    assert (forall y :: y !in s) ==> s == {};
    var x :| x in s;
    if s != {x} {
      LeastExists(s - {x});
      var m :| m in s - {x} && forall d :: d in s - {x} ==> m <= d;
      var least := if x < m then x else m;
      forall d | d in s ensures least <= d {
        if d != x { assert d in s - {x}; }
      }
    } else {
      assert forall d :: d in s ==> x <= d;
    }
  }

  /** `sorted(dates)`: the dates in increasing order, each once */
  function Sorted(s: set<Date>): (r: seq<Date>)
    ensures |r| == |s|
    ensures forall d :: d in s <==> d in r
    ensures StrictlyIncreasing(r)
    decreases |s|
  {
    if s == {} then []
    else
      var m := Least(s);
      var rest := Sorted(s - {m});
      PrependIncreasing(m, rest);
      [m] + rest
  }

  lemma PrependIncreasing(m: Date, rest: seq<Date>)
    requires StrictlyIncreasing(rest) && forall k :: 0 <= k < |rest| ==> m < rest[k]
    ensures StrictlyIncreasing([m] + rest)
  {
    var r := [m] + rest;
    forall i, j | 0 <= i < j < |r| ensures r[i] < r[j] {
      assert r[j] == rest[j - 1];
      if i > 0 {
        assert r[i] == rest[i - 1];
      }
    }
  }

  /** The values of the history read in the order of `dates` */
  function ValuesAt(h: History, dates: seq<Date>): (v: seq<bool>)
    requires forall i :: 0 <= i < |dates| ==> dates[i] in h
    ensures |v| == |dates|
    ensures forall i :: 0 <= i < |dates| ==> v[i] == h[dates[i]]
  {
    seq(|dates|, i requires 0 <= i < |dates| => h[dates[i]])
  }

  /** The history's values in date order: `completion_history[d]` for d in `sorted_dates` */
  function ValuesInDateOrder(h: History): (v: seq<bool>)
    ensures |v| == |h|
  {
    var dates := Sorted(h.Keys);
    ValuesAt(h, dates)
  }

  // ---------------------------------------------------------------------------
  // Current streak

  /** The backwards walk of `display_habit_progress`: count days from `today`
      backwards while each is a key with a true value */
  method CurrentStreak(h: History, today: Date) returns (streak: nat)
    ensures DaySpan(today - streak + 1, today) <= DoneDays(h)
    ensures !IsDone(h, today - streak)
    ensures streak == 0 <==> !IsDone(h, today)
    ensures streak <= |DoneDays(h)|
  {
    streak := 0;
    var check := today;
    while check in h && h[check]
      invariant check == today - streak
      invariant DaySpan(check + 1, today) <= DoneDays(h)
      invariant |DaySpan(check + 1, today)| == streak
      decreases |DoneDays(h)| - streak
    {
      StreakStep(h, check, today);
      streak := streak + 1;
      check := check - 1;
    }
    assert !IsDone(h, check) && check == today - streak;
    SubsetSize(DaySpan(check + 1, today), DoneDays(h));
  }

  /** One more done day extends the span of done days backwards */
  lemma StreakStep(h: History, check: Date, today: Date)
    requires IsDone(h, check) && DaySpan(check + 1, today) <= DoneDays(h)
    ensures DaySpan(check, today) <= DoneDays(h)
    ensures |DaySpan(check, today)| <= |DoneDays(h)|
  {
    SubsetSize(DaySpan(check, today), DoneDays(h));
  }

  // ---------------------------------------------------------------------------
  // Longest streak as the source computes it

  /** The number of true values at the start of `v` */
  function LeadingTrues(v: seq<bool>): (n: nat)
    ensures n <= |v|
    ensures forall i :: 0 <= i < n ==> v[i]
    ensures n == |v| || !v[n]
  {
    if v == [] || !v[0] then 0 else 1 + LeadingTrues(v[1..])
  }

  /** The longest stretch of adjacent true values in `v` */
  function MaxRun(v: seq<bool>): (n: nat)
    ensures n <= |v|
  {
    if v == [] then 0 else Max(LeadingTrues(v), MaxRun(v[1..]))
  }

  function Max(a: int, b: int): int {
    if a < b then b else a
  }

  predicate AllTrue(v: seq<bool>) {
    forall i :: 0 <= i < |v| ==> v[i]
  }

  /** MaxRun is attained: the stretch of that many adjacent values starting at `i` is all true */
  lemma {:induction false} MaxRunAttained(v: seq<bool>) returns (i: nat)
    ensures i + MaxRun(v) <= |v| && AllTrue(v[i..i + MaxRun(v)])
  {
    if v == [] {
      i := 0;
    } else if LeadingTrues(v) >= MaxRun(v[1..]) {
      i := 0;
    } else {
      var i' := MaxRunAttained(v[1..]);
      var m := MaxRun(v[1..]);
      assert MaxRun(v) == m;
      assert v[1..][i'..i' + m] == v[i' + 1..i' + 1 + m];
      i := i' + 1;
    }
  }

  /** No stretch of adjacent true values is longer than MaxRun */
  lemma {:induction false} MaxRunBound(v: seq<bool>, i: nat, len: nat)
    requires i + len <= |v| && AllTrue(v[i..i + len])
    ensures len <= MaxRun(v)
    decreases |v|
  {
    if len == 0 {
    } else if i == 0 {
      LeadingTruesBound(v, len);
    } else {
      assert v[1..][i - 1..i - 1 + len] == v[i..i + len];
      MaxRunBound(v[1..], i - 1, len);
    }
  }

  lemma {:induction false} LeadingTruesBound(v: seq<bool>, j: int)
    requires 0 <= j <= |v| && AllTrue(v[..j])
    ensures j <= LeadingTrues(v)
    decreases j
  {
    if j > 0 {
      assert v[0] == v[..j][0];
      assert v[1..][..j - 1] == v[1..j];
      LeadingTruesBound(v[1..], j - 1);
    }
  }

  /** With every value true, the longest run is the whole sequence */
  lemma AllTrueMaxRun(v: seq<bool>)
    requires AllTrue(v)
    ensures MaxRun(v) == |v|
  {
    assert v[0..|v|] == v;
    MaxRunBound(v, 0, |v|);
  }

  /** The loop of `display_habit_progress` over `sorted_dates`, newest first:
      a true value extends the running count, a false value closes it */
  method LongestStreakAsCoded(h: History) returns (longest: nat)
    ensures longest == MaxRun(ValuesInDateOrder(h))
  {
    var sortedDates := Sorted(h.Keys);
    ghost var v := ValuesAt(h, sortedDates);
    longest := 0;
    var tempStreak := 0;
    var i := |sortedDates|;
    while i > 0
      invariant 0 <= i <= |sortedDates|
      invariant BackScanState(v, i, longest, tempStreak)
    {
      i := i - 1;
      BackScanStep(v, i, longest, tempStreak);
      if h[sortedDates[i]] {
        tempStreak := tempStreak + 1;
      } else {
        longest := Max(longest, tempStreak);
        tempStreak := 0;
      }
    }
    assert v[0..] == v == ValuesInDateOrder(h);
    longest := Max(longest, tempStreak);
  }

  /** What the backward scan knows once the values from `i` on are scanned */
  ghost predicate BackScanState(v: seq<bool>, i: int, longest: int, tempStreak: int)
    requires 0 <= i <= |v|
  {
    tempStreak == LeadingTrues(v[i..]) && Max(longest, tempStreak) == MaxRun(v[i..])
  }

  /** One step of the backward scan keeps its state */
  lemma BackScanStep(v: seq<bool>, i: int, longest: int, tempStreak: int)
    requires 0 <= i < |v| && BackScanState(v, i + 1, longest, tempStreak)
    ensures v[i] ==> BackScanState(v, i, longest, tempStreak + 1)
    ensures !v[i] ==> BackScanState(v, i, Max(longest, tempStreak), 0)
  {
    assert v[i..][1..] == v[i + 1..];
  }

  /** The run the scan reports is a real run: it is attained by some stretch of
      keys adjacent in date order whose values are all true, and no such stretch
      is longer */
  lemma AsCodedIsLongestTrueStretch(h: History, i: nat, len: nat) returns (start: nat)
    requires i + len <= |h| && AllTrue(ValuesInDateOrder(h)[i..i + len])
    ensures len <= MaxRun(ValuesInDateOrder(h)) <= |h|
    ensures start + MaxRun(ValuesInDateOrder(h)) <= |h|
    ensures AllTrue(ValuesInDateOrder(h)[start..start + MaxRun(ValuesInDateOrder(h))])
  {
    start := LongestTrueStretch(ValuesInDateOrder(h), i, len);
  }

  /** MaxRun bounds every all-true stretch and is attained by one */
  lemma LongestTrueStretch(v: seq<bool>, i: nat, len: nat) returns (start: nat)
    requires i + len <= |v| && AllTrue(v[i..i + len])
    ensures len <= MaxRun(v) <= |v|
    ensures start + MaxRun(v) <= |v|
    ensures AllTrue(v[start..start + MaxRun(v)])
  {
    MaxRunBound(v, i, len);
    start := MaxRunAttained(v);
  }

  /** When every value is true (the invariant the mutators keep), the scan
      returns the number of keys, whatever gaps lie between the dates */
  lemma AsCodedCountsAllKeys(h: History)
    requires AllMarksTrue(h)
    ensures MaxRun(ValuesInDateOrder(h)) == |h|
  {
    AllTrueMaxRun(ValuesInDateOrder(h));
  }

  /** The dates `s[p]`, `s[p] + 1`, ..., `s[p] + n - 1`, when all present, are
      adjacent entries of the strictly increasing sequence `s` */
  lemma {:induction false} ConsecutiveDaysAdjacent(s: seq<Date>, p: int, n: nat)
    requires StrictlyIncreasing(s) && 0 <= p < |s|
    requires forall d :: s[p] <= d < s[p] + n ==> d in s
    ensures p + n <= |s|
    ensures forall q :: p <= q < p + n ==> s[q] == s[p] + (q - p)
    decreases n
  {
    if n > 1 {
      ConsecutiveDaysAdjacent(s, p, n - 1);
      var d := s[p] + n - 1;
      assert d in s;
      var q :| 0 <= q < |s| && s[q] == d;
      assert s[p + n - 2] == d - 1;
      assert p + n - 1 <= q;
      assert s[p + n - 2] < s[p + n - 1] <= s[q];
    }
  }

  /** The current streak is never longer than the longest streak as the source
      computes it: the days of the current streak are adjacent keys in date order */
  lemma CurrentWithinAsCoded(h: History, today: Date, k: nat)
    requires DaySpan(today - k + 1, today) <= DoneDays(h)
    ensures k <= MaxRun(ValuesInDateOrder(h))
  {
    if k > 0 {
      var p := RunPosition(h, today, k);
      MaxRunBound(ValuesInDateOrder(h), p, k);
    }
  }

  /** Where the days `today - k + 1`, ..., `today` sit among the sorted keys */
  lemma RunPosition(h: History, today: Date, k: nat) returns (p: nat)
    requires k > 0 && DaySpan(today - k + 1, today) <= DoneDays(h)
    ensures p + k <= |ValuesInDateOrder(h)|
    ensures AllTrue(ValuesInDateOrder(h)[p..p + k])
  {
    var s := Sorted(h.Keys);
    var v := ValuesAt(h, s);
    assert v == ValuesInDateOrder(h);
    SpanInKeys(h, today - k + 1, today);
    p := RunAmongDates(h, s, v, today - k + 1, k);
  }

  /** The same, for any strictly increasing sequence of keys and the values read along it */
  lemma RunAmongDates(h: History, s: seq<Date>, v: seq<bool>, start: Date, k: nat) returns (p: nat)
    requires StrictlyIncreasing(s)
    requires |v| == |s| && forall q :: 0 <= q < |s| ==> s[q] in h && v[q] == h[s[q]]
    requires k > 0 && forall d :: start <= d <= start + k - 1 ==> d in s && IsDone(h, d)
    ensures p + k <= |v| && AllTrue(v[p..p + k])
  {
    p := PositionOf(s, start);
    ConsecutiveDaysAdjacent(s, p, k);
    SpanValuesTrue(h, s, v, p, k);
  }

  lemma SpanInKeys(h: History, first: Date, last: Date)
    requires first <= last && DaySpan(first, last) <= DoneDays(h)
    ensures forall d :: first <= d <= last ==> d in Sorted(h.Keys) && IsDone(h, d)
  {
    forall d | first <= d <= last ensures d in Sorted(h.Keys) && IsDone(h, d) {
      assert d in DaySpan(first, last);
    }
  }

  lemma PositionOf(s: seq<Date>, d: Date) returns (p: nat)
    requires d in s
    ensures p < |s| && s[p] == d
  {
    p :| 0 <= p < |s| && s[p] == d;
  }

  lemma SpanValuesTrue(h: History, s: seq<Date>, v: seq<bool>, p: nat, k: nat)
    requires |v| == |s| && forall q :: 0 <= q < |s| ==> s[q] in h && v[q] == h[s[q]]
    requires p < |s| && p + k <= |s|
    requires forall q :: p <= q < p + k ==> s[q] == s[p] + (q - p)
    requires forall d :: s[p] <= d < s[p] + k ==> IsDone(h, d)
    ensures AllTrue(v[p..p + k])
  {
    forall q | p <= q < p + k ensures v[q] {
      assert IsDone(h, s[q]);
    }
  }

  // ---------------------------------------------------------------------------
  // Longest streak over consecutive calendar days (a separate definition)

  /** The `len` consecutive days starting at `start` are all in `days` */
  predicate IsRun(days: set<Date>, start: Date, len: nat) {
    forall d :: start <= d < start + len ==> d in days
  }

  /** The longest run of consecutive calendar days whose value is true:
      a gap in the calendar ends a run even when the next key follows it
      directly in sorted order */
  method LongestCalendarStreak(h: History) returns (longest: nat)
    ensures longest == 0 <==> DoneDays(h) == {}
    ensures exists start :: IsRun(DoneDays(h), start, longest)
    ensures forall start, len: nat :: IsRun(DoneDays(h), start, len) ==> len <= longest
  {
    longest := LongestRun(DoneDays(h));
  }

  /** The scan behind LongestCalendarStreak, over the set of done days: one
      pass over the days in sorted order, extending the current run while
      each day follows the previous one and starting afresh otherwise */
  method LongestRun(days: set<Date>) returns (longest: nat)
    ensures longest == 0 <==> days == {}
    ensures exists start :: IsRun(days, start, longest)
    ensures forall start, len: nat :: IsRun(days, start, len) ==> len <= longest
  {
    var s := Sorted(days);
    longest := 0;
    var run := 0;
    ghost var first := 0;      // the first day of the run that ends at s[i - 1]
    ghost var bestStart := 0;  // the first day of a run of length `longest`
    var i := 0;
    while i < |s|
      invariant 0 <= i <= |s|
      invariant ScanState(days, s, i, first, run, longest, bestStart)
    {
      var adjacent := i > 0 && s[i - 1] + 1 == s[i];
      var run' := if adjacent then run + 1 else 1;
      ghost var first' := if adjacent then first else s[i];
      var longest' := if run' > longest then run' else longest;
      ghost var bestStart' := if run' > longest then first' else bestStart;
      ScanStep(days, s, i, first, run, longest, bestStart, first', run', longest', bestStart');
      run, longest, first, bestStart := run', longest', first', bestStart';
      i := i + 1;
    }
    ScanFinish(days, s, first, run, longest, bestStart);
  }

  /** Once the scan has passed every day, its state answers for all runs */
  lemma ScanFinish(days: set<Date>, s: seq<Date>, first: Date, run: nat, longest: nat, bestStart: Date)
    requires s == Sorted(days)
    requires ScanState(days, s, |s|, first, run, longest, bestStart)
    ensures longest == 0 <==> days == {}
    ensures exists start :: IsRun(days, start, longest)
    ensures forall start, len: nat :: IsRun(days, start, len) ==> len <= longest
  {
    RunsEndingAnywhere(days, s, longest);
    if days != {} {
      assert s[0] in days;
    }
  }

  /** Once every day of the set has been passed, the bound covers all runs */
  lemma RunsEndingAnywhere(days: set<Date>, s: seq<Date>, longest: nat)
    requires forall d :: d in days <==> d in s
    requires forall start, len: nat ::
      IsRun(days, start, len) && len > 0 && start + len - 1 in s[..|s|] ==> len <= longest
    ensures forall start, len: nat :: IsRun(days, start, len) ==> len <= longest
  {
    assert s[..|s|] == s;
    forall start, len: nat | IsRun(days, start, len) && len > 0 ensures start + len - 1 in s {
      EndOfRunIsDone(days, start, len);
    }
  }

  /** What the scan knows after the first `i` sorted days: `run` is the
      length of the maximal run ending at `s[i - 1]`, which starts at `first`;
      `longest` is attained by the run starting at `bestStart`, and no run
      ending at one of the days scanned so far is longer */
  ghost predicate ScanState(days: set<Date>, s: seq<Date>, i: int, first: Date, run: nat, longest: nat, bestStart: Date)
    requires 0 <= i <= |s|
  {
    && (i == 0 ==> run == 0 && longest == 0)
    && (i > 0 ==> 1 <= run <= longest && first + run == s[i - 1] + 1)
    && (i > 0 ==> IsRun(days, first, run) && first - 1 !in days)
    && IsRun(days, bestStart, longest)
    && forall start, len: nat ::
      IsRun(days, start, len) && len > 0 && start + len - 1 in s[..i] ==> len <= longest
  }

  /** One step of the scan over the sorted days keeps ScanState */
  lemma ScanStep(days: set<Date>, s: seq<Date>, i: int, first: Date, run: nat, longest: nat, bestStart: Date,
                 first': Date, run': nat, longest': nat, bestStart': Date)
    requires s == Sorted(days) && 0 <= i < |s|
    requires ScanState(days, s, i, first, run, longest, bestStart)
    requires if i > 0 && s[i - 1] + 1 == s[i] then run' == run + 1 && first' == first
             else run' == 1 && first' == s[i]
    requires if run' > longest then longest' == run' && bestStart' == first'
             else longest' == longest && bestStart' == bestStart
    ensures ScanState(days, s, i + 1, first', run', longest', bestStart')
  {
    assert s[i] in days;
    var adjacent := i > 0 && s[i - 1] + 1 == s[i];
    DayBeforeMissing(days, s, i);
    NextRun(days, s[i], adjacent, first, run, first', run');
    RunsEndingUpTo(days, s, i, first', run', longest, longest');
  }

  /** The maximal run ending at `day` extends the run ending the day before
      when that day is in the set, and starts afresh at `day` otherwise */
  lemma NextRun(days: set<Date>, day: Date, adjacent: bool, first: Date, run: nat, first': Date, run': nat)
    requires day in days
    requires adjacent ==> first + run == day && IsRun(days, first, run) && first - 1 !in days
    requires !adjacent ==> day - 1 !in days
    requires if adjacent then run' == run + 1 && first' == first else run' == 1 && first' == day
    ensures IsRun(days, first', run') && first' - 1 !in days && first' + run' == day + 1
  {
    if adjacent {
      ExtendRun(days, first, run);
    }
  }

  /** Every run ending at one of `s[0]`, ..., `s[i]` is bounded by the longest
      run seen before `s[i]` or by the maximal run ending at `s[i]` */
  lemma RunsEndingUpTo(days: set<Date>, s: seq<Date>, i: int, first: Date, run: nat, longest: nat, longest': nat)
    requires 0 <= i < |s|
    requires IsRun(days, first, run) && first - 1 !in days && first + run == s[i] + 1
    requires forall start, len: nat ::
      IsRun(days, start, len) && len > 0 && start + len - 1 in s[..i] ==> len <= longest
    requires longest' == Max(longest, run)
    ensures forall start, len: nat ::
      IsRun(days, start, len) && len > 0 && start + len - 1 in s[..i + 1] ==> len <= longest'
  {
    assert s[..i + 1] == s[..i] + [s[i]];
    forall start, len: nat | IsRun(days, start, len) && len > 0 && start + len - 1 == s[i]
      ensures len <= run
    {
      RunBoundedByStart(days, first, run, start, len);
    }
  }

  /** A run followed by the next day is a run one longer */
  lemma ExtendRun(days: set<Date>, start: Date, len: nat)
    requires IsRun(days, start, len) && start + len in days
    ensures IsRun(days, start, len + 1)
  {
  }

  /** The last day of a non-empty run is in the set */
  lemma EndOfRunIsDone(days: set<Date>, start: Date, len: nat)
    requires IsRun(days, start, len) && len > 0
    ensures start + len - 1 in days
  {
  }

  /** Where the sorted days do not step by one (or at the first of them),
      the day before is not in the set */
  lemma DayBeforeMissing(days: set<Date>, s: seq<Date>, i: int)
    requires s == Sorted(days) && 0 <= i < |s|
    ensures (i == 0 || s[i - 1] + 1 != s[i]) ==> s[i] - 1 !in days
  {
    if i == 0 || s[i - 1] + 1 != s[i] {
      forall q | 0 <= q < |s| ensures s[q] != s[i] - 1 {
        if q < i {
          assert s[q] <= s[i - 1];
        }
      }
    }
  }

  /** A run ending where a maximal run ends is no longer than it */
  lemma RunBoundedByStart(days: set<Date>, first: Date, run: nat, start: Date, len: nat)
    requires IsRun(days, first, run) && first - 1 !in days
    requires IsRun(days, start, len) && start + len == first + run
    ensures len <= run
  {
    assert len > run ==> start <= first - 1;
  }

  // ---------------------------------------------------------------------------
  // How the two longest-streak definitions relate

  /** The days of a current streak of `k` days form a calendar run */
  lemma CurrentStreakIsRun(h: History, today: Date, k: nat)
    requires DaySpan(today - k + 1, today) <= DoneDays(h)
    ensures IsRun(DoneDays(h), today - k + 1, k)
  {
    forall d | today - k + 1 <= d < today - k + 1 + k ensures d in DoneDays(h) {
      assert d in DaySpan(today - k + 1, today);
    }
  }

  /** Every calendar run is also counted by the scan as the source codes it,
      so the source's figure is never below the calendar-contiguous one */
  lemma CalendarWithinAsCoded(h: History, start: Date, len: nat)
    requires IsRun(DoneDays(h), start, len)
    ensures len <= MaxRun(ValuesInDateOrder(h))
  {
    var last := start + len - 1;
    forall d | d in DaySpan(last - len + 1, last) ensures d in DoneDays(h) {
      assert start <= d < start + len;
    }
    CurrentWithinAsCoded(h, last, len);
  }

  /** A history whose five done days, from `first`, skip the fourth day */
  function GapHistory(first: Date): History {
    map[first := true, first + 1 := true, first + 2 := true, first + 4 := true, first + 5 := true]
  }

  /** As coded, a gap in the calendar does not end a streak: the scan counts
      all five done days of `GapHistory` as one streak */
  lemma GapCounted(first: Date)
    ensures MaxRun(ValuesInDateOrder(GapHistory(first))) == 5
  {
    var h := GapHistory(first);
    var k3 := {first, first + 1, first + 2};
    assert |k3| == 3;
    var k5 := k3 + {first + 4} + {first + 5};
    assert first + 4 !in k3 && first + 5 !in k3 + {first + 4};
    assert h.Keys == k5;
    AsCodedCountsAllKeys(h);
  }

  /** The longest run of consecutive done days of `GapHistory` is the three
      days before the gap */
  lemma GapEndsRun(first: Date)
    ensures IsRun(DoneDays(GapHistory(first)), first, 3)
    ensures forall start, len: nat :: IsRun(DoneDays(GapHistory(first)), start, len) ==> len <= 3
  {
    var days := DoneDays(GapHistory(first));
    assert days == {first, first + 1, first + 2, first + 4, first + 5};
    forall start, len: nat | IsRun(days, start, len) ensures len <= 3 {
      var d := if start < first then start else if start <= first + 3 then first + 3 else start + 3;
      assert d !in days;
    }
  }

  /** With every day of 2024-01-01, 2024-01-02, 2024-01-03, 2024-01-05 and
      2024-01-06 marked done, the scan as coded reports a longest streak of
      five days */
  lemma GapCountedAsStreak()
    ensures MaxRun(ValuesInDateOrder(GapHistory(ToOrdinal(Ymd(2024, 1, 1))))) == 5
  {
    GapCounted(ToOrdinal(Ymd(2024, 1, 1)));
  }

  /** On the same history the longest run of consecutive done days is three
      days, 2024-01-01 to 2024-01-03 */
  lemma GapEndsCalendarStreak()
    ensures var days := DoneDays(GapHistory(ToOrdinal(Ymd(2024, 1, 1))));
      IsRun(days, ToOrdinal(Ymd(2024, 1, 1)), 3) &&
      forall start, len: nat :: IsRun(days, start, len) ==> len <= 3
  {
    GapEndsRun(ToOrdinal(Ymd(2024, 1, 1)));
  }
}

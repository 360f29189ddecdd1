/**
 * The completion percentage of the progress report: the number of true
 * entries of the history over the number of days from the creation date to
 * today, both included, guarded against a span that is empty or negative.
 * The value is an exact `real`; the float division and the two-decimal
 * rendering are not modelled.
 */
module Progress {
  import opened Dates
  import opened Habits

  /** `sum(1 for completed in completion_history.values() if completed)` */
  function CompletedDays(h: History): nat {
    |DoneDays(h)|
  }

  /** `(current_date - start_date).days + 1` */
  function TotalDays(creation: Date, today: Date): int {
    today - creation + 1
  }

  /** `(completed_days / total_days) * 100 if total_days > 0 else 0` */
  function CompletionPercentage(h: History, creation: Date, today: Date): (p: real)
    ensures p >= 0.0
    ensures p == 0.0 <==> TotalDays(creation, today) <= 0 || DoneDays(h) == {}
  {
    Percent(CompletedDays(h), TotalDays(creation, today))
  }

  /** `completed / total * 100`, or 0 when `total` is not positive */
  function Percent(completed: nat, total: int): (p: real)
    ensures p >= 0.0
    ensures p == 0.0 <==> total <= 0 || completed == 0
    ensures total > 0 ==> p * total as real == 100.0 * completed as real
  {
    if total > 0 then (completed as real / total as real) * 100.0 else 0.0
  }

  /** More completed days over the same span give a larger percentage */
  lemma PercentMonotone(c1: nat, c2: nat, total: int)
    requires c1 <= c2
    ensures Percent(c1, total) <= Percent(c2, total)
  {
    if total > 0 {
      var p1, p2, t := Percent(c1, total), Percent(c2, total), total as real;
      assert p1 * t == 100.0 * c1 as real && p2 * t == 100.0 * c2 as real;
      ScaleOrder(p1, p2, t);
    }
  }

  /** The percentage reaches 100 exactly when every day of the span is done,
      and never exceeds it */
  lemma PercentFull(completed: nat, total: int)
    requires 0 < total && completed <= total
    ensures Percent(completed, total) <= 100.0
    ensures Percent(completed, total) == 100.0 <==> completed == total
  {
    var p := Percent(completed, total);
    ScaleOrder(p, 100.0, total as real);
    if completed == total {
      ScaleOrder(100.0, p, total as real);
    }
  }

  /** When every done day lies between the creation date and today, the
      percentage is at most 100 */
  lemma PercentageBounded(h: History, creation: Date, today: Date)
    requires DoneDays(h) <= DaySpan(creation, today)
    ensures 0.0 <= CompletionPercentage(h, creation, today) <= 100.0
  {
    SubsetSize(DoneDays(h), DaySpan(creation, today));
    if creation <= today {
      PercentFull(CompletedDays(h), TotalDays(creation, today));
    }
  }

  /** Under the same condition, the percentage is exactly 100 when every day
      from the creation date to today is done, and only then */
  lemma PercentageFull(h: History, creation: Date, today: Date)
    requires creation <= today && DoneDays(h) <= DaySpan(creation, today)
    ensures CompletionPercentage(h, creation, today) == 100.0 <==> DoneDays(h) == DaySpan(creation, today)
  {
    SubsetSize(DoneDays(h), DaySpan(creation, today));
    PercentFull(CompletedDays(h), TotalDays(creation, today));
    if DoneDays(h) != DaySpan(creation, today) {
      StrictSubsetSize(DoneDays(h), DaySpan(creation, today));
    }
  }

  /** Marking a day done never lowers the percentage */
  lemma MarkingRaisesPercentage(h: History, creation: Date, today: Date, d: Date)
    ensures CompletionPercentage(h, creation, today) <= CompletionPercentage(MarkDay(h, d), creation, today)
  {
    SubsetSize(DoneDays(h), DoneDays(MarkDay(h, d)));
    PercentMonotone(CompletedDays(h), CompletedDays(MarkDay(h, d)), TotalDays(creation, today));
  }

  /** Of two reals scaled by the same positive factor, the smaller product
      has the smaller factor */
  lemma ScaleOrder(x: real, y: real, t: real)
    requires t > 0.0 && x * t <= y * t
    ensures x <= y
  {
    assert x > y ==> (x - y) * t > 0.0;
  }

  /** Three done days over a five-day span give 60 */
  lemma SixtyPercent()
    ensures CompletionPercentage(map[10 := true, 11 := true, 12 := false, 14 := true], 10, 14) == 60.0
  {
    var h := map[10 := true, 11 := true, 12 := false, 14 := true];
    assert DoneDays(h) == {10, 11, 14} by {
      assert forall d :: d in DoneDays(h) <==> d == 10 || d == 11 || d == 14;
    }
  }
}

/**
 * The habit registry: a map from habit name to its record, the parsing of the
 * add-habit input line, and the three mutators (mark today done, mark today
 * undone, delete) that `HabitTrackerApp` applies to it in place.
 */
module Habits {
  import opened Dates
  import opened Text

  /** A habit's `completion_history`: ISO date keys (here their day ordinals)
      mapped to the value stored for that day */
  type History = map<Date, bool>

  /** One habit's record: `description`, `creation_date`, `completion_history` */
  datatype Habit = Habit(description: string, creationDate: Date, history: History)

  /** `d in history and history[d]`: the test every reader of the history applies */
  predicate IsDone(h: History, d: Date) {
    d in h && h[d]
  }

  /** The dates marked with a true value */
  function DoneDays(h: History): (s: set<Date>)
    ensures forall d :: d in s <==> IsDone(h, d)
    ensures s <= h.Keys
  {
    set d | d in h.Keys && h[d]
  }

  /** The invariant the mutators keep: every stored value is `True`, so the
      history behaves as the set of its keys */
  predicate AllMarksTrue(h: History) {
    forall d :: d in h ==> h[d]
  }

  lemma AllMarksTrueIsKeySet(h: History)
    requires AllMarksTrue(h)
    ensures DoneDays(h) == h.Keys
  {
    assert forall d :: d in h.Keys ==> d in DoneDays(h);
  }

  /** `history[today] = True` */
  function MarkDay(h: History, d: Date): (r: History)
    ensures IsDone(r, d) && r.Keys == h.Keys + {d}
    ensures forall e :: e != d ==> (e in r <==> e in h) && (e in h ==> r[e] == h[e])
  {
    h[d := true]
  }

  /** `del history[today]` when the key is present; no change otherwise */
  function UnmarkDay(h: History, d: Date): (r: History)
    ensures !IsDone(r, d) && d !in r && r.Keys == h.Keys - {d}
    ensures forall e :: e in r ==> r[e] == h[e]
  {
    if d in h then h - {d} else h
  }

  /** Marking is idempotent, and it keeps every value true */
  lemma MarkDayProperties(h: History, d: Date)
    ensures MarkDay(MarkDay(h, d), d) == MarkDay(h, d)
    ensures AllMarksTrue(h) ==> AllMarksTrue(MarkDay(h, d))
    ensures IsDone(h, d) ==> MarkDay(h, d) == h
  {
  }

  /** Unmarking is idempotent, keeps every value true, and undoes a fresh mark */
  lemma UnmarkDayProperties(h: History, d: Date)
    ensures UnmarkDay(UnmarkDay(h, d), d) == UnmarkDay(h, d)
    ensures AllMarksTrue(h) ==> AllMarksTrue(UnmarkDay(h, d))
    ensures d !in h ==> UnmarkDay(MarkDay(h, d), d) == h
  {
  }

  /** The name and description typed into the add-habit dialog:
      `parts = input.split(',')`, the name is `parts[0].strip()` and the
      description `parts[1].strip()`, or `""` when there is no comma */
  function ParseHabitInput(input: string): (nameAndDescription: (string, string))
  {
    var parts := Split(input, ',');
    (Strip(parts[0]), if |parts| > 1 then Strip(parts[1]) else "")
  }

  /** The index of the first `c` in `s`, or `|s|` when there is none */
  function IndexOf(s: string, c: char): (k: nat)
    ensures k <= |s| && (k == |s| || s[k] == c)
    ensures forall j :: 0 <= j < k ==> s[j] != c
  {
    if s == [] || s[0] == c then 0 else 1 + IndexOf(s[1..], c)
  }

  /** A separator-free prefix ending at a separator (or at the end) ends at the first one */
  lemma IndexOfUnique(s: string, c: char, m: nat)
    requires m <= |s| && (m == |s| || s[m] == c) && c !in s[..m]
    ensures m == IndexOf(s, c)
  {
    assert forall j :: 0 <= j < m ==> s[j] != c by {
      assert forall j :: 0 <= j < m ==> s[j] == s[..m][j];
    }
  }

  /** The name is the stripped text before the first comma */
  lemma ParseHabitName(input: string)
    ensures ParseHabitInput(input).0 == Strip(input[..IndexOf(input, ',')])
  {
    SplitFirstField(input, ',');
    IndexOfUnique(input, ',', |Split(input, ',')[0]|);
  }

  /** Without a comma the description is empty */
  lemma ParseHabitNoDescription(input: string)
    ensures IndexOf(input, ',') == |input| ==> ParseHabitInput(input).1 == ""
  {
    if IndexOf(input, ',') == |input| {
      NoSecondField(input);
    }
  }

  /** With a comma, the description is the stripped text between the first
      comma and the next one, or the end of the input */
  lemma ParseHabitDescription(input: string)
    ensures var k := IndexOf(input, ',');
      k < |input| ==>
        ParseHabitInput(input).1 == Strip(input[k + 1..][..IndexOf(input[k + 1..], ',')])
  {
    var parts := Split(input, ',');
    var k := IndexOf(input, ',');
    SplitFirstField(input, ',');
    IndexOfUnique(input, ',', |parts[0]|);
    if k < |input| {
      SecondFieldIsNextSegment(input, k);
    }
  }

  lemma NoSecondField(input: string)
    requires IndexOf(input, ',') == |input|
    ensures |Split(input, ',')| == 1
  {
    CountPositive(input, ',');
  }

  lemma SecondFieldIsNextSegment(input: string, k: nat)
    requires k == IndexOf(input, ',') < |input| && k == |Split(input, ',')[0]|
    ensures |Split(input, ',')| >= 2 && k < |input|
    ensures Split(input, ',')[1] == input[k + 1..][..IndexOf(input[k + 1..], ',')]
  {
    assert input[k] == ',';
    SplitSecondField(input, ',');
    var parts := Split(input, ',');
    var rest := input[k + 1..];
    var m := |parts[1]|;
    assert parts[1] == rest[..m];
    IndexOfUnique(rest, ',', m);
  }

  /** What the add-habit dialog ends in */
  datatype AddOutcome =
    | Cancelled                   // the dialog returned None
    | EmptyName                   // "Habit name cannot be empty."
    | DuplicateName(name: string) // "Habit '...' already exists."
    | Added(name: string)         // "Habit '...' added successfully!"

  /** The app's `self.habits`, with the order in which its keys were inserted */
  class HabitRegistry {
    var habits: map<string, Habit>
    /** The dictionary's iteration order: insertion order of the present keys */
    var order: seq<string>

    ghost predicate Valid()
      reads this
    {
      (forall n :: n in habits <==> n in order) &&
      (forall i, j :: 0 <= i < j < |order| ==> order[i] != order[j])
    }

    /** Every habit's history holds only true values */
    ghost predicate AllHistoriesTrue()
      reads this
    {
      forall n :: n in habits ==> AllMarksTrue(habits[n].history)
    }

    /** The registry `load_data` starts with when there is no data file,
        or when the file cannot be decoded */
    constructor ()
      ensures Valid() && AllHistoriesTrue()
      ensures habits == map[] && order == []
    {
      habits := map[];
      order := [];
    }

    /** The non-interface part of `show_add_habit_dialog`: `input` is what the
        dialog returned (None when cancelled) */
    method Add(input: Option<string>, today: Date) returns (outcome: AddOutcome)
      requires Valid()
      modifies this
      ensures Valid()
      ensures old(AllHistoriesTrue()) ==> AllHistoriesTrue()
      ensures input.None? ==> outcome == Cancelled
      ensures input.Some? ==> var name := ParseHabitInput(input.value).0;
        && (name == "" ==> outcome == EmptyName)
        && (name != "" && name in old(habits) ==> outcome == DuplicateName(name))
        && (name != "" && name !in old(habits) ==> outcome == Added(name))
      ensures outcome.Added? ==>
        && input.Some? && outcome.name in habits
        && habits[outcome.name] == Habit(ParseHabitInput(input.value).1, today, map[])
      ensures outcome.Added? ==>
        && habits.Keys == old(habits).Keys + {outcome.name}
        && outcome.name !in old(habits)
        && (forall n :: n in old(habits) ==> habits[n] == old(habits)[n])
        && order == old(order) + [outcome.name]
      ensures !outcome.Added? ==> habits == old(habits) && order == old(order)
    {
      if input.None? {
        return Cancelled;
      }
      var name := ParseHabitInput(input.value).0;
      var description := ParseHabitInput(input.value).1;
      if name == "" {
        return EmptyName;
      }
      if name in habits {
        return DuplicateName(name);
      }
      habits := habits[name := Habit(description, today, map[])];
      order := order + [name];
      outcome := Added(name);
    }

    /** `mark_habit_done`; `saved` tells whether the app saves and refreshes */
    method MarkDone(name: string, today: Date) returns (saved: bool)
      requires Valid()
      modifies this
      ensures Valid() && order == old(order)
      ensures old(AllHistoriesTrue()) ==> AllHistoriesTrue()
      ensures saved == (name in old(habits))
      ensures habits == WithDayMarked(old(habits), name, today)
    {
      saved := name in habits;
      if saved {
        var h := habits[name];
        habits := habits[name := h.(history := MarkDay(h.history, today))];
      }
    }

    /** `mark_habit_undone`; `saved` tells whether the app saves and refreshes */
    method MarkUndone(name: string, today: Date) returns (saved: bool)
      requires Valid()
      modifies this
      ensures Valid() && order == old(order)
      ensures old(AllHistoriesTrue()) ==> AllHistoriesTrue()
      ensures saved == (name in old(habits) && today in old(habits)[name].history)
      ensures habits == WithDayUnmarked(old(habits), name, today)
    {
      saved := name in habits && today in habits[name].history;
      if saved {
        var h := habits[name];
        habits := habits[name := h.(history := UnmarkDay(h.history, today))];
      }
    }

    /** `delete_habit`; `saved` tells whether the app saves and refreshes */
    method Delete(name: string) returns (saved: bool)
      requires Valid()
      modifies this
      ensures Valid()
      ensures old(AllHistoriesTrue()) ==> AllHistoriesTrue()
      ensures saved == (name in old(habits))
      ensures habits == Without(old(habits), name)
      ensures order == Removed(old(order), name)
      ensures forall i :: 0 <= i < |old(order)| && old(order)[i] == name ==>
        order == old(order)[..i] + old(order)[i + 1..]
    {
      saved := name in habits;
      if !saved {
        RemovedAbsent(order, name);
      } else {
        forall i | 0 <= i < |order| && order[i] == name
          ensures Removed(order, name) == order[..i] + order[i + 1..]
        {
          RemovedCutsOut(order, name, i);
        }
        RemovedKeepsDistinct(order, name);
        habits := habits - {name};
        order := Removed(order, name);
      }
    }
  }

  datatype Option<T> = None | Some(value: T)

  /** The registry after `mark_habit_done(name)` on day `today` */
  function WithDayMarked(habits: map<string, Habit>, name: string, today: Date): (r: map<string, Habit>)
    ensures r.Keys == habits.Keys
    ensures forall n :: n in habits && n != name ==> r[n] == habits[n]
    ensures name in habits ==>
      IsDone(r[name].history, today) &&
      r[name] == habits[name].(history := r[name].history)
  {
    if name in habits then habits[name := habits[name].(history := MarkDay(habits[name].history, today))]
    else habits
  }

  /** The registry after `mark_habit_undone(name)` on day `today` */
  function WithDayUnmarked(habits: map<string, Habit>, name: string, today: Date): (r: map<string, Habit>)
    ensures r.Keys == habits.Keys
    ensures forall n :: n in habits && n != name ==> r[n] == habits[n]
    ensures name in habits ==>
      today !in r[name].history &&
      r[name] == habits[name].(history := r[name].history)
  {
    if name in habits && today in habits[name].history then
      habits[name := habits[name].(history := UnmarkDay(habits[name].history, today))]
    else habits
  }

  /** The registry after `delete_habit(name)` */
  function Without(habits: map<string, Habit>, name: string): (r: map<string, Habit>)
    ensures r.Keys == habits.Keys - {name}
    ensures forall n :: n in r ==> r[n] == habits[n]
  {
    habits - {name}
  }

  /** `order` without `name`: the key order after `del d[name]` */
  function Removed(order: seq<string>, name: string): (r: seq<string>)
    ensures forall n :: n in r <==> n in order && n != name
    ensures |r| <= |order|
  {
    if order == [] then []
    else if order[0] == name then Removed(order[1..], name)
    else [order[0]] + Removed(order[1..], name)
  }

  lemma {:induction false} RemovedKeepsDistinct(order: seq<string>, name: string)
    requires forall i, j :: 0 <= i < j < |order| ==> order[i] != order[j]
    ensures var r := Removed(order, name); forall i, j :: 0 <= i < j < |r| ==> r[i] != r[j]
  {
    if order != [] {
      RemovedKeepsDistinct(order[1..], name);
      assert order[0] !in order[1..];
      assert order[0] !in Removed(order[1..], name);
    }
  }

  lemma {:induction false} RemovedAbsent(order: seq<string>, name: string)
    requires name !in order
    ensures Removed(order, name) == order
  {
    if order != [] {
      RemovedAbsent(order[1..], name);
      assert order == [order[0]] + order[1..];
    }
  }

  /** In a duplicate-free order, removing a present name cuts out its one
      position and keeps the other names in their insertion order */
  lemma {:induction false} RemovedCutsOut(order: seq<string>, name: string, i: nat)
    requires forall j, k :: 0 <= j < k < |order| ==> order[j] != order[k]
    requires i < |order| && order[i] == name
    ensures Removed(order, name) == order[..i] + order[i + 1..]
  {
    if i == 0 {
      assert name !in order[1..] by {
        forall k | 0 <= k < |order| - 1 ensures order[1..][k] != name {
          assert order[k + 1] != order[0];
        }
      }
      RemovedAbsent(order[1..], name);
    } else {
      RemovedCutsOut(order[1..], name, i - 1);
      assert order[..i] + order[i + 1..] == [order[0]] + (order[1..][..i - 1] + order[1..][i..]);
    }
  }

  /** Marking and unmarking change only that habit's entry for that day:
      both are idempotent, leave an unknown name alone, and keep the
      description and creation date */
  lemma MarkingProperties(habits: map<string, Habit>, name: string, today: Date)
    ensures WithDayMarked(WithDayMarked(habits, name, today), name, today) == WithDayMarked(habits, name, today)
    ensures WithDayUnmarked(WithDayUnmarked(habits, name, today), name, today) == WithDayUnmarked(habits, name, today)
    ensures name !in habits ==> WithDayMarked(habits, name, today) == habits && WithDayUnmarked(habits, name, today) == habits
    ensures name in habits ==>
      var h := habits[name].history;
      WithDayMarked(habits, name, today)[name].history == MarkDay(h, today) &&
      WithDayUnmarked(habits, name, today)[name].history == UnmarkDay(h, today)
  {
    if name in habits {
      var h := habits[name].history;
      assert MarkDay(MarkDay(h, today), today) == MarkDay(h, today);
    }
  }

  /** Deleting removes exactly that key, and deleting again changes nothing */
  lemma DeleteProperties(habits: map<string, Habit>, name: string)
    ensures name !in habits ==> Without(habits, name) == habits
    ensures Without(Without(habits, name), name) == Without(habits, name)
    ensures name in habits ==> |Without(habits, name)| == |habits| - 1
  {
  }
}

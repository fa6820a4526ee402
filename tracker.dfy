/**
 * The tracker's mutable state `{ monthOffset, habits }` and the handlers
 * that read and update it: loading (with the sample fallback), the month
 * navigation buttons, the table's checkbox and delete events, the add-habit
 * prompt, and the computations behind the rendered table (per-habit COUNT
 * and percentage, placeholder rows, the Total row).
 */
module Tracker {
  import opened Calendar
  import opened DayKeys
  import opened Habits

  /** The persisted shape of the state. */
  datatype Snapshot = Snapshot(monthOffset: int, habits: seq<Habit>)

  /**
   * What the stored item yields once read and parsed. `Missing` is an absent
   * item or the empty string, `Unparsable` a parse failure (or a parsed
   * `null`, whose field access throws inside the same `try`). In `Parsed`,
   * `habits` is None when the field is missing or falsy and `monthOffset` is
   * None when the field is not a number.
   */
  datatype Stored =
    | Missing
    | Unparsable
    | Parsed(habits: Option<seq<Habit>>, monthOffset: Option<int>)

  /** One rendered habit row: position, id, name, the day checkboxes, COUNT and bar width. */
  datatype Row = Row(position: nat, id: string, name: string, checked: seq<bool>, count: nat, percent: nat)

  /**
   * The table body: the habit rows, one entry per placeholder row (the number
   * of blank day cells it holds), the Total row's per-day cells and its sum.
   */
  datatype Grid = Grid(rows: seq<Row>, placeholders: seq<nat>, totals: seq<nat>, totalSum: nat)

  /** An event delegated to the table body. */
  datatype TableEvent =
    | CheckboxChange(habitId: string, dayKey: string, checked: bool)  // an `input[type="checkbox"]` target
    | DeleteClick(habitId: string)                                    // a target inside a `[data-delete]` button
    | OtherTarget

  // ---------------------------------------------------------------------
  // Sample state and loading
  // ---------------------------------------------------------------------

  /** The days of the month each sample habit is marked on, in habit order. */
  const SampleDays: seq<set<nat>> := [{2, 8, 12}, {5, 6, 7, 9, 12}, {2, 3, 4, 6, 7, 9, 12}]

  /**
   * makeSampleState: three habits marked on fixed days of the month of
   * `activeMonth`, or of `today` when none is given. The three ids stand for
   * the three `crypto.randomUUID()` results.
   */
  function MakeSampleState(activeMonth: Option<Date>, today: Date, id1: string, id2: string, id3: string): (r: Snapshot)
    ensures r.monthOffset == 0 && |r.habits| == 3
    ensures r.habits[0].id == id1 && r.habits[1].id == id2 && r.habits[2].id == id3
    ensures r.habits[0].name == "DSA-1" && r.habits[1].name == "fsdfgs" && r.habits[2].name == "fasdger"
  {
    var base := SampleMonth(activeMonth, today);
    Snapshot(0, [
      Habit(id1, "DSA-1", DayKeysOf(base, SampleDays[0])),
      Habit(id2, "fsdfgs", DayKeysOf(base, SampleDays[1])),
      Habit(id3, "fasdger", DayKeysOf(base, SampleDays[2]))
    ])
  }

  /** The month the sample is marked in: `activeMonth`, or `today` when none is given. */
  function SampleMonth(activeMonth: Option<Date>, today: Date): (base: Date)
    ensures activeMonth.Some? ==> base == activeMonth.value
    ensures activeMonth.None? ==> base == today
  {
    if activeMonth.Some? then activeMonth.value else today
  }

  /** Sample habit j is marked on the keys of its listed days in the sample's month. */
  lemma SampleHabitDays(activeMonth: Option<Date>, today: Date, id1: string, id2: string, id3: string, j: nat)
    requires j < 3
    ensures MakeSampleState(activeMonth, today, id1, id2, id3).habits[j].days ==
            DayKeysOf(SampleMonth(activeMonth, today), SampleDays[j])
  {
  }

  /** Every listed sample day is a day every month has. */
  lemma SampleDayRange(j: nat)
    requires j < 3
    ensures |SampleDays| == 3
    ensures forall d :: d in SampleDays[j] ==> 1 <= d <= 28
  {
  }

  /** The sample habits mark 3, 5 and 7 days. */
  lemma SampleDaySizes()
    ensures |SampleDays| == 3
    ensures |SampleDays[0]| == 3 && |SampleDays[1]| == 5 && |SampleDays[2]| == 7
  {
  }

  /** In the month it is built for, sample habit j counts exactly its listed days. */
  lemma SampleCounts(activeMonth: Option<Date>, today: Date, id1: string, id2: string, id3: string, j: nat)
    requires j < 3
    ensures MonthCount(MakeSampleState(activeMonth, today, id1, id2, id3).habits[j].days,
                       SampleMonth(activeMonth, today)) == |SampleDays[j]|
  {
    SampleHabitDays(activeMonth, today, id1, id2, id3, j);
    SampleDayRange(j);
    ListedDaysCount(SampleMonth(activeMonth, today), SampleDays[j]);
  }

  /** The sample's marks all lie in the month it is built for: no other month counts any. */
  lemma SampleOnlyInBaseMonth(today: Date, id1: string, id2: string, id3: string, other: Date, j: nat)
    requires j < 3
    requires other.year != today.year || other.month != today.month
    ensures MonthCount(MakeSampleState(None, today, id1, id2, id3).habits[j].days, other) == 0
  {
    SampleHabitDays(None, today, id1, id2, id3, j);
    SampleDayRange(j);
    ListedDaysElsewhere(today, SampleDays[j], other);
  }

  /** The sample's ids are distinct exactly when the three generated ids are. */
  lemma SampleIdsUnique(activeMonth: Option<Date>, today: Date, id1: string, id2: string, id3: string)
    ensures UniqueIds(MakeSampleState(activeMonth, today, id1, id2, id3).habits) <==>
            id1 != id2 && id1 != id3 && id2 != id3
  {
    var h := MakeSampleState(activeMonth, today, id1, id2, id3).habits;
    assert h[0].id == id1 && h[1].id == id2 && h[2].id == id3;
  }

  /**
   * loadState: a stored state with truthy `habits` and a numeric
   * `monthOffset` is used as is; anything else falls back to `sample`.
   */
  function LoadState(stored: Stored, sample: Snapshot): (r: Snapshot)
    ensures r == sample || (stored.Parsed? && stored.habits.Some? && stored.monthOffset.Some?)
    ensures stored.Parsed? && stored.habits.Some? && stored.monthOffset.Some? ==>
              r.habits == stored.habits.value && r.monthOffset == stored.monthOffset.value
  {
    match stored
    case Missing => sample
    case Unparsable => sample
    case Parsed(habits, monthOffset) =>
      if habits.None? || monthOffset.None? then sample
      else Snapshot(monthOffset.value, habits.value)
  }

  /** saveState, as the value a later load reads back. */
  function Save(s: Snapshot): (r: Stored)
    ensures r.Parsed? && r.habits == Some(s.habits) && r.monthOffset == Some(s.monthOffset)
  {
    Parsed(Some(s.habits), Some(s.monthOffset))
  }

  /** A saved state loads back unchanged, whatever the sample would have been. */
  lemma SaveLoadRoundTrip(s: Snapshot, sample: Snapshot)
    ensures LoadState(Save(s), sample) == s
  {
  }

  /** A stored state without habits, or with a non-numeric offset, loads as the sample. */
  lemma IncompleteStoredGivesSample(stored: Stored, sample: Snapshot)
    requires !stored.Parsed? || stored.habits.None? || stored.monthOffset.None?
    ensures LoadState(stored, sample) == sample
  {
  }

  // ---------------------------------------------------------------------
  // Per-habit COUNT
  // ---------------------------------------------------------------------

  /** habitCountForMonth: the number of the month's day-keys the habit marks. */
  method HabitCountForMonth(habit: Habit, activeDate: Date) returns (count: nat)
    ensures count == MonthCount(habit.days, activeDate)
    ensures count <= DaysInMonth(activeDate)
  {
    var totalDays := DaysInMonth(activeDate);
    var keyPrefix := MonthKey(activeDate) + "-";
    KeysUpToAll(keyPrefix, totalDays);
    count := CountDays(habit.days, keyPrefix, totalDays, MonthKeys(activeDate));
  }

  /**
   * The loop of habitCountForMonth: for day 1..totalDays, one more when the
   * key `keyPrefix` + pad(day) is marked. `keys` are those keys in order.
   */
  method CountDays(days: set<string>, keyPrefix: string, totalDays: nat, ghost keys: seq<string>)
    returns (count: nat)
    requires |keys| == totalDays
    requires forall i :: 0 <= i < |keys| ==> keys[i] == keyPrefix + Pad(i + 1)
    ensures count == CountMarked(days, keys)
  {
    count := 0;
    var day := 1;
    while day <= totalDays
      invariant 1 <= day <= totalDays + 1
      invariant count == CountMarked(days, keys[..day - 1])
    {
      var key := keyPrefix + Pad(day);
      assert keys[..day][..day - 1] == keys[..day - 1];
      if key in days {
        count := count + 1;
      }
      day := day + 1;
    }
    assert keys[..totalDays] == keys;
  }

  /** Adding one more habit adds its mark on `key` to the per-key total. */
  lemma HabitsOnPrefixStep(habits: seq<Habit>, h: nat, key: string)
    requires h < |habits|
    ensures HabitsOn(habits[..h + 1], key) == HabitsOn(habits[..h], key) + Marked(habits[h].days, key)
  {
    assert habits[..h + 1][..h] == habits[..h];
  }

  /**
   * The inner loop of totalsByDay for one habit: every day of the month the
   * habit marks adds one to that day's total. `keys` are the month's
   * day-keys, each `prefix` followed by `-` and the padded day.
   */
  method AddMarks(totals: array<nat>, days: set<string>, prefix: string, ghost keys: seq<string>)
    requires totals.Length == |keys|
    requires forall i :: 0 <= i < |keys| ==> keys[i] == prefix + "-" + Pad(i + 1)
    modifies totals
    ensures forall i :: 0 <= i < |keys| ==> totals[i] == old(totals[i]) + Marked(days, keys[i])
  {
    var totalDays := totals.Length;
    var day := 1;
    while day <= totalDays
      invariant 1 <= day <= totalDays + 1
      invariant forall i :: 0 <= i < day - 1 ==> totals[i] == old(totals[i]) + Marked(days, keys[i])
      invariant forall i :: day - 1 <= i < totalDays ==> totals[i] == old(totals[i])
    {
      var key := prefix + "-" + Pad(day);
      assert key == keys[day - 1];
      if key in days {
        totals[day - 1] := totals[day - 1] + 1;
      }
      day := day + 1;
    }
  }

  /**
   * The body of totalsByDay: a zeroed array with one entry per day, then,
   * habit by habit, one more on every day the habit marks. `keys` are the
   * month's day-keys, each `prefix` followed by `-` and the padded day.
   */
  method CountByDay(hs: seq<Habit>, prefix: string, totalDays: nat, ghost keys: seq<string>)
    returns (totals: array<nat>)
    requires |keys| == totalDays
    requires forall i :: 0 <= i < |keys| ==> keys[i] == prefix + "-" + Pad(i + 1)
    ensures fresh(totals)
    ensures totals[..] == Totals(hs, keys)
  {
    totals := new nat[totalDays](_ => 0);
    var h := 0;
    while h < |hs|
      invariant 0 <= h <= |hs|
      invariant totals.Length == totalDays
      invariant forall i :: 0 <= i < totalDays ==> totals[i] == HabitsOn(hs[..h], keys[i])
    {
      var habit := hs[h];
      forall i | 0 <= i < totalDays
        ensures HabitsOn(hs[..h + 1], keys[i]) == HabitsOn(hs[..h], keys[i]) + Marked(habit.days, keys[i])
      {
        HabitsOnPrefixStep(hs, h, keys[i]);
      }
      AddMarks(totals, habit.days, prefix, keys);
      h := h + 1;
    }
    assert hs[..|hs|] == hs;
  }

  /**
   * What renderRows shows for `habit` in row `position` of the month of
   * `date`: its id and name, one checkbox per day of the month (ticked when
   * the day is marked), its COUNT for the month and the COUNT as a
   * percentage of the month's days.
   */
  predicate ShowsHabit(row: Row, habit: Habit, position: nat, date: Date) {
    row.position == position && row.id == habit.id && row.name == habit.name &&
    row.checked == Checked(habit.days, MonthKeys(date)) &&
    row.count == MonthCount(habit.days, date) &&
    row.percent == Percent(row.count, DaysInMonth(date))
  }

  /** A row showing its habit has a COUNT equal to its ticked boxes and a percentage of at most 100. */
  lemma ShownRowConsistent(row: Row, habit: Habit, position: nat, date: Date)
    requires ShowsHabit(row, habit, position, date)
    ensures row.count == CountTrue(row.checked)
    ensures row.percent <= 100
  {
    CheckedMatchesCount(habit.days, MonthKeys(date));
  }

  /** One habit row of renderRows: the checkboxes, the COUNT and the bar percentage. */
  method HabitRow(habit: Habit, position: nat, activeDate: Date) returns (row: Row)
    ensures ShowsHabit(row, habit, position, activeDate)
  {
    var totalDays := DaysInMonth(activeDate);
    var keys := MonthKeys(activeDate);
    var checked := Checked(habit.days, keys);
    var count := HabitCountForMonth(habit, activeDate);
    var pct := Percent(count, totalDays);
    row := Row(position, habit.id, habit.name, checked, count, pct);
  }

  /** `state.habits.map(...)` in renderRows: the habit rows, in order. */
  method HabitRows(habits: seq<Habit>, activeDate: Date) returns (rows: seq<Row>)
    ensures |rows| == |habits|
    ensures forall j :: 0 <= j < |habits| ==> ShowsHabit(rows[j], habits[j], j + 1, activeDate)
  {
    rows := [];
    var idx := 0;
    while idx < |habits|
      invariant 0 <= idx <= |habits|
      invariant |rows| == idx
      invariant forall j :: 0 <= j < idx ==> ShowsHabit(rows[j], habits[j], j + 1, activeDate)
    {
      var row := HabitRow(habits[idx], idx + 1, activeDate);
      rows := rows + [row];
      idx := idx + 1;
    }
  }

  /**
   * The placeholder rows of renderRows: while there are fewer than eight
   * habits, enough rows to make eight, each with one blank cell per day.
   */
  method PlaceholderCells(habitCount: nat, totalDays: nat) returns (placeholders: seq<nat>)
    ensures |placeholders| == PlaceholderRows(habitCount)
    ensures forall j :: 0 <= j < |placeholders| ==> placeholders[j] == totalDays
  {
    placeholders := [];
    if habitCount < MaxRows {
      var remaining := MaxRows - habitCount;
      var i := 0;
      while i < remaining
        invariant 0 <= i <= remaining
        invariant |placeholders| == i
        invariant forall j :: 0 <= j < i ==> placeholders[j] == totalDays
      {
        placeholders := placeholders + [totalDays];
        i := i + 1;
      }
    }
  }

  // ---------------------------------------------------------------------
  // The state object
  // ---------------------------------------------------------------------

  class HabitState {
    var monthOffset: int
    var habits: seq<Habit>

    /** `let state = loadState()`: the stored state, or the sample for today's month. */
    constructor Load(stored: Stored, today: Date, id1: string, id2: string, id3: string)
      ensures Snapshot(monthOffset, habits) == LoadState(stored, MakeSampleState(None, today, id1, id2, id3))
    {
      var s := LoadState(stored, MakeSampleState(None, today, id1, id2, id3));
      monthOffset := s.monthOffset;
      habits := s.habits;
    }

    /** The state as saveState serialises it. */
    function Current(): (s: Snapshot)
      reads this
      ensures s.monthOffset == monthOffset && s.habits == habits
    {
      Snapshot(monthOffset, habits)
    }

    /** getActiveMonthDate: the first of the month `monthOffset` months from today's. */
    function ActiveMonthDate(today: Date): (r: Date)
      reads this
      ensures ValidDate(r) && r.day == 1
      ensures MonthNumber(r) == MakeFullYear(today.year) * 12 + today.month + monthOffset
      ensures !(0 <= today.year <= 99) ==> MonthNumber(r) == MonthNumber(today) + monthOffset
    {
      ActiveMonth(today, monthOffset)
    }

    /** The previous-month button. */
    method MonthPrev()
      modifies this
      ensures monthOffset == old(monthOffset) - 1
      ensures habits == old(habits)
    {
      monthOffset := monthOffset - 1;
    }

    /** The next-month button. */
    method MonthNext()
      modifies this
      ensures monthOffset == old(monthOffset) + 1
      ensures habits == old(habits)
    {
      monthOffset := monthOffset + 1;
    }

    /**
     * handleTableChange: a checkbox sets or deletes its day-key on the first
     * habit with its id (nothing when there is none); a delete button drops
     * every habit with its id; any other target changes nothing.
     */
    method HandleTableChange(event: TableEvent)
      modifies this
      ensures monthOffset == old(monthOffset)
      ensures event.CheckboxChange? ==> habits == SetMark(old(habits), event.habitId, event.dayKey, event.checked)
      ensures event.DeleteClick? ==> habits == RemoveId(old(habits), event.habitId)
      ensures event.OtherTarget? ==> habits == old(habits)
      ensures old(UniqueIds(habits)) ==> UniqueIds(habits)
    {
      match event
      case CheckboxChange(habitId, dayKey, checked) =>
        SetMarkKeepsIds(habits, habitId, dayKey, checked);
        var found := FindHabit(habits, habitId);
        if found.None? {
          return;
        }
        var i := found.value;
        var habit := habits[i];
        if checked {
          habits := habits[i := habit.(days := habit.days + {dayKey})];
        } else {
          habits := habits[i := habit.(days := habit.days - {dayKey})];
        }
      case DeleteClick(id) =>
        if UniqueIds(habits) {
          RemoveIdKeepsUnique(habits, id);
        }
        habits := RemoveId(habits, id);
      case OtherTarget =>
    }

    /**
     * addHabitFlow: `input` is the prompt's answer (None when cancelled) and
     * `freshId` the generated id.
     */
    method AddHabitFlow(input: Option<string>, freshId: string)
      modifies this
      ensures monthOffset == old(monthOffset)
      ensures habits == AppendHabit(old(habits), input, freshId)
      ensures old(UniqueIds(habits)) && (forall j :: 0 <= j < |old(habits)| ==> old(habits)[j].id != freshId) ==>
                UniqueIds(habits)
    {
      if UniqueIds(habits) && forall j :: 0 <= j < |habits| ==> habits[j].id != freshId {
        AppendKeepsUnique(habits, input, freshId);
      }
      match input
      case None =>
      case Some(name) =>
        if name != "" {
          habits := habits + [Habit(freshId, Trim(name), {})];
        }
    }

    /** totalsByDay: entry d - 1 counts the habits marked on day d of the month. */
    method TotalsByDay(activeDate: Date) returns (totals: array<nat>)
      ensures fresh(totals)
      ensures totals[..] == DayTotals(habits, activeDate)
    {
      var totalDays := DaysInMonth(activeDate);
      var prefix := MonthKey(activeDate);
      MonthKeysAt(activeDate);
      totals := CountByDay(habits, prefix, totalDays, MonthKeys(activeDate));
    }

    /**
     * The values renderRows puts in the table: one row per habit in order,
     * with its checkboxes, COUNT and bar percentage; placeholder rows up to
     * eight rows; and the Total row.
     */
    method RenderRows(activeDate: Date) returns (grid: Grid)
      ensures |grid.rows| == |habits|
      ensures forall j :: 0 <= j < |habits| ==> ShowsHabit(grid.rows[j], habits[j], j + 1, activeDate)
      ensures |grid.placeholders| == PlaceholderRows(|habits|)
      ensures forall j :: 0 <= j < |grid.placeholders| ==> grid.placeholders[j] == DaysInMonth(activeDate)
      ensures grid.totals == DayTotals(habits, activeDate)
      ensures grid.totalSum == CountsTotal(habits, activeDate)
    {
      var rows := HabitRows(habits, activeDate);
      var placeholders := PlaceholderCells(|habits|, DaysInMonth(activeDate));
      var totals := TotalsByDay(activeDate);
      var totalSum := Sum(totals[..]);
      GrandTotal(habits, activeDate);
      grid := Grid(rows, placeholders, totals[..], totalSum);
    }
  }
}

/**
 * Habits and what the tracker computes from them: the marks of one month
 * (COUNT column and percentage), the per-day totals across habits, the
 * placeholder rows of the grid, and the value-level effect of the state
 * updates (set or clear a mark, delete by id, append a new habit).
 */
module Habits {
  import opened Calendar
  import opened DayKeys

  datatype Option<T> = None | Some(value: T)

  /**
   * A habit. `days` holds the day-keys marked done; a key maps to `true`
   * in the stored object exactly when it is in this set.
   */
  datatype Habit = Habit(id: string, name: string, days: set<string>)

  // ---------------------------------------------------------------------
  // Counting marks over the keys of a month
  // ---------------------------------------------------------------------

  /** The keys `prefix` + pad(day) of days 1..n, day 1 first. */
  function KeysUpTo(prefix: string, n: nat): (keys: seq<string>)
    ensures |keys| == n
  {
    if n == 0 then [] else KeysUpTo(prefix, n - 1) + [prefix + Pad(n)]
  }

  /** Position i holds the key of day i + 1. */
  lemma {:induction false} KeysUpToAt(prefix: string, n: nat, i: nat)
    requires i < n
    ensures KeysUpTo(prefix, n)[i] == prefix + Pad(i + 1)
  {
    SnocAt(KeysUpTo(prefix, n - 1), prefix + Pad(n), i);
    if i < n - 1 {
      KeysUpToAt(prefix, n - 1, i);
    }
  }

  /** Every position i holds the key of day i + 1. */
  lemma KeysUpToAll(prefix: string, n: nat)
    ensures forall i :: 0 <= i < n ==> KeysUpTo(prefix, n)[i] == prefix + Pad(i + 1)
  {
    forall i | 0 <= i < n
      ensures KeysUpTo(prefix, n)[i] == prefix + Pad(i + 1)
    {
      KeysUpToAt(prefix, n, i);
    }
  }

  /** Appending an element keeps the earlier positions and puts it last. */
  lemma SnocAt<T>(xs: seq<T>, x: T, i: nat)
    requires i <= |xs|
    ensures (xs + [x])[i] == if i < |xs| then xs[i] else x
  {
  }

  /** The day-keys of the month of `date`, day 1 first: `${monthKey(date)}-` followed by the padded day. */
  function MonthKeys(date: Date): (keys: seq<string>)
    ensures |keys| == DaysInMonth(date)
  {
    KeysUpTo(MonthKey(date) + "-", DaysInMonth(date))
  }

  /** Position i of the month's keys holds the key of day i + 1. */
  lemma MonthKeyAt(date: Date, i: nat)
    requires i < DaysInMonth(date)
    ensures MonthKeys(date)[i] == DayKey(date, i + 1)
  {
    KeysUpToAt(MonthKey(date) + "-", DaysInMonth(date), i);
  }

  /** Every position of the month's keys holds the key of the day after it. */
  lemma MonthKeysAt(date: Date)
    ensures forall i :: 0 <= i < |MonthKeys(date)| ==> MonthKeys(date)[i] == DayKey(date, i + 1)
  {
    forall i | 0 <= i < |MonthKeys(date)|
      ensures MonthKeys(date)[i] == DayKey(date, i + 1)
    {
      MonthKeyAt(date, i);
    }
  }

  /** The keys at two different positions of a month differ. */
  lemma MonthKeysDiffer(date: Date, i: nat, j: nat)
    requires i < j < DaysInMonth(date)
    ensures MonthKeys(date)[i] != MonthKeys(date)[j]
  {
    MonthKeyAt(date, i);
    MonthKeyAt(date, j);
    KeysOfDaysDiffer(MonthKeys(date), date, i, j);
  }

  /** Positions holding the keys of two different days hold different keys. */
  lemma KeysOfDaysDiffer(keys: seq<string>, date: Date, i: nat, j: nat)
    requires i < j < |keys| <= 31
    requires keys[i] == DayKey(date, i + 1) && keys[j] == DayKey(date, j + 1)
    ensures keys[i] != keys[j]
  {
    DayKeysDistinct(date, i + 1, j + 1);
  }

  /** The keys of a month are pairwise distinct. */
  lemma MonthKeysDistinct(date: Date)
    ensures forall i, j :: 0 <= i < j < |MonthKeys(date)| ==> MonthKeys(date)[i] != MonthKeys(date)[j]
  {
    forall i, j | 0 <= i < j < |MonthKeys(date)|
      ensures MonthKeys(date)[i] != MonthKeys(date)[j]
    {
      MonthKeysDiffer(date, i, j);
    }
  }

  /** 1 when the key is marked, 0 otherwise. */
  function Marked(days: set<string>, key: string): (r: nat)
    ensures r <= 1
    ensures r == 1 <==> key in days
  {
    if key in days then 1 else 0
  }

  /** How many of `keys` carry a mark. */
  function CountMarked(days: set<string>, keys: seq<string>): (r: nat)
    ensures r <= |keys|
  {
    if |keys| == 0 then 0
    else CountMarked(days, keys[..|keys| - 1]) + Marked(days, keys[|keys| - 1])
  }

  /** The positions in `keys` whose key is marked (position i is day i + 1). */
  function MarkedIndices(days: set<string>, keys: seq<string>): set<nat> {
    set i: nat | i < |keys| && keys[i] in days
  }

  lemma {:induction false} CountMarkedIsCard(days: set<string>, keys: seq<string>)
    ensures CountMarked(days, keys) == |MarkedIndices(days, keys)|
  {
    if |keys| == 0 {
      assert MarkedIndices(days, keys) == {};
    } else {
      var last := |keys| - 1;
      var init := keys[..last];
      CountMarkedIsCard(days, init);
      assert last !in MarkedIndices(days, init);
      if keys[last] in days {
        assert MarkedIndices(days, keys) == MarkedIndices(days, init) + {last};
      } else {
        assert MarkedIndices(days, keys) == MarkedIndices(days, init);
      }
    }
  }

  /** Two mark sets that agree on every one of `keys` give the same count. */
  lemma {:induction false} CountSeesOnlyKeys(days1: set<string>, days2: set<string>, keys: seq<string>)
    requires forall i :: 0 <= i < |keys| ==> (keys[i] in days1 <==> keys[i] in days2)
    ensures CountMarked(days1, keys) == CountMarked(days2, keys)
  {
    if |keys| > 0 {
      CountSeesOnlyKeys(days1, days2, keys[..|keys| - 1]);
    }
  }

  /** habitCountForMonth: the number of marked days of the month of `date`. */
  function MonthCount(days: set<string>, date: Date): (r: nat)
    ensures r <= DaysInMonth(date)
  {
    CountMarked(days, MonthKeys(date))
  }

  /** The COUNT of a month is the number of its days whose key is marked. */
  lemma MonthCountIsMarkedDays(days: set<string>, date: Date)
    ensures MonthCount(days, date) == |set i: nat | i < DaysInMonth(date) && MonthKeys(date)[i] in days|
  {
    CountMarkedIsCard(days, MonthKeys(date));
  }

  /** The key at position i of a month is not a key of another month. */
  lemma MonthKeyNotOther(date: Date, i: nat, other: Date, day: nat)
    requires i < DaysInMonth(date) && day < 100
    requires other.year != date.year || other.month != date.month
    ensures MonthKeys(date)[i] != DayKey(other, day)
  {
    MonthKeyAt(date, i);
    if DayKey(date, i + 1) == DayKey(other, day) {
      DayKeyInjective(date, i + 1, other, day);
    }
  }

  /** No key of a day of another month is one of this month's keys. */
  lemma OtherMonthKeyNotInMonth(date: Date, other: Date, day: nat)
    requires day < 100
    requires other.year != date.year || other.month != date.month
    ensures DayKey(other, day) !in MonthKeys(date)
  {
    var keys := MonthKeys(date);
    var key := DayKey(other, day);
    forall i | 0 <= i < |keys| ensures keys[i] != key {
      MonthKeyNotOther(date, i, other, day);
    }
    NotAmong(keys, key);
  }

  /** A value unequal to every element of a sequence is not in it. */
  lemma NotAmong(keys: seq<string>, key: string)
    requires forall i :: 0 <= i < |keys| ==> keys[i] != key
    ensures key !in keys
  {
  }

  /** Marking or unmarking a key that is not among `keys` leaves their count alone. */
  lemma ForeignKeyIgnored(days: set<string>, keys: seq<string>, key: string)
    requires key !in keys
    ensures CountMarked(days + {key}, keys) == CountMarked(days, keys)
    ensures CountMarked(days - {key}, keys) == CountMarked(days, keys)
  {
    CountSeesOnlyKeys(days + {key}, days, keys);
    CountSeesOnlyKeys(days - {key}, days, keys);
  }

  /** Adding or removing the mark of a day of another month leaves the count alone. */
  lemma OtherMonthKeyIgnored(days: set<string>, date: Date, other: Date, day: nat)
    requires day < 100
    requires other.year != date.year || other.month != date.month
    ensures MonthCount(days + {DayKey(other, day)}, date) == MonthCount(days, date)
    ensures MonthCount(days - {DayKey(other, day)}, date) == MonthCount(days, date)
  {
    OtherMonthKeyNotInMonth(date, other, day);
    ForeignKeyIgnored(days, MonthKeys(date), DayKey(other, day));
  }

  /** The keys of the listed days of the month of `date`. */
  function DayKeysOf(date: Date, ds: set<nat>): set<string> {
    set d | d in ds :: DayKey(date, d)
  }

  /** Day k's key is among the keys of the listed days exactly when k is listed. */
  lemma DayKeysOfMember(date: Date, ds: set<nat>, k: nat)
    requires k < 100
    requires forall d :: d in ds ==> d < 100
    ensures DayKey(date, k) in DayKeysOf(date, ds) <==> k in ds
  {
    if DayKey(date, k) in DayKeysOf(date, ds) {
      var d :| d in ds && DayKey(date, d) == DayKey(date, k);
      DayKeyInjective(date, d, date, k);
    }
  }

  /** Counting a prefix of `keys` when position i is marked exactly when day i + 1 is listed. */
  lemma {:induction false} ListedPrefix(days: set<string>, keys: seq<string>, ds: set<nat>, k: nat)
    requires k <= |keys|
    requires forall i :: 0 <= i < |keys| ==> (keys[i] in days <==> i + 1 in ds)
    ensures CountMarked(days, keys[..k]) == |set d | d in ds && 1 <= d <= k|
  {
    if k == 0 {
      assert (set d | d in ds && 1 <= d <= 0) == {};
    } else {
      ListedPrefix(days, keys, ds, k - 1);
      assert keys[..k][..k - 1] == keys[..k - 1];
      var before := set d | d in ds && 1 <= d <= k - 1;
      assert k !in before;
      if k in ds {
        assert (set d | d in ds && 1 <= d <= k) == before + {k};
      } else {
        assert (set d | d in ds && 1 <= d <= k) == before;
      }
    }
  }

  /** The key at position i of a month is listed exactly when day i + 1 is. */
  lemma MonthKeyListed(date: Date, ds: set<nat>, i: nat)
    requires i < DaysInMonth(date)
    requires forall d :: d in ds ==> d < 100
    ensures MonthKeys(date)[i] in DayKeysOf(date, ds) <==> i + 1 in ds
  {
    MonthKeyAt(date, i);
    DayKeysOfMember(date, ds, i + 1);
  }

  /** Marking a set of days that every month has gives a COUNT of exactly that many days. */
  lemma ListedDaysCount(date: Date, ds: set<nat>)
    requires forall d :: d in ds ==> 1 <= d <= 28
    ensures MonthCount(DayKeysOf(date, ds), date) == |ds|
  {
    var keys := MonthKeys(date);
    var n := |keys|;
    var days := DayKeysOf(date, ds);
    forall i | 0 <= i < n
      ensures keys[i] in days <==> i + 1 in ds
    {
      MonthKeyListed(date, ds, i);
    }
    ListedAll(days, keys, ds);
  }

  /** Counting all of `keys` when position i is marked exactly when day i + 1 is listed. */
  lemma ListedAll(days: set<string>, keys: seq<string>, ds: set<nat>)
    requires forall i :: 0 <= i < |keys| ==> (keys[i] in days <==> i + 1 in ds)
    requires forall d :: d in ds ==> 1 <= d <= |keys|
    ensures CountMarked(days, keys) == |ds|
  {
    ListedPrefix(days, keys, ds, |keys|);
    assert keys[..|keys|] == keys;
    assert (set d | d in ds && 1 <= d <= |keys|) == ds;
  }

  /** The key at position i of a month is none of another month's listed keys. */
  lemma MonthKeyNotListedElsewhere(date: Date, ds: set<nat>, other: Date, i: nat)
    requires i < DaysInMonth(other)
    requires forall d :: d in ds ==> d < 100
    requires other.year != date.year || other.month != date.month
    ensures MonthKeys(other)[i] !in DayKeysOf(date, ds)
  {
    MonthKeyAt(other, i);
    if DayKey(other, i + 1) in DayKeysOf(date, ds) {
      var d :| d in ds && DayKey(other, i + 1) == DayKey(date, d);
      DayKeyInjective(other, i + 1, date, d);
    }
  }

  /** Marks on listed days of one month count nothing in any other month. */
  lemma ListedDaysElsewhere(date: Date, ds: set<nat>, other: Date)
    requires forall d :: d in ds ==> d < 100
    requires other.year != date.year || other.month != date.month
    ensures MonthCount(DayKeysOf(date, ds), other) == 0
  {
    var days := DayKeysOf(date, ds);
    var keys := MonthKeys(other);
    forall i | 0 <= i < |keys|
      ensures keys[i] !in days
    {
      MonthKeyNotListedElsewhere(date, ds, other, i);
    }
    CountMarkedIsCard(days, keys);
    assert MarkedIndices(days, keys) == {};
  }

  /**
   * The percentage of the COUNT cell, `Math.round(count / totalDays * 100)`
   * in exact arithmetic (nearest integer, halves up), and 0 for no days.
   */
  function Percent(count: nat, totalDays: nat): (r: nat)
    ensures totalDays == 0 ==> r == 0
    ensures count <= totalDays ==> r <= 100
  {
    if totalDays == 0 then 0
    else
      RoundedPercent(count, totalDays);
      (200 * count + totalDays) / (2 * totalDays)
  }

  /** The percentage is count / totalDays * 100 rounded to the nearest integer, halves up. */
  lemma PercentRounds(count: nat, totalDays: nat)
    requires totalDays > 0
    ensures 2 * totalDays * Percent(count, totalDays) <= 200 * count + totalDays
    ensures 200 * count + totalDays < 2 * totalDays * (Percent(count, totalDays) + 1)
  {
    RoundedPercent(count, totalDays);
  }

  /** The rounded quotient brackets count / totalDays * 100 and stays within 100 for a count within the days. */
  lemma RoundedPercent(count: nat, totalDays: nat)
    requires totalDays > 0
    ensures var r := (200 * count + totalDays) / (2 * totalDays);
      2 * totalDays * r <= 200 * count + totalDays < 2 * totalDays * (r + 1) &&
      (count <= totalDays ==> r <= 100)
  {
    var a, b := 200 * count + totalDays, 2 * totalDays;
    QuotientBounds(a, b);
    if count <= totalDays {
      assert a < b * (100 + 1);
      QuotientAtMost(a, b, 100);
    }
  }

  /** Floor division brackets the dividend between two multiples of the divisor. */
  lemma QuotientBounds(a: nat, b: nat)
    requires b > 0
    ensures b * (a / b) <= a < b * (a / b + 1)
  {
    var q, m := a / b, a % b;
    assert a == b * q + m && 0 <= m < b;
    assert b * (q + 1) == b * q + b;
  }

  /** A dividend below b * (k + 1) has a quotient of at most k. */
  lemma QuotientAtMost(a: nat, b: nat, k: nat)
    requires b > 0
    ensures a < b * (k + 1) ==> a / b <= k
  {
    QuotientBounds(a, b);
    if a / b > k {
      MulMonotone(b, k + 1, a / b);
    }
  }

  lemma MulMonotone(b: nat, x: nat, y: nat)
    requires x <= y
    ensures b * x <= b * y
  {
    assert b * y == b * x + b * (y - x);
  }

  /** The checkbox cells of a row: checked exactly when the day's key is marked. */
  function Checked(days: set<string>, keys: seq<string>): (r: seq<bool>)
    ensures |r| == |keys|
  {
    seq(|keys|, i requires 0 <= i < |keys| => keys[i] in days)
  }

  function CountTrue(s: seq<bool>): nat {
    if |s| == 0 then 0 else CountTrue(s[..|s| - 1]) + (if s[|s| - 1] then 1 else 0)
  }

  /** The number of checked boxes of a row is the row's COUNT. */
  lemma {:induction false} CheckedMatchesCount(days: set<string>, keys: seq<string>)
    ensures CountTrue(Checked(days, keys)) == CountMarked(days, keys)
  {
    if |keys| > 0 {
      var init := keys[..|keys| - 1];
      assert Checked(days, keys)[..|keys| - 1] == Checked(days, init);
      CheckedMatchesCount(days, init);
    }
  }

  // ---------------------------------------------------------------------
  // Totals across habits
  // ---------------------------------------------------------------------

  /** How many habits carry the mark `key`. */
  function HabitsOn(habits: seq<Habit>, key: string): (r: nat)
    ensures r <= |habits|
  {
    if |habits| == 0 then 0
    else HabitsOn(habits[..|habits| - 1], key) + Marked(habits[|habits| - 1].days, key)
  }

  /** The indices of the habits that carry the mark `key`. */
  function HabitsWith(habits: seq<Habit>, key: string): set<nat> {
    set i: nat | i < |habits| && key in habits[i].days
  }

  lemma {:induction false} HabitsOnCounts(habits: seq<Habit>, key: string)
    ensures HabitsOn(habits, key) == |HabitsWith(habits, key)|
  {
    if |habits| == 0 {
      assert HabitsWith(habits, key) == {};
    } else {
      var init := habits[..|habits| - 1];
      var last := |habits| - 1;
      HabitsOnCounts(init, key);
      assert last !in HabitsWith(init, key);
      if key in habits[last].days {
        assert HabitsWith(habits, key) == HabitsWith(init, key) + {last};
      } else {
        assert HabitsWith(habits, key) == HabitsWith(init, key);
      }
    }
  }

  /** Per-key totals across habits. */
  function Totals(habits: seq<Habit>, keys: seq<string>): (r: seq<nat>)
    ensures |r| == |keys|
    ensures forall i :: 0 <= i < |r| ==> r[i] <= |habits|
  {
    seq(|keys|, i requires 0 <= i < |keys| => HabitsOn(habits, keys[i]))
  }

  /** totalsByDay: entry d - 1 is the number of habits marked on day d. */
  function DayTotals(habits: seq<Habit>, date: Date): (r: seq<nat>)
    ensures |r| == DaysInMonth(date)
    ensures forall i :: 0 <= i < |r| ==> r[i] <= |habits|
  {
    Totals(habits, MonthKeys(date))
  }

  /** `reduce((a, b) => a + b, 0)`. */
  function Sum(s: seq<nat>): (r: nat)
    ensures forall i :: 0 <= i < |s| ==> s[i] <= r
  {
    if |s| == 0 then 0 else Sum(s[..|s| - 1]) + s[|s| - 1]
  }

  /** Sum over habits of the number of their marks among `keys`. */
  function RowSum(habits: seq<Habit>, keys: seq<string>): nat {
    if |habits| == 0 then 0
    else RowSum(habits[..|habits| - 1], keys) + CountMarked(habits[|habits| - 1].days, keys)
  }

  /** The sum over habits of their month COUNT. */
  function CountsTotal(habits: seq<Habit>, date: Date): nat {
    RowSum(habits, MonthKeys(date))
  }

  lemma {:induction false} RowSumNoKeys(habits: seq<Habit>)
    ensures RowSum(habits, []) == 0
  {
    if |habits| > 0 {
      RowSumNoKeys(habits[..|habits| - 1]);
    }
  }

  lemma {:induction false} RowSumStep(habits: seq<Habit>, keys: seq<string>)
    requires |keys| >= 1
    ensures RowSum(habits, keys) == RowSum(habits, keys[..|keys| - 1]) + HabitsOn(habits, keys[|keys| - 1])
  {
    if |habits| > 0 {
      RowSumStep(habits[..|habits| - 1], keys);
    }
  }

  /** Summing the totals row counts every mark once, as summing the rows does. */
  lemma {:induction false} TotalsSumIsRowSum(habits: seq<Habit>, keys: seq<string>)
    ensures Sum(Totals(habits, keys)) == RowSum(habits, keys)
  {
    if |keys| > 0 {
      var init := keys[..|keys| - 1];
      assert Totals(habits, keys)[..|keys| - 1] == Totals(habits, init);
      TotalsSumIsRowSum(habits, init);
      RowSumStep(habits, keys);
    } else {
      RowSumNoKeys(habits);
    }
  }

  /** The grand total of the totals row equals the sum of the habits' COUNT cells. */
  lemma GrandTotal(habits: seq<Habit>, date: Date)
    ensures Sum(DayTotals(habits, date)) == CountsTotal(habits, date)
  {
    TotalsSumIsRowSum(habits, MonthKeys(date));
  }

  // ---------------------------------------------------------------------
  // Grid layout
  // ---------------------------------------------------------------------

  /** The grid always shows at least eight row slots. */
  const MaxRows: nat := 8

  /** Placeholder rows appended after the habit rows. */
  function PlaceholderRows(habitCount: nat): (r: nat)
    ensures habitCount + r >= MaxRows
    ensures habitCount < MaxRows ==> habitCount + r == MaxRows
    ensures habitCount >= MaxRows ==> r == 0
  {
    if habitCount < MaxRows then MaxRows - habitCount else 0
  }

  // ---------------------------------------------------------------------
  // State updates on values
  // ---------------------------------------------------------------------

  /** Ids are unique, as fresh random ids make them. */
  predicate UniqueIds(habits: seq<Habit>) {
    forall i, j :: 0 <= i < j < |habits| ==> habits[i].id != habits[j].id
  }

  /** Array.prototype.find by id: the first habit with that id. */
  function FindHabit(habits: seq<Habit>, id: string): (r: Option<nat>)
    ensures r.Some? ==> r.value < |habits| && habits[r.value].id == id
    ensures r.Some? ==> forall j :: 0 <= j < r.value ==> habits[j].id != id
    ensures r.None? <==> forall j :: 0 <= j < |habits| ==> habits[j].id != id
  {
    if |habits| == 0 then None
    else if habits[0].id == id then Some(0)
    else match FindHabit(habits[1..], id)
      case None => None
      case Some(i) => Some(i + 1)
  }

  /** A checked box sets the key; an unchecked one deletes it. */
  function Mark(days: set<string>, key: string, checked: bool): (r: set<string>)
    ensures key in r <==> checked
    ensures forall k :: k != key ==> (k in r <==> k in days)
  {
    if checked then days + {key} else days - {key}
  }

  /** The checkbox branch of handleTableChange, on the habit sequence. */
  function SetMark(habits: seq<Habit>, id: string, key: string, checked: bool): (r: seq<Habit>)
    ensures |r| == |habits|
    ensures FindHabit(habits, id).None? ==> r == habits
    ensures FindHabit(habits, id).Some? ==>
              var i := FindHabit(habits, id).value;
              r[i].id == habits[i].id && r[i].name == habits[i].name &&
              r[i].days == Mark(habits[i].days, key, checked) &&
              forall j :: 0 <= j < |habits| && j != i ==> r[j] == habits[j]
  {
    match FindHabit(habits, id)
    case None => habits
    case Some(i) => habits[i := habits[i].(days := Mark(habits[i].days, key, checked))]
  }

  /** Checking a box and then unchecking it restores the state it started from. */
  lemma CheckUncheckRoundTrip(habits: seq<Habit>, id: string, key: string)
    requires FindHabit(habits, id).Some? ==> key !in habits[FindHabit(habits, id).value].days
    ensures SetMark(SetMark(habits, id, key, true), id, key, false) == habits
  {
    var once := SetMark(habits, id, key, true);
    match FindHabit(habits, id)
    case None =>
    case Some(i) =>
      assert FindHabit(once, id) == Some(i) by {
        assert forall j :: 0 <= j < |once| ==> once[j].id == habits[j].id;
      }
      var twice := SetMark(once, id, key, false);
      assert twice[i].days == habits[i].days;
      assert twice[i] == habits[i];
      assert twice == habits;
  }

  /**
   * The same box reported twice (the table listens to both `click` and
   * `change`) has the effect of reporting it once.
   */
  lemma SetMarkIdempotent(habits: seq<Habit>, id: string, key: string, checked: bool)
    ensures SetMark(SetMark(habits, id, key, checked), id, key, checked) == SetMark(habits, id, key, checked)
  {
    var once := SetMark(habits, id, key, checked);
    match FindHabit(habits, id)
    case None =>
    case Some(i) =>
      assert FindHabit(once, id) == Some(i) by {
        assert forall j :: 0 <= j < |once| ==> once[j].id == habits[j].id;
      }
      assert SetMark(once, id, key, checked)[i] == once[i];
      assert SetMark(once, id, key, checked) == once;
  }

  /** Marks change ids nowhere, so unique ids stay unique. */
  lemma SetMarkKeepsIds(habits: seq<Habit>, id: string, key: string, checked: bool)
    ensures forall j :: 0 <= j < |habits| ==> SetMark(habits, id, key, checked)[j].id == habits[j].id
    ensures UniqueIds(habits) ==> UniqueIds(SetMark(habits, id, key, checked))
  {
  }

  /** The delete branch of handleTableChange: `habits.filter(h => h.id !== id)`. */
  function RemoveId(habits: seq<Habit>, id: string): (r: seq<Habit>)
    ensures |r| <= |habits|
    ensures forall h :: h in r <==> h in habits && h.id != id
  {
    if |habits| == 0 then []
    else if habits[0].id == id then RemoveId(habits[1..], id)
    else [habits[0]] + RemoveId(habits[1..], id)
  }

  /** Removing from a concatenation removes from each part: the kept habits keep their order. */
  lemma {:induction false} RemoveIdConcat(a: seq<Habit>, b: seq<Habit>, id: string)
    ensures RemoveId(a + b, id) == RemoveId(a, id) + RemoveId(b, id)
  {
    if |a| > 0 {
      assert (a + b)[0] == a[0];
      assert (a + b)[1..] == a[1..] + b;
      RemoveIdConcat(a[1..], b, id);
      if a[0].id != id {
        assert [a[0]] + (RemoveId(a[1..], id) + RemoveId(b, id))
            == ([a[0]] + RemoveId(a[1..], id)) + RemoveId(b, id);
      }
    } else {
      assert a + b == b;
    }
  }

  /** Deleting an id no habit has changes nothing. */
  lemma {:induction false} RemoveAbsentId(habits: seq<Habit>, id: string)
    requires forall j :: 0 <= j < |habits| ==> habits[j].id != id
    ensures RemoveId(habits, id) == habits
  {
    if |habits| > 0 {
      RemoveAbsentId(habits[1..], id);
      assert [habits[0]] + habits[1..] == habits;
    }
  }

  /** With unique ids, deleting a present id removes exactly the one habit at its index. */
  lemma RemovePresentId(habits: seq<Habit>, id: string, i: nat)
    requires UniqueIds(habits)
    requires i < |habits| && habits[i].id == id
    ensures RemoveId(habits, id) == habits[..i] + habits[i + 1..]
  {
    var before, after := habits[..i], habits[i + 1..];
    SplitAround(habits, i);
    RemoveIdConcat(before, [habits[i]] + after, id);
    RemoveIdConcat([habits[i]], after, id);
    assert RemoveId([habits[i]], id) == [];
    AbsentBefore(habits, i);
    AbsentAfter(habits, i);
  }

  /** A sequence is its part before i, its element at i and its part after i. */
  lemma SplitAround<T>(xs: seq<T>, i: nat)
    requires i < |xs|
    ensures xs == xs[..i] + ([xs[i]] + xs[i + 1..])
  {
  }

  /** With unique ids, deleting the id of habit i from the habits before it changes nothing. */
  lemma AbsentBefore(habits: seq<Habit>, i: nat)
    requires UniqueIds(habits) && i < |habits|
    ensures RemoveId(habits[..i], habits[i].id) == habits[..i]
  {
    var before := habits[..i];
    forall j | 0 <= j < |before|
      ensures before[j].id != habits[i].id
    {
      assert before[j] == habits[j];
    }
    RemoveAbsentId(before, habits[i].id);
  }

  /** With unique ids, deleting the id of habit i from the habits after it changes nothing. */
  lemma AbsentAfter(habits: seq<Habit>, i: nat)
    requires UniqueIds(habits) && i < |habits|
    ensures RemoveId(habits[i + 1..], habits[i].id) == habits[i + 1..]
  {
    var after := habits[i + 1..];
    forall j | 0 <= j < |after|
      ensures after[j].id != habits[i].id
    {
      assert after[j] == habits[i + 1 + j];
    }
    RemoveAbsentId(after, habits[i].id);
  }

  /** Deleting keeps ids unique. */
  lemma {:induction false} RemoveIdKeepsUnique(habits: seq<Habit>, id: string)
    requires UniqueIds(habits)
    ensures UniqueIds(RemoveId(habits, id))
  {
    if |habits| > 0 {
      RemoveIdKeepsUnique(habits[1..], id);
      var rest := RemoveId(habits[1..], id);
      forall h | h in rest ensures h.id != habits[0].id {
        var j :| 0 <= j < |habits[1..]| && habits[1..][j] == h;
        assert habits[j + 1] == h;
      }
    }
  }

  // ---------------------------------------------------------------------
  // Adding a habit
  // ---------------------------------------------------------------------

  /** The characters String.prototype.trim removes: WhiteSpace and LineTerminator. */
  predicate IsTrimmable(c: char) {
    var n := c as int;
    n == 0x09 || n == 0x0A || n == 0x0B || n == 0x0C || n == 0x0D || n == 0x20 ||
    n == 0xA0 || n == 0x1680 || (0x2000 <= n <= 0x200A) || n == 0x2028 || n == 0x2029 ||
    n == 0x202F || n == 0x205F || n == 0x3000 || n == 0xFEFF
  }

  /** How many trimmable characters the string starts with. */
  function LeadingTrimmable(s: string): (k: nat)
    ensures k <= |s|
    ensures k < |s| ==> !IsTrimmable(s[k])
  {
    if |s| > 0 && IsTrimmable(s[0]) then 1 + LeadingTrimmable(s[1..]) else 0
  }

  /** Every character before the leading count is trimmable. */
  lemma {:induction false} LeadingAllTrimmable(s: string)
    ensures forall i :: 0 <= i < LeadingTrimmable(s) ==> IsTrimmable(s[i])
  {
    if |s| > 0 && IsTrimmable(s[0]) {
      LeadingAllTrimmable(s[1..]);
      forall i | 0 <= i < LeadingTrimmable(s)
        ensures IsTrimmable(s[i])
      {
        if i > 0 {
          assert s[i] == s[1..][i - 1];
        }
      }
    }
  }

  /** How many trimmable characters the string ends with. */
  function TrailingTrimmable(s: string): (k: nat)
    ensures k <= |s|
    ensures k < |s| ==> !IsTrimmable(s[|s| - 1 - k])
  {
    if |s| > 0 && IsTrimmable(s[|s| - 1]) then 1 + TrailingTrimmable(s[..|s| - 1]) else 0
  }

  /** Every character after the last |s| - k is trimmable, k the trailing count. */
  lemma {:induction false} TrailingAllTrimmable(s: string)
    ensures forall i :: |s| - TrailingTrimmable(s) <= i < |s| ==> IsTrimmable(s[i])
  {
    if |s| > 0 && IsTrimmable(s[|s| - 1]) {
      TrailingAllTrimmable(s[..|s| - 1]);
      forall i | |s| - TrailingTrimmable(s) <= i < |s|
        ensures IsTrimmable(s[i])
      {
        if i < |s| - 1 {
          assert s[i] == s[..|s| - 1][i];
        }
      }
    }
  }

  /** Where the trimmed name ends in s. */
  function TrimTo(s: string): (b: nat)
    ensures LeadingTrimmable(s) <= b <= |s|
  {
    |s| - TrailingTrimmable(s[LeadingTrimmable(s)..])
  }

  /** String.prototype.trim: the input without its leading and trailing trimmable characters. */
  function Trim(s: string): (r: string)
    ensures |r| <= |s|
    ensures r == [] || !IsTrimmable(r[0])
  {
    s[LeadingTrimmable(s)..TrimTo(s)]
  }

  /** Trim removes only trimmable characters, from both ends. */
  lemma TrimDropsOnlyTrimmable(s: string)
    ensures forall i :: 0 <= i < LeadingTrimmable(s) ==> IsTrimmable(s[i])
    ensures forall i :: TrimTo(s) <= i < |s| ==> IsTrimmable(s[i])
  {
    LeadingAllTrimmable(s);
    TrailingAfter(s, LeadingTrimmable(s));
  }

  /** Past the trailing run of s[a..], every character of s is trimmable. */
  lemma TrailingAfter(s: string, a: nat)
    requires a <= |s|
    ensures forall i :: |s| - TrailingTrimmable(s[a..]) <= i < |s| ==> IsTrimmable(s[i])
  {
    var t := s[a..];
    TrailingAllTrimmable(t);
    forall i | |s| - TrailingTrimmable(t) <= i < |s|
      ensures IsTrimmable(s[i])
    {
      assert s[i] == t[i - a];
    }
  }

  /** A trimmed name has no trimmable character at either end. */
  lemma TrimKeepsNoEnds(s: string)
    ensures Trim(s) == [] || (!IsTrimmable(Trim(s)[0]) && !IsTrimmable(Trim(s)[|Trim(s)| - 1]))
  {
    var a, b := LeadingTrimmable(s), TrimTo(s);
    var t := s[a..];
    if a < b {
      assert Trim(s)[0] == s[a];
      assert Trim(s)[|Trim(s)| - 1] == t[|t| - 1 - TrailingTrimmable(t)];
    }
  }

  /** A name of trimmable characters only becomes the empty string. */
  lemma TrimAllWhitespace(s: string)
    requires forall i :: 0 <= i < |s| ==> IsTrimmable(s[i])
    ensures Trim(s) == ""
  {
  }

  /**
   * addHabitFlow on the habit sequence: `prompt` answered with `input`
   * (None when cancelled); an empty answer or a cancel changes nothing,
   * any other answer appends a habit with the trimmed name and no marks.
   */
  function AppendHabit(habits: seq<Habit>, input: Option<string>, freshId: string): (r: seq<Habit>)
    ensures input.None? || input == Some("") ==> r == habits
    ensures input.Some? && input.value != "" ==>
              |r| == |habits| + 1 && r[..|habits|] == habits &&
              r[|habits|] == Habit(freshId, Trim(input.value), {})
  {
    match input
    case None => habits
    case Some(name) => if name == "" then habits else habits + [Habit(freshId, Trim(name), {})]
  }

  /** A whitespace-only answer is accepted and appends a habit named "". */
  lemma WhitespaceNameAccepted(habits: seq<Habit>, name: string, freshId: string)
    requires name != "" && forall i :: 0 <= i < |name| ==> IsTrimmable(name[i])
    ensures AppendHabit(habits, Some(name), freshId) == habits + [Habit(freshId, "", {})]
  {
    TrimAllWhitespace(name);
  }

  /** A fresh id keeps ids unique. */
  lemma AppendKeepsUnique(habits: seq<Habit>, input: Option<string>, freshId: string)
    requires UniqueIds(habits)
    requires forall j :: 0 <= j < |habits| ==> habits[j].id != freshId
    ensures UniqueIds(AppendHabit(habits, input, freshId))
  {
  }
}

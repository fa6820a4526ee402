# Habit tracker core in Dafny

A model of the logic of a single-page monthly habit tracker (`script.js`).

The tracker keeps one state object, `{ monthOffset, habits }`. Each habit has an id, a name and a set of marked day-keys `YYYY-MM-DD`. The page shows one month at a time: today's month shifted by `monthOffset`. For that month it draws:

- one row per habit, with a checkbox per day, a COUNT of marked days and a percentage bar;
- placeholder rows that fill the table up to eight rows;
- a Total row with per-day totals and their sum.

The table's checkbox and delete events, the add-habit prompt and the previous/next month buttons update the state. The state is saved after every update and loaded at start-up; a sample state stands in when nothing usable is stored.

The project has four modules:

- `Calendar` (`calendar.dfy`) covers the Date arithmetic the tracker relies on. This is the normalisation done by `new Date(y, m, d)`, following the day arithmetic of ECMA-262 section 21.4.1 and the constructor's two-digit-year rule. On top of it sit `daysInMonth` and `getActiveMonthDate`.
- `DayKeys` (`day_keys.dfy`) covers `pad`, `monthKey` and the day-key strings, and proves they are injective: a day-key determines its year, month and day.
- `Habits` (`habits.dfy`) defines the specification functions: a habit's marks in a month, the percentage, per-day totals, placeholder rows, and the value-level effects of the updates (set or clear a mark, delete by id, trim and append).
- `Tracker` (`tracker.dfy`) holds the state as a class `HabitState` with the fields `monthOffset` and `habits`. Its methods are the handlers and render computations. Each loop method is proved against the `Habits` functions. The module also holds `makeSampleState` and `loadState`/`saveState` on an abstract stored value.

## Model

| member | source | states |
|---|---|---|
| Calendar.MonthLength | script.js:104-106 | A month has 28 to 31 days. February has 29 exactly in a leap year and 28 otherwise. April, June, September and November have 30, and the others 31. |
| Calendar.NormalizeDay | script.js:104-106 | Normalising an out-of-range day of a month yields a valid date. That date denotes the same day number as MakeDay of the original fields. |
| Calendar.NewDate | script.js:100-106 | `new Date(y, m, d)` yields a valid date. It denotes MakeDay of (MakeFullYear(y), m, d), with years 0..99 read as 1900..1999. |
| Calendar.DaysInMonthAsWritten | script.js:104-106 | Day 0 of the next month, built with the Date constructor. For years outside 0..99 this is the month's length. For years 0..99 it is the length of the same month in year 1900+y. |
| Calendar.TwoDigitYearFebruary | script.js:104-106 | Counterexample: February of year 0, a leap year of 29 days, gets 28 from the code as written. |
| Calendar.DaysInMonth | script.js:104-106 | Corrected daysInMonth: always the true length of the date's month, between 28 and 31. |
| Calendar.DaysInMonthIsDayZero | script.js:104-106 | Day 0 of the following month, with the year taken as it is, normalises to the last day of the month, whose day-of-month is DaysInMonth. |
| Calendar.AsWrittenAgrees | script.js:104-106 | Outside the years 0..99 the code as written and the corrected daysInMonth give the same number. |
| Calendar.MakeDayCarriesMonths | script.js:100-102 | A month number beyond 0..11 may be carried into the year before MakeDay without changing the day it denotes. |
| Calendar.FollowingFirst | script.js:104-106 | The first of the following month lies exactly the month's length after the first of the month. |
| Calendar.ActiveMonth | script.js:100-102 | getActiveMonthDate yields the first of a month. That month lies exactly monthOffset months after today's month, with today's year read through the constructor's two-digit-year rule; outside years 0..99 this is today's own month plus monthOffset. |
| Calendar.SuccessorMonth | script.js:358-365 | The first of the month after a month comes right after that month's last day. |
| Calendar.NextMonthFollows | script.js:358-365 | For every today and offset, raising the offset by one shows the next month. Its first day is the day after the last day of the month shown before. |
| DayKeys.NatToString | script.js:27-29 | Number.prototype.toString of a natural number is non-empty and starts with a decimal digit. It has one character exactly below 10, and two from 10 to 99. |
| DayKeys.NatToStringDigits | script.js:27-29 | Every character of the rendering is a decimal digit. |
| DayKeys.NatToStringInjective | script.js:27-29 | Different numbers have different decimal renderings. |
| DayKeys.IntToString | script.js:31-33 | A year's rendering starts with '-' exactly when the year is negative. |
| DayKeys.IntToStringInjective | script.js:31-33 | Different years have different renderings. |
| DayKeys.Repeat | script.js:27-29 | The filler run has exactly the requested length. |
| DayKeys.RepeatAll | script.js:27-29 | Every character of the filler run is the filler. |
| DayKeys.PadStart | script.js:27-29 | padStart leaves a string that is long enough unchanged. Otherwise the result has exactly the target length. In both cases the original is a suffix of the result. |
| DayKeys.PadStartFills | script.js:27-29 | Every character padStart puts before the original is the filler. |
| DayKeys.Pad | script.js:27-29 | pad renders every number below 100 as exactly two characters. |
| DayKeys.PadDigits | script.js:27-29 | pad renders every number below 100 as exactly its tens digit followed by its units digit. |
| DayKeys.PadInjective | script.js:27-29 | pad is injective below 100. |
| DayKeys.MonthKey | script.js:31-33 | A month-key is three characters longer than the year's rendering. |
| DayKeys.MonthKeyInjective | script.js:31-33 | Equal month-keys mean the same year and the same month. |
| DayKeys.DayKey | script.js:131 | The key template `${monthKey}-${pad(day)}`: for a day below 100 it is three characters longer than the month-key; DayKeyInjective and DayKeyPrefix give its meaning. |
| DayKeys.DayKeyPrefix | script.js:126-135 | Every day-key of a month starts with the month-key and '-', and all have the same length. |
| DayKeys.DayKeyInjective | script.js:31-33 | Equal day-keys mean the same year, the same month and the same day. |
| DayKeys.DayKeysDistinct | script.js:126-135 | Two different days of a month have different keys. |
| Habits.KeysUpTo | script.js:126-135 | The keys of days 1..n under one prefix: exactly n of them. |
| Habits.KeysUpToAt | script.js:126-135 | Position i of those keys is the prefix followed by pad(i+1). |
| Habits.KeysUpToAll | script.js:126-135 | Every position i of those keys is the prefix followed by pad(i+1). |
| Habits.MonthKeys | script.js:126-135 | The keys the loops visit: exactly one per day of the month. |
| Habits.MonthKeyAt | script.js:126-135 | Position i of the month's keys is the day-key of day i+1. |
| Habits.MonthKeysAt | script.js:126-135 | Every position i of the month's keys is the day-key of day i+1. |
| Habits.MonthKeysDiffer | script.js:126-135 | Two different positions of the month's keys hold different keys. |
| Habits.MonthKeysDistinct | script.js:126-135 | The month's keys are pairwise distinct, so no day is counted twice. |
| Habits.CountMarkedIsCard | script.js:126-135 | The count of marked keys equals the number of positions whose key is marked. |
| Habits.CountSeesOnlyKeys | script.js:126-135 | The count depends only on which of the visited keys are marked. |
| Habits.MonthCount | script.js:126-135 | A habit's monthly COUNT never exceeds the number of days in the month. |
| Habits.MonthCountIsMarkedDays | script.js:126-135 | The monthly COUNT is the number of days of the month whose key the habit marks. |
| Habits.OtherMonthKeyIgnored | script.js:217-230 | Setting or clearing a mark of another month never changes this month's COUNT. |
| Habits.ForeignKeyIgnored | script.js:126-135 | Adding or removing a key that the loop never visits leaves the count unchanged. |
| Habits.DayKeysOfMember | script.js:35-76 | Day k's key is among the keys of a list of days exactly when k is in the list. |
| Habits.ListedAll | script.js:35-76 | When exactly the keys of listed positions are marked, the count is the number of listed positions. |
| Habits.ListedDaysCount | script.js:35-76 | Marking a set of days that every month has (1..28) gives a COUNT of exactly that many. |
| Habits.ListedDaysElsewhere | script.js:35-76 | Marks on listed days of one month count nothing in any other month. |
| Habits.Percent | script.js:156 | With zero days the percentage is 0. It is at most 100 when count is at most days. |
| Habits.PercentRounds | script.js:156 | With some days, the percentage is the integer nearest to 100*count/days, with halves rounded up. |
| Habits.Checked | script.js:142-146 | One checkbox per visited key. |
| Habits.CheckedMatchesCount | script.js:141-156 | The number of ticked checkboxes in a row equals the COUNT shown in that row. |
| Habits.HabitsOn | script.js:246-257 | The total for a key never exceeds the number of habits. |
| Habits.HabitsOnCounts | script.js:246-257 | The total for a key is the number of habits that mark it. |
| Habits.Totals | script.js:246-257 | One total per key, none above the number of habits. |
| Habits.DayTotals | script.js:246-257 | One total per day of the month, none above the number of habits. |
| Habits.Sum | script.js:198 | `reduce((a, b) => a + b, 0)`: the sum is at least every element; GrandTotal ties it to the COUNTs. |
| Habits.TotalsSumIsRowSum | script.js:191-198 | Summing the per-key totals gives the same result as summing each habit's marks over the keys. |
| Habits.GrandTotal | script.js:191-198 | The Total row's sum equals the sum of all habits' monthly COUNTs. |
| Habits.PlaceholderRows | script.js:178-188 | Habit rows plus placeholder rows make at least eight. With fewer than eight habits they make exactly eight; otherwise there are no placeholders. |
| Habits.FindHabit | script.js:222-223 | `find` returns the first habit with the id, or none exactly when no habit has it. |
| Habits.Mark | script.js:224-228 | A checked box sets the key and an unchecked one deletes it; no other key changes. |
| Habits.SetMark | script.js:217-230 | A checkbox with an unknown habit id changes nothing. Otherwise only the first habit with that id changes, and only in the clicked key. |
| Habits.CheckUncheckRoundTrip | script.js:224-228 | Checking a box that was clear and then unchecking it restores the previous habits. |
| Habits.SetMarkIdempotent | script.js:355-356 | Handling the same checkbox event twice (click and change both fire) equals handling it once. |
| Habits.SetMarkKeepsIds | script.js:217-230 | Marking keeps every habit's id, and so keeps ids unique. |
| Habits.RemoveId | script.js:234 | After a delete, a habit is kept exactly when it was there and its id differs from the deleted one. |
| Habits.RemoveIdConcat | script.js:234 | Filtering distributes over concatenation. |
| Habits.RemoveAbsentId | script.js:234 | Deleting an id no habit has leaves the list unchanged. |
| Habits.RemovePresentId | script.js:234 | With unique ids, deleting removes exactly the one habit with that id and keeps the order of the others. |
| Habits.RemoveIdKeepsUnique | script.js:234 | Deleting keeps ids unique. |
| Habits.LeadingTrimmable | script.js:242 | The length of the leading run of whitespace and line terminators: the character after it, if any, is not one. |
| Habits.LeadingAllTrimmable | script.js:242 | Every character of that leading run is whitespace or a line terminator. |
| Habits.TrailingTrimmable | script.js:242 | The length of the trailing run of whitespace and line terminators: the character before it, if any, is not one. |
| Habits.TrailingAllTrimmable | script.js:242 | Every character of that trailing run is whitespace or a line terminator. |
| Habits.TrimDropsOnlyTrimmable | script.js:242 | trim removes only whitespace and line terminators, before and after the part it keeps. |
| Habits.TrimKeepsNoEnds | script.js:242 | A trimmed name is empty or neither starts nor ends with whitespace or a line terminator. |
| Habits.Trim | script.js:242 | `name.trim()` is no longer than the name and does not start with whitespace or a line terminator; TrimDropsOnlyTrimmable and TrimKeepsNoEnds give the rest of its meaning. |
| Habits.TrimAllWhitespace | script.js:242 | A name made only of whitespace trims to the empty string. |
| Habits.AppendHabit | script.js:239-244 | A cancelled or empty answer changes nothing. Any other answer appends one habit with the fresh id, the trimmed name and no marks, keeping the earlier habits. |
| Habits.WhitespaceNameAccepted | script.js:239-244 | A whitespace-only answer passes the emptiness test and appends a habit with an empty name. |
| Habits.AppendKeepsUnique | script.js:239-244 | With a fresh id, adding a habit keeps ids unique. |
| Tracker.MakeSampleState | script.js:35-76 | The sample has offset 0 and three habits, with the given ids and the names DSA-1, fsdfgs and fasdger. |
| Tracker.SampleMonth | script.js:35-36 | The sample is marked in the given month, or in today's month when none is given. |
| Tracker.SampleHabitDays | script.js:35-76 | Each sample habit is marked on the keys of its listed days in the sample's month. |
| Tracker.SampleDayRange | script.js:35-76 | Every listed sample day lies in 1..28, so every month has it. |
| Tracker.SampleDaySizes | script.js:35-76 | The sample habits mark 3, 5 and 7 days. |
| Tracker.SampleCounts | script.js:35-76 | In the month the sample is built for, the sample habits count exactly their listed days: 3, 5 and 7. |
| Tracker.SampleOnlyInBaseMonth | script.js:35-76 | In any other month the sample habits count nothing. |
| Tracker.SampleIdsUnique | script.js:35-76 | The sample's ids are unique exactly when the three generated ids are distinct. |
| Tracker.LoadState | script.js:78-91 | A stored state with habits and a numeric offset is used as is. Anything else yields the sample. |
| Tracker.Save | script.js:93-95 | Saving stores both fields in the abstract stored value (JSON text is not modelled). |
| Tracker.SaveLoadRoundTrip | script.js:78-95 | A saved state passes loadState's shape check and is used as is. This holds by construction of the abstract stored value; it says nothing about JSON.stringify and JSON.parse. |
| Tracker.IncompleteStoredGivesSample | script.js:78-91 | Missing, unparsable or incomplete storage loads the sample. |
| Tracker.HabitCountForMonth | script.js:126-135 | The loop's count equals the habit's monthly COUNT, so it is at most the number of days in the month. |
| Tracker.CountDays | script.js:129-134 | The loop over days 1..totalDays counts exactly the visited keys the habit marks. |
| Tracker.AddMarks | script.js:250-255 | One pass over the days adds one to each day the habit marks and leaves the other days' totals alone. |
| Tracker.CountByDay | script.js:246-257 | The zeroed array, after one pass per habit, holds for each key the number of habits marked on it. |
| Tracker.ShownRowConsistent | script.js:141-176 | In a row that shows its habit, the COUNT equals the ticked boxes and the percentage is at most 100. |
| Tracker.HabitRow | script.js:141-176 | A habit row shows the habit's id and name, one checkbox per day, its monthly COUNT and the percentage of that COUNT. |
| Tracker.HabitRows | script.js:141-176 | One row per habit in order, numbered from 1, each showing its habit as above. |
| Tracker.PlaceholderCells | script.js:178-189 | The placeholder rows needed to reach eight rows, each with one blank cell per day. |
| Tracker.HabitState.Load | script.js:97 | The initial state is the stored state, or the sample for today's month. |
| Tracker.HabitState.Current | script.js:93-95 | The saved snapshot holds exactly the state's offset and habits. |
| Tracker.HabitState.ActiveMonthDate | script.js:100-102 | The shown month starts on its first day and lies monthOffset months from today's month, with today's year read through the constructor's two-digit-year rule (which changes nothing outside years 0..99). |
| Tracker.HabitState.MonthPrev | script.js:358-361 | The previous-month button lowers the offset by one and leaves the habits alone. |
| Tracker.HabitState.MonthNext | script.js:362-365 | The next-month button raises the offset by one and leaves the habits alone. |
| Tracker.HabitState.HandleTableChange | script.js:217-237 | A checkbox event sets or clears the mark on the first habit with the id, and changes nothing for an unknown id. A delete removes every habit with the id. Other targets change nothing. The offset never changes, and unique ids stay unique. |
| Tracker.HabitState.AddHabitFlow | script.js:239-244 | The habits become AppendHabit of the old habits. The offset is unchanged, and unique ids stay unique when the new id is fresh. |
| Tracker.HabitState.TotalsByDay | script.js:246-257 | The new array holds, for each day of the month, the number of habits marked on that day. |
| Tracker.HabitState.RenderRows | script.js:137-210 | The rendered table has one row per habit showing that habit. It has the placeholder rows up to eight. Its Total row holds the per-day totals, whose sum equals the sum of all COUNTs. |

## Left out

- Canvas and drawing code (`ensureCanvasSize`, `drawSmoothLine`, `drawChart`) is not modelled. Neither are the chart-mode toggle and `syncChartButtons`; they are presentation only.
- HTML generation and the DOM are not modelled. The table is modelled as the values it displays (`Row`, `Grid`), not as markup. `buildHeader` and `renderMonthLabel` only print the day numbers and a month name.
- Event wiring and the `update()` sequence are not modelled as such. Each handler is a method; the save that follows every update is `HabitState.Current`.
- `localStorage` and JSON are reduced to an abstract `Stored` value:
  - a missing or empty item;
  - an unparsable item (which includes a parsed `null`);
  - a parsed object whose `habits` may be missing or falsy and whose `monthOffset` may not be a number.
- `Stored` keeps neither JSON's handling of values nor extra fields.
- `crypto.randomUUID`, `prompt` and the current date are parameters: three or one fresh ids, the answer (None for a cancel), and `today`.
- Habits.MonthKeys, Tracker.HabitCountForMonth, Tracker.HabitRow, Tracker.HabitRows, Tracker.HabitState.TotalsByDay, Tracker.HabitState.RenderRows: these are bounded by the corrected `Calendar.DaysInMonth`, not by `daysInMonth` as written (see Findings). They therefore differ from the code only in February of year 0: the code builds 28 checkboxes, 28 totals and counts days 1..28 there, while the model uses 29.
- Habits.Percent: `Math.round` of a floating-point quotient is modelled in exact rational arithmetic, as the nearest integer with halves rounded up. Floating-point error in `count / totalDays * 100` is not modelled.
- Dates are modelled as local-time year, month and day. Time zones, daylight-saving shifts and the time of day are not modelled. Neither is the ±8.64e15 ms range limit of Date values; years are unbounded integers.
- A habit's `days` is a set of keys. Keys with a value other than `true`, which could only come from edited storage, are not modelled.
- Stored offsets that are non-integral numbers, NaN or infinities are not modelled; `monthOffset` is an integer.
- Strings are sequences of code points, not UTF-16 code units. `trim` uses the WhiteSpace and LineTerminator code points of ECMA-262; no normalisation is modelled.

## Findings

| source | as written | input that shows it | evidently intended | confidence | as-written member | corrected member |
|---|---|---|---|---|---|---|
| script.js:104-106 | `new Date(y, m + 1, 0)` passes the year through the Date constructor, which reads years 0..99 as 1900..1999 | a month of year 0..99, reachable by stepping back through the months: February of year 0 gives 28, but year 0 is a leap year with 29 | the number of days of the date's own month | medium (not executed) | Calendar.DaysInMonthAsWritten, Calendar.TwoDigitYearFebruary | Calendar.DaysInMonth |

# Month calendar with per-day tasks: a Dafny model

The `Calendar` React component shows one month as a grid of seven columns
headed Mon..Sun. It pads the grid with blank cells so that the first of the
month lands under its weekday, and it lists the tasks stored for each day.
Two buttons move the shown date one month forward or back. Each day cell can
add a task to that day or remove one. The task store is a map from a day key
(`YYYY-MM-DD`) to the day's list of tasks. It is written to local storage
whenever it holds at least one key, and it is read back when the component
mounts.

The model has six modules:

- `Gregorian` (`gregorian.dfy`): the date arithmetic of the ECMAScript `Date`
  object (section 21.4.1 of ECMA-262). It covers day numbers counted from
  1970-01-01, the leap-year rule, `getDay`, and the MakeDay normalisation
  of out-of-range months and days. `setMonth` applies MakeDay to the year
  it is given. `new Date(y, m, d)` first maps a year from 0 to 99 to 1900
  to 1999 (section 21.4.2.1 of ECMA-262) and then applies MakeDay.
- `DayKeys` (`day_keys.dfy`): the day key, i.e. the date part of
  `toISOString()`, together with a parser that reads a key back.
- `TaskStore` (`task_store.dfy`): the store and the two `setTasks` updaters
  of `handleAddTask` and `handleRemoveTask`, as pure functions.
- `MonthGrid` (`month_grid.dfy`): `getMonthDaysWithPadding`, and the render
  map that turns each cell into a day key, that day's tasks and an
  `isToday` flag.
- `Calendar` (`calendar.dfy`): `handleSwitchDate` as a pure function on the
  date, and the `CalendarView` class. The class holds the component's state
  (`tasks`, `current`, and `saved`, the local-storage snapshot) and its
  handlers, each followed by the save effect.
- `Wrappers` (`wrappers.dfy`): `Option`.

A date is the triple `(year, month, day)` that `getFullYear`, `getMonth` and
`getDate` report, with the month counted from 0. The grid functions are
proved against a reference layout: `Padding(y, m)` blanks, then days 1 to
`DaysInMonth(y, m)`. All the grid properties are proved about that layout.
Because `getMonthDaysWithPadding` rebuilds its dates with the constructor,
the grid of a date holds the month in `ConstructorYear(year)`. That is the
date's own year, except for years 0 to 99: there the grid shows the same
month 1900 years later, and the date itself is in none of its cells.

## Model

| member | source | states |
|---|---|---|
| Gregorian.DaysInMonth | src/components/Calendar/Calendar.tsx:26-27 | a month has 28 to 31 days; it has 29 exactly when it is February of a leap year |
| Gregorian.WeekDay | src/components/Calendar/Calendar.tsx:29 | `getDay` lies in 0..6 |
| Gregorian.MonthAfter | src/components/Calendar/Calendar.tsx:44 | the month after (y, m) is month index `12y + m + 1`, with the year carry |
| Gregorian.MonthBefore | src/components/Calendar/Calendar.tsx:44 | the month before (y, m) is month index `12y + m - 1`, with the year borrow |
| Gregorian.MonthLength | src/components/Calendar/Calendar.tsx:26-27 | the first of the next month is `DaysInMonth` days after the first of this month, across a year end too |
| Gregorian.DayNumberOrder | src/components/Calendar/Calendar.tsx:34-37 | on valid dates, calendar order and day-number order agree (both directions) |
| Gregorian.DayNumberInjective | src/components/Calendar/Calendar.tsx:34-37 | two valid dates have the same day number exactly when they are equal |
| Gregorian.Normalize | src/components/Calendar/Calendar.tsx:26 | any day of any month is moved, whole months at a time, onto a valid date with the same day number |
| Gregorian.MakeDate | src/components/Calendar/Calendar.tsx:44 | the date `setMonth` produces is a valid date whose day number is MakeDay(y, m, d), whatever the month and day |
| Gregorian.NewDate | src/components/Calendar/Calendar.tsx:25-26 | `new Date(y, m, d)` is a valid date whose day number is MakeDay of the constructor's year (years 0..99 read as 1900..1999), m and d |
| Gregorian.NewDateInRange | src/components/Calendar/Calendar.tsx:35 | a day the month has is built as that day of the constructor's year: unchanged outside years 0..99, and in year 1900 + y inside them |
| Gregorian.NewDateDayZero | src/components/Calendar/Calendar.tsx:26-27 | `new Date(y, m + 1, 0)` is the last day of month m of the constructor's year |
| Gregorian.TwoDigitYearFebruary | src/components/Calendar/Calendar.tsx:26-27 | year 0 is a leap year, yet `new Date(0, 2, 0)` is 28 February 1900 |
| Gregorian.MakeDateUnique | src/components/Calendar/Calendar.tsx:44 | a valid date has MakeDay's day number exactly when it is MakeDate's result |
| Gregorian.MonthAfterCarry | src/components/Calendar/Calendar.tsx:26 | MakeDay's carry of month `m + 1` into the year is the next month |
| Gregorian.MonthBeforeCarry | src/components/Calendar/Calendar.tsx:44 | MakeDay's borrow for month `m - 1` is the previous month |
| Gregorian.DaysOfMonthCount | src/components/Calendar/Calendar.tsx:29 | day 1 + i of a month is i days after the first, and its weekday is i steps on, modulo 7 |
| DayKeys.DayKey | src/components/Calendar/Calendar.tsx:91 | the key of a date in years 0..9999 has ten characters |
| DayKeys.ParseDayKeyRoundTrip | src/components/Calendar/Calendar.tsx:91 | every key parses back to the date it was formed from |
| DayKeys.DayKeyInjective | src/components/Calendar/Calendar.tsx:91 | two valid dates share a key exactly when they are the same date |
| DayKeys.IsDayKeyIffKeyOfDate | src/components/Calendar/Calendar.tsx:91 | a string is a well-formed day key (it parses to a valid date whose key it is) exactly when it is the key of some valid date |
| TaskStore.Without | src/components/Calendar/Calendar.tsx:58 | the filtered list no longer holds the task; every other entry keeps its multiplicity; the list does not grow |
| TaskStore.WithoutConcat | src/components/Calendar/Calendar.tsx:58 | filtering distributes over concatenation, so the survivors keep their order |
| TaskStore.WithoutAbsent | src/components/Calendar/Calendar.tsx:58 | filtering out a task the list does not hold returns the list unchanged |
| TaskStore.RemoveDuplicates | src/components/Calendar/Calendar.tsx:58 | every copy of the task goes, and the other entries stay in order |
| TaskStore.AddTask | src/components/Calendar/Calendar.tsx:48-53 | the keys become the old keys plus the day; the day's list is its old list with the task appended when the key was present, and just the task when it was absent, so one longer; every other key keeps its list |
| TaskStore.AddTwiceKeepsOrder | src/components/Calendar/Calendar.tsx:51 | two adds to one day append in call order |
| TaskStore.RemoveTask | src/components/Calendar/Calendar.tsx:55-61 | the keys are unchanged, even when the day's list becomes empty; the day's list becomes the filtered old list (`Without`, whose survivors keep their order by WithoutConcat); the task is gone from it and the other entries keep their multiplicity; every other key keeps its list |
| TaskStore.RemoveTaskIdempotent | src/components/Calendar/Calendar.tsx:55-61 | removing the same task twice equals removing it once |
| TaskStore.RemoveAbsentTask | src/components/Calendar/Calendar.tsx:55-61 | removing a task the day does not hold leaves the store unchanged |
| TaskStore.UpdatesKeepKeys | src/components/Calendar/Calendar.tsx:19 | after an add the store has a key; a remove keeps the number of keys, so a non-empty store stays non-empty |
| MonthGrid.Padding | src/components/Calendar/Calendar.tsx:29 | the Monday-first index of the first of the month lies in 0..6 |
| MonthGrid.FirstDayIndex | src/components/Calendar/Calendar.tsx:25-29 | `(getDay() + 6) % 7` of `new Date(y, m, 1)` is the padding of month m in the constructor's year |
| MonthGrid.DaysInMonthOf | src/components/Calendar/Calendar.tsx:26-27 | `new Date(y, m + 1, 0).getDate()` is the Gregorian length of month m in the constructor's year |
| MonthGrid.BuiltDaysOfMonth | src/components/Calendar/Calendar.tsx:34-37 | `new Date(y, m, i + 1)` for every day of the month gives exactly days 1..n of that month in the constructor's year |
| MonthGrid.MonthDaysWithPadding | src/components/Calendar/Calendar.tsx:24-40 | the grid equals the reference layout of the date's month in the constructor's year: the month's padding in blanks, then its days in order |
| MonthGrid.TwoDigitYearGrid | src/components/Calendar/Calendar.tsx:24-40 | for a date in years 0..99 every date cell lies in year 1900 + y, so the date itself is in no cell |
| MonthGrid.LayoutCells | src/components/Calendar/Calendar.tsx:31-39 | the length is pad + days in month; the first pad cells are blank; cell pad + i holds day i + 1 of the month; nothing follows the last day |
| MonthGrid.HeadingNamesWeekDay | src/components/Calendar/Calendar.tsx:65 | the heading in Monday-first column `(w + 6) % 7` names the weekday that getDay numbers w |
| MonthGrid.ColumnAlignment | src/components/Calendar/Calendar.tsx:29 | every date cell j holds a valid date whose Monday-first weekday is j mod 7, under the heading naming that weekday |
| MonthGrid.WeekDayOfDay | src/components/Calendar/Calendar.tsx:29 | day 1 + i of a month falls in column (pad + i) mod 7 |
| MonthGrid.DatesIncrease | src/components/Calendar/Calendar.tsx:34-37 | cells k apart hold dates k days apart, so the dates strictly increase |
| MonthGrid.LayoutValid | src/components/Calendar/Calendar.tsx:34-37 | every date in the grid is a valid date |
| MonthGrid.DayKeysDistinct | src/components/Calendar/Calendar.tsx:96 | distinct date cells have distinct day keys, with the key formed from the local date |
| MonthGrid.TodayInGrid | src/components/Calendar/Calendar.tsx:92 | today's date is in at most one cell; it is in one exactly when it falls in the displayed month |
| MonthGrid.Render | src/components/Calendar/Calendar.tsx:86-103 | the render map gives one cell per grid cell |
| MonthGrid.RenderShape | src/components/Calendar/Calendar.tsx:87-101 | a blank cell stays blank; a date d becomes the cell with key DayKey(d), flagged isToday exactly when d is today, holding `tasks[key]` when the store has the key and no tasks when it has not |
| MonthGrid.RenderedKeysWellFormed | src/components/Calendar/Calendar.tsx:96-100 | every rendered key, the one the cell's handlers receive, is a well-formed day key |
| MonthGrid.RenderTodayCells | src/components/Calendar/Calendar.tsx:92 | a cell is flagged isToday exactly when it holds today's date |
| MonthGrid.RenderedKeysDistinct | src/components/Calendar/Calendar.tsx:96 | the rendered month shows each local-date day key once |
| MonthGrid.RenderedToday | src/components/Calendar/Calendar.tsx:92 | at most one rendered cell is flagged isToday, and one is exactly when today falls in the displayed month |
| MonthGrid.DeriveCells | src/components/Calendar/Calendar.tsx:66 | the component renders as many cells as the padding plus the days of the shown month in the constructor's year |
| MonthGrid.DerivedMonth | src/components/Calendar/Calendar.tsx:86-103 | the shown month (in the constructor's year) has a blank exactly where the layout has one; each date is rendered as the cell of its own key, its tasks and its today flag; each local-date key appears once; at most one cell is flagged isToday, and one is exactly when today falls in the shown month |
| Calendar.TargetMonth | src/components/Calendar/Calendar.tsx:44 | a button aims at month index `12y + m ± 1`, as a valid (year, month) |
| Calendar.MonthCarry | src/components/Calendar/Calendar.tsx:44 | `setMonth(getMonth() ± 1)` carries into the year as the target month does |
| Calendar.MakeDayOfTarget | src/components/Calendar/Calendar.tsx:44 | MakeDay of the month `m ± 1` counts from the first of the target month |
| Calendar.DayOrOverflowNumber | src/components/Calendar/Calendar.tsx:44 | a day 1..31 placed into the target month, or overflowed into the month after, is a valid date that many days on from the target's first |
| Calendar.SetMonthOverflow | src/components/Calendar/Calendar.tsx:44 | `setMonth` that keeps the day gives that day of the target month, or its overflow into the following month |
| Calendar.SwitchedDate | src/components/Calendar/Calendar.tsx:42-46 | the new date is valid; it is the same day of the month after or before, or, when that month is shorter, the overflow into the month after it |
| Calendar.SwitchKeepsDay | src/components/Calendar/Calendar.tsx:42-46 | a day that the target month has is kept |
| Calendar.NextThenPrev | src/components/Calendar/Calendar.tsx:42-46 | Next then Prev is the identity when the day fits in the next month |
| Calendar.PrevThenNext | src/components/Calendar/Calendar.tsx:42-46 | Prev then Next is the identity when the day fits in the previous month |
| Calendar.NextFromJanuary31 | src/components/Calendar/Calendar.tsx:42-46 | from 2024-01-31 Next gives 2024-03-02 (February is skipped); Prev then gives 2024-02-02, so Next then Prev is not the identity |
| Calendar.AddTaskDayKeyed | src/components/Calendar/Calendar.tsx:48-53 | after an add every key is a well-formed day key exactly when that held before and the added day is one |
| Calendar.RemoveTaskDayKeyed | src/components/Calendar/Calendar.tsx:55-61 | a remove keeps every key a well-formed day key exactly when that held before |
| Calendar.CalendarView.constructor | src/components/Calendar/Calendar.tsx:8-16 | the view starts at today; the store is the stored snapshot when there is one and is empty otherwise; the snapshot is unchanged; the state invariant holds |
| Calendar.CalendarView.SaveTasks | src/components/Calendar/Calendar.tsx:18-22 | the snapshot becomes the whole store exactly when the store has a key, and is left alone otherwise |
| Calendar.CalendarView.AddTask | src/components/Calendar/Calendar.tsx:48-53 | the store becomes TaskStore.AddTask of the old store; the snapshot equals the new store; the date is unchanged; the invariant is kept; the store stays day-keyed exactly when it was and the day is a day key |
| Calendar.CalendarView.RemoveTask | src/components/Calendar/Calendar.tsx:55-61 | the store becomes TaskStore.RemoveTask of the old store; the snapshot equals the new store; the date is unchanged; the invariant is kept; the store is day-keyed exactly when it was |
| Calendar.CalendarView.SwitchDate | src/components/Calendar/Calendar.tsx:42-46 | the date becomes SwitchedDate of the old date; the store and the snapshot are unchanged; the invariant is kept |

The invariant `CalendarView.Valid()` combines two facts. The shown date is a
valid date. And whenever the store has at least one key, the snapshot
equals the store. Every method keeps it. So, once the store is non-empty,
every later change is saved (source lines 18-22).

The store's keys are meant to be `YYYY-MM-DD` day keys, but the component
never checks them. `Calendar.DayKeyed` states that property. It is kept
apart from `Valid()`, so that the handlers need no precondition the code
does not have. Instead `AddTask` keeps it exactly when the day is a day key,
`RemoveTask` always keeps it, and `RenderedKeysWellFormed` shows that the
rendered cells only hand day keys to the handlers.

## Left out

- React rendering, styled-components and the JSX layout (lines 68-149) are
  left out. The render map is modelled as a function from the store, the
  shown date and today's date to the list of cells.
- Local storage and `JSON.stringify`/`JSON.parse` (lines 12-14, 20) are
  replaced by the `saved: Option<Store>` field and the constructor's
  `stored` parameter.
  - The code does not catch a `JSON.parse` failure. It also adopts a
    stored `null` as the store. Neither path is modelled: the stored value
    is taken to be a well-formed store. No "discard malformed data" path is
    modelled either, because the code has none.
- `new Date()` (lines 9 and 92) reads the clock. It is the `today`
  parameter of the constructor and of the render map. Time of day is not
  modelled, and neither is the time the `Date` copy in `handleSwitchDate`
  carries along.
- DayKeys.DayKey: the key is formed from the local date. `toISOString()`
  (line 91) formats the UTC date, so east of UTC the real key can be the
  previous day's. Time zones are not modelled.
- MonthGrid.DayKeysDistinct holds for the local-date key only. With the UTC
  key a month can repeat a key. In Europe/London, local midnight of
  2025-03-30 and of 2025-03-31 are both on 2025-03-30 in UTC, because
  summer time starts between them. So March 2025 renders "2025-03-30"
  twice and never "2025-03-31".
- MonthGrid.RenderedKeysDistinct holds for the local-date key only, for the
  same reason. In such a month the React keys on line 96 collide, and two
  cells read and write the same store entry.
- MonthGrid.DerivedMonth: its distinct-keys clause holds for the
  local-date key only, as above.
- Gregorian.MakeDate and Gregorian.NewDate do not bound the date. An
  ECMAScript time value is limited to ±8.64e15 ms, about years −271821 to
  275760. Past that, `setMonth` and the constructor give an Invalid Date,
  and the grid of an Invalid Date is empty. Dates here are unbounded, so
  navigation never leaves the calendar.
- DayKeys.YearText formats any year, including ones with seven or more
  digits, which no real `Date` reaches.
- The `isToday` test (line 92) compares `toDateString()` strings. It is
  modelled as equality of the two local date records, which says the same
  thing.
- TaskStore.RemoveTask and CalendarView.RemoveTask require the day's key to
  be present. Line 58 reads `updatedTasks[day].filter` without a guard, so
  on an absent key the code throws a TypeError. That throwing path is not
  modelled; the interface only removes tasks that a day cell lists.
- `toLocaleString` month names (line 63) are not modelled: they depend on
  the locale and the library.
- The order in which React runs effects and re-renders is not modelled. A
  handler and the save effect that follows it form one method.
- `src/components/Calendar/DayCell.tsx` is not part of this model. It holds
  the hover buttons, the random colours, the `prompt` dialog and the
  weekend shading, which only forward text to the two handlers.
- The week view and week navigation are not part of the component's code
  and are not modelled.

/** The Calendar component's state and handlers: the task store, the date
    whose month is on display, and the snapshot kept in local storage. The
    month buttons step the displayed date with `setMonth`; the task
    handlers replace the store through the updaters of `TaskStore`; and an
    effect writes the store to the snapshot after every change that leaves
    it with at least one key. */
module Calendar {
  import opened Wrappers
  import opened Gregorian
  import DayKeys
  import TaskStore

  /** The two month buttons: 'next' and 'prev'. */
  datatype Direction = Next | Prev

  /** The month the button aims at: the one after or before month `m` of
      year `y`, with the year carry. */
  function TargetMonth(y: int, m: int, dir: Direction): (r: (int, int))
    requires 0 <= m < 12
    ensures 0 <= r.1 < 12
    ensures r.0 * 12 + r.1 == y * 12 + m + (if dir == Next then 1 else -1)
  {
    if dir == Next then MonthAfter(y, m) else MonthBefore(y, m)
  }

  /** Day `d` of month `m` of year `y` when the month has that day;
      otherwise the day lands `d - DaysInMonth(y, m)` days into the
      following month. */
  function DayOrOverflow(y: int, m: int, d: int): Date
    requires 0 <= m < 12
  {
    if d <= DaysInMonth(y, m) then Date(y, m, d)
    else
      var (ny, nm) := MonthAfter(y, m);
      Date(ny, nm, d - DaysInMonth(y, m))
  }

  /** handleSwitchDate's new date: a copy of `cur` whose month is set one
      up or down with setMonth, which keeps the day of the month. The
      result is that day of the target month, or, when the target month is
      shorter, the corresponding day of the month after it. */
  function SwitchedDate(cur: Date, dir: Direction): (r: Date)
    requires Valid(cur)
    ensures Valid(r)
    ensures var (ty, tm) := TargetMonth(cur.year, cur.month, dir);
            r == DayOrOverflow(ty, tm, cur.day)
  {
    var newMonth := cur.month + (if dir == Next then 1 else -1);
    SetMonthOverflow(cur.year, cur.month, cur.day, dir);
    MakeDate(cur.year, newMonth, cur.day)
  }

  /** MakeDay carries the month `m ± 1` into the year exactly as the target month does. */
  lemma MonthCarry(y: int, m: int, dir: Direction)
    requires 0 <= m < 12
    ensures var newMonth := m + (if dir == Next then 1 else -1);
            (y + newMonth / 12, newMonth % 12) == TargetMonth(y, m, dir)
  {
    if dir == Next {
      MonthAfterCarry(y, m);
    } else {
      MonthBeforeCarry(y, m);
    }
  }

  /** A day of the month, placed into a month of at least 28 days, is a
      valid date as many days after that month's first as the day says. */
  lemma DayOrOverflowNumber(y: int, m: int, d: int)
    requires 0 <= m < 12 && 1 <= d <= 31
    ensures Valid(DayOrOverflow(y, m, d))
    ensures DayNumber(DayOrOverflow(y, m, d)) == DayNumber(Date(y, m, 1)) + d - 1
  {
    if d > DaysInMonth(y, m) {
      MonthLength(y, m);
    }
  }

  /** MakeDay of the month `m ± 1` counts from the first of the target month. */
  lemma MakeDayOfTarget(y: int, m: int, d: int, dir: Direction)
    requires 0 <= m < 12
    ensures var (ty, tm) := TargetMonth(y, m, dir);
            MakeDay(y, m + (if dir == Next then 1 else -1), d) == DayNumber(Date(ty, tm, 1)) + d - 1
  {
    MonthCarry(y, m, dir);
  }

  /** setMonth with the day kept gives the day of the target month, or its overflow. */
  lemma SetMonthOverflow(y: int, m: int, d: int, dir: Direction)
    requires 0 <= m < 12 && 1 <= d <= 31
    ensures var (ty, tm) := TargetMonth(y, m, dir);
            MakeDate(y, m + (if dir == Next then 1 else -1), d) == DayOrOverflow(ty, tm, d)
  {
    var newMonth := m + (if dir == Next then 1 else -1);
    var (ty, tm) := TargetMonth(y, m, dir);
    var r := DayOrOverflow(ty, tm, d);
    MakeDayOfTarget(y, m, d, dir);
    DayOrOverflowNumber(ty, tm, d);
    MakeDateUnique(y, newMonth, d, r);
  }

  /** A day that the target month has is kept as it is. */
  lemma SwitchKeepsDay(cur: Date, dir: Direction)
    requires Valid(cur)
    requires cur.day <= DaysInMonth(TargetMonth(cur.year, cur.month, dir).0, TargetMonth(cur.year, cur.month, dir).1)
    ensures var (ty, tm) := TargetMonth(cur.year, cur.month, dir);
            SwitchedDate(cur, dir) == Date(ty, tm, cur.day)
  {
  }

  /** Next and then Prev return to the starting date whenever the day fits
      in the month after it, as the 1st to the 28th always do. */
  lemma NextThenPrev(cur: Date)
    requires Valid(cur)
    requires cur.day <= DaysInMonth(MonthAfter(cur.year, cur.month).0, MonthAfter(cur.year, cur.month).1)
    ensures SwitchedDate(SwitchedDate(cur, Next), Prev) == cur
  {
    var next := SwitchedDate(cur, Next);
    assert next == Date(MonthAfter(cur.year, cur.month).0, MonthAfter(cur.year, cur.month).1, cur.day);
    assert TargetMonth(next.year, next.month, Prev) == (cur.year, cur.month);
  }

  /** Prev and then Next return to the starting date whenever the day fits
      in the month before it. */
  lemma PrevThenNext(cur: Date)
    requires Valid(cur)
    requires cur.day <= DaysInMonth(MonthBefore(cur.year, cur.month).0, MonthBefore(cur.year, cur.month).1)
    ensures SwitchedDate(SwitchedDate(cur, Prev), Next) == cur
  {
    var prev := SwitchedDate(cur, Prev);
    assert prev == Date(MonthBefore(cur.year, cur.month).0, MonthBefore(cur.year, cur.month).1, cur.day);
    assert TargetMonth(prev.year, prev.month, Next) == (cur.year, cur.month);
  }

  /** From 31 January 2024, Next shows March (the 2nd) and February is
      skipped; Prev from there gives 2 February, not the date started from. */
  lemma NextFromJanuary31()
    ensures SwitchedDate(Date(2024, 0, 31), Next) == Date(2024, 2, 2)
    ensures SwitchedDate(Date(2024, 2, 2), Prev) == Date(2024, 1, 2)
    ensures SwitchedDate(SwitchedDate(Date(2024, 0, 31), Next), Prev) != Date(2024, 0, 31)
  {
    assert IsLeapYear(2024);
    var next := SwitchedDate(Date(2024, 0, 31), Next);
    assert next == Date(2024, 2, 2);
  }

  /** Every key of the store is a well-formed day key. The component does
      not check this; it holds because the handlers are only reached with
      the key of a rendered day. */
  predicate DayKeyed(store: TaskStore.Store) {
    forall k :: k in store ==> DayKeys.IsDayKey(k)
  }

  /** Adding keeps the store day-keyed exactly when the day is a day key. */
  lemma AddTaskDayKeyed(store: TaskStore.Store, day: string, task: string)
    ensures DayKeyed(TaskStore.AddTask(store, day, task)) <==> DayKeyed(store) && DayKeys.IsDayKey(day)
  {
    var r := TaskStore.AddTask(store, day, task);
    assert day in r;
    if DayKeyed(r) {
      forall k | k in store
        ensures DayKeys.IsDayKey(k)
      {
        assert k in r;
      }
    }
  }

  /** Removing never adds or drops a key, so it keeps the store day-keyed. */
  lemma RemoveTaskDayKeyed(store: TaskStore.Store, day: string, task: string)
    requires day in store
    ensures DayKeyed(TaskStore.RemoveTask(store, day, task)) <==> DayKeyed(store)
  {
  }

  /** The component's state. `tasks` and `current` are its two useState
      values (the task store and the date whose month is shown); `saved`
      is the snapshot under the 'tasks' key of local storage, None while
      nothing has been stored. */
  class CalendarView {
    var tasks: TaskStore.Store
    var current: Date
    var saved: Option<TaskStore.Store>

    /** The shown date is a real date, and a store with at least one key
        has been written to the snapshot as it is. */
    ghost predicate Valid()
      reads this
    {
      Gregorian.Valid(current) && (|tasks| > 0 ==> saved == Some(tasks))
    }

    /** Mounting: the store starts empty and the date at `today`, the clock
        reading; the load effect then adopts the stored snapshot when there
        is one, and the save effect writes it back unchanged. */
    constructor(today: Date, stored: Option<TaskStore.Store>)
      requires Gregorian.Valid(today)
      ensures Valid()
      ensures current == today
      ensures tasks == (if stored.Some? then stored.value else map[])
      ensures saved == stored
    {
      tasks := map[];
      current := today;
      saved := stored;
      if stored.Some? {
        tasks := stored.value;
      }
      new;
      SaveTasks();
    }

    /** The save effect, run after each change of the store: it overwrites
        the snapshot with the whole store when the store has at least one
        key, and leaves it alone otherwise. */
    method SaveTasks()
      modifies this`saved
      ensures saved == (if |tasks| > 0 then Some(tasks) else old(saved))
    {
      if |tasks| > 0 {
        saved := Some(tasks);
      }
    }

    /** handleAddTask: `task` is appended to the day's list and the store is saved. */
    method AddTask(day: string, task: string)
      requires Valid()
      modifies this
      ensures Valid()
      ensures tasks == TaskStore.AddTask(old(tasks), day, task)
      ensures saved == Some(tasks)
      ensures current == old(current)
      ensures DayKeyed(tasks) <==> old(DayKeyed(tasks)) && DayKeys.IsDayKey(day)
    {
      tasks := TaskStore.AddTask(tasks, day, task);
      TaskStore.UpdatesKeepKeys(old(tasks), day, task);
      AddTaskDayKeyed(old(tasks), day, task);
      SaveTasks();
    }

    /** handleRemoveTask: every entry equal to `task` leaves the day's list,
        the key stays, and the store is saved. */
    method RemoveTask(day: string, task: string)
      requires Valid()
      requires day in tasks
      modifies this
      ensures Valid()
      ensures tasks == TaskStore.RemoveTask(old(tasks), day, task)
      ensures saved == Some(tasks)
      ensures current == old(current)
      ensures DayKeyed(tasks) == old(DayKeyed(tasks))
    {
      tasks := TaskStore.RemoveTask(tasks, day, task);
      TaskStore.UpdatesKeepKeys(old(tasks), day, task);
      RemoveTaskDayKeyed(old(tasks), day, task);
      SaveTasks();
    }

    /** handleSwitchDate: the shown date moves one month with setMonth; the
        store and the snapshot are untouched. */
    method SwitchDate(dir: Direction)
      requires Valid()
      modifies this`current
      ensures Valid()
      ensures current == SwitchedDate(old(current), dir)
      ensures tasks == old(tasks) && saved == old(saved)
    {
      current := SwitchedDate(current, dir);
    }
  }
}

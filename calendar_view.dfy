/** The calendar page: a month laid out as whole Sunday-to-Saturday weeks,
    the tasks of the daily planner shown on their days, and status changes
    and deletions made from the calendar, which are written straight back
    to the stored task list. */
module CalendarView {
  import opened Text
  import opened Seqs
  import opened Dates
  import opened DailyPlanner

  /** The first day of the grid: the Sunday on or before the 1st of the month. */
  function GridStart(year: int, month: int): (r: Date)
    requires 1 <= month <= 12
    ensures Weekday(r) == 0
    ensures DayNumber(r) == DayNumber(Ymd(year, month, 1)) - Weekday(Ymd(year, month, 1))
  {
    SundayOnOrBefore(Ymd(year, month, 1), AddDays(Ymd(year, month, 1), 0 - Weekday(Ymd(year, month, 1))));
    AddDays(Ymd(year, month, 1), 0 - Weekday(Ymd(year, month, 1)))
  }

  /** The last day of the grid: the Saturday on or after the month's last day. */
  function GridEnd(year: int, month: int): (r: Date)
    requires 1 <= month <= 12
    ensures Weekday(r) == 6
    ensures DayNumber(r) == DayNumber(Ymd(year, month, DaysInMonth(year, month)))
                            + (6 - Weekday(Ymd(year, month, DaysInMonth(year, month))))
  {
    SaturdayOnOrAfter(Ymd(year, month, DaysInMonth(year, month)),
                      AddDays(Ymd(year, month, DaysInMonth(year, month)), 6 - Weekday(Ymd(year, month, DaysInMonth(year, month)))));
    AddDays(Ymd(year, month, DaysInMonth(year, month)), 6 - Weekday(Ymd(year, month, DaysInMonth(year, month))))
  }

  /** A day as many days before `d` as `d`'s weekday is a Sunday. */
  lemma SundayOnOrBefore(d: Date, r: Date)
    requires DayNumber(r) == DayNumber(d) + (0 - Weekday(d))
    ensures Weekday(r) == 0
  {
    BackToSunday(DayNumber(d), Weekday(d), DayNumber(r));
  }

  /** A day `6 - weekday` days after `d` is a Saturday. */
  lemma SaturdayOnOrAfter(d: Date, r: Date)
    requires DayNumber(r) == DayNumber(d) + (6 - Weekday(d))
    ensures Weekday(r) == 6
  {
    OnToSaturday(DayNumber(d), Weekday(d), DayNumber(r));
  }

  /** Day numbers count weekdays with day `x` on weekday `(x + 1) % 7`. */
  lemma BackToSunday(x: int, w: int, y: int)
    requires w == (x + 1) % 7 && y == x + (0 - w)
    ensures (y + 1) % 7 == 0
  {
  }

  lemma OnToSaturday(x: int, w: int, y: int)
    requires w == (x + 1) % 7 && y == x + (6 - w)
    ensures (y + 1) % 7 == 6
  {
  }

  /** The grid spans whole weeks: four to six of them. */
  lemma GridLength(year: int, month: int)
    requires 1 <= month <= 12
    ensures (DayNumber(GridEnd(year, month)) - DayNumber(GridStart(year, month)) + 1) % 7 == 0
    ensures 28 <= DayNumber(GridEnd(year, month)) - DayNumber(GridStart(year, month)) + 1 <= 42
  {
    var first: Date := Ymd(year, month, 1);
    var last: Date := Ymd(year, month, DaysInMonth(year, month));
    MonthSpan(year, month);
    GridSpan(DayNumber(first), DayNumber(last), DaysInMonth(year, month), Weekday(first), Weekday(last),
             DayNumber(GridStart(year, month)), DayNumber(GridEnd(year, month)));
  }

  /** The month lies within its grid. */
  lemma GridHoldsMonthDays(year: int, month: int)
    requires 1 <= month <= 12
    ensures DayNumber(GridStart(year, month)) <= DayNumber(Ymd(year, month, 1)) <= DayNumber(GridEnd(year, month))
    ensures DayNumber(GridStart(year, month)) <= DayNumber(Ymd(year, month, DaysInMonth(year, month)))
            <= DayNumber(GridEnd(year, month))
  {
    var first: Date := Ymd(year, month, 1);
    var last: Date := Ymd(year, month, DaysInMonth(year, month));
    MonthSpan(year, month);
    GridSpan(DayNumber(first), DayNumber(last), DaysInMonth(year, month), Weekday(first), Weekday(last),
             DayNumber(GridStart(year, month)), DayNumber(GridEnd(year, month)));
  }

  /** The last day of a month is its length, less one, after the first. */
  lemma MonthSpan(year: int, month: int)
    requires 1 <= month <= 12
    ensures DayNumber(Ymd(year, month, DaysInMonth(year, month))) == DayNumber(Ymd(year, month, 1)) + DaysInMonth(year, month) - 1
  {
  }

  /** Arithmetic of `GridLength`, over plain day numbers: `f` and `l` are
      the month's first and last day, `wf` and `wl` their weekdays. */
  lemma GridSpan(f: int, l: int, len: int, wf: int, wl: int, s: int, e: int)
    requires 28 <= len <= 31 && l == f + len - 1
    requires wf == (f + 1) % 7 && wl == (l + 1) % 7
    requires s == f - wf && e == l + (6 - wl)
    ensures (e - s + 1) % 7 == 0 && 28 <= e - s + 1 <= 42
    ensures s <= f <= e && s <= l <= e
  {
    assert (f + 1) - wf == 7 * ((f + 1) / 7);
    assert (l + 1) - wl == 7 * ((l + 1) / 7);
    assert e - s + 1 == 7 * ((l + 1) / 7) - 7 * ((f + 1) / 7) + 7;
  }

  /** `getDaysInMonth`: the days from the grid's first Sunday to its last
      Saturday, one after another. */
  method MonthGrid(current: Date) returns (days: seq<Date>)
    ensures |days| > 0 && days[0] == GridStart(current.year, current.month)
    ensures DayNumber(days[|days| - 1]) == DayNumber(GridEnd(current.year, current.month))
    ensures forall i :: 0 <= i < |days| ==> DayNumber(days[i]) == DayNumber(days[0]) + i
    ensures |days| % 7 == 0 && 28 <= |days| <= 42
    ensures Ymd(current.year, current.month, 1) in days
    ensures Ymd(current.year, current.month, DaysInMonth(current.year, current.month)) in days
  {
    var startDate := GridStart(current.year, current.month);
    var endDate := GridEnd(current.year, current.month);
    days := [];
    var day := startDate;
    while DayNumber(day) <= DayNumber(endDate)
      invariant DayNumber(day) == DayNumber(startDate) + |days|
      invariant DayNumber(day) <= DayNumber(endDate) + 1
      invariant forall i :: 0 <= i < |days| ==> DayNumber(days[i]) == DayNumber(startDate) + i
      decreases DayNumber(endDate) - DayNumber(day)
    {
      days := days + [day];
      day := Next(day);
    }
    GridDays(current.year, current.month, days);
    GridHoldsMonth(current.year, current.month, days);
  }

  /** The run of consecutive days from the grid's start to its end starts
      and ends there, in whole weeks. */
  lemma GridDays(year: int, month: int, days: seq<Date>)
    requires 1 <= month <= 12
    requires |days| == DayNumber(GridEnd(year, month)) - DayNumber(GridStart(year, month)) + 1
    requires forall i :: 0 <= i < |days| ==> DayNumber(days[i]) == DayNumber(GridStart(year, month)) + i
    ensures |days| > 0 && days[0] == GridStart(year, month)
    ensures days[|days| - 1] == GridEnd(year, month)
    ensures forall i :: 0 <= i < |days| ==> DayNumber(days[i]) == DayNumber(days[0]) + i
    ensures |days| % 7 == 0 && 28 <= |days| <= 42
  {
    GridLength(year, month);
    RunFacts(days, GridStart(year, month), GridEnd(year, month));
  }

  /** The run of consecutive days from the grid's start to its end holds
      the month's first and last day. */
  lemma GridHoldsMonth(year: int, month: int, days: seq<Date>)
    requires 1 <= month <= 12
    requires |days| == DayNumber(GridEnd(year, month)) - DayNumber(GridStart(year, month)) + 1
    requires forall i :: 0 <= i < |days| ==> DayNumber(days[i]) == DayNumber(GridStart(year, month)) + i
    ensures Ymd(year, month, 1) in days
    ensures Ymd(year, month, DaysInMonth(year, month)) in days
  {
    GridHoldsMonthDays(year, month);
    RunBetween(days, GridStart(year, month), GridEnd(year, month), Ymd(year, month, 1));
    RunBetween(days, GridStart(year, month), GridEnd(year, month), Ymd(year, month, DaysInMonth(year, month)));
  }

  /** A run of consecutive days from `a` to `b`, in whole weeks, starts on
      `a` and ends on `b`. */
  lemma RunFacts(days: seq<Date>, a: Date, b: Date)
    requires |days| == DayNumber(b) - DayNumber(a) + 1
    requires forall i :: 0 <= i < |days| ==> DayNumber(days[i]) == DayNumber(a) + i
    requires (DayNumber(b) - DayNumber(a) + 1) % 7 == 0
    requires 28 <= DayNumber(b) - DayNumber(a) + 1 <= 42
    ensures |days| > 0 && days[0] == a
    ensures days[|days| - 1] == b
    ensures forall i :: 0 <= i < |days| ==> DayNumber(days[i]) == DayNumber(days[0]) + i
    ensures |days| % 7 == 0 && 28 <= |days| <= 42
  {
    RunStarts(days, a, b);
    RunEnds(days, a, b);
  }

  /** A run of consecutive days from `a` to `b` starts on `a`. */
  lemma RunStarts(days: seq<Date>, a: Date, b: Date)
    requires |days| == DayNumber(b) - DayNumber(a) + 1
    requires forall i :: 0 <= i < |days| ==> DayNumber(days[i]) == DayNumber(a) + i
    requires DayNumber(a) <= DayNumber(b)
    ensures |days| > 0 && days[0] == a
  {
    RunAt(days, DayNumber(a), a, 0);
  }

  /** A run of consecutive days from `a` to `b` ends on `b`. */
  lemma RunEnds(days: seq<Date>, a: Date, b: Date)
    requires |days| == DayNumber(b) - DayNumber(a) + 1
    requires forall i :: 0 <= i < |days| ==> DayNumber(days[i]) == DayNumber(a) + i
    requires DayNumber(a) <= DayNumber(b)
    ensures |days| > 0 && days[|days| - 1] == b
  {
    RunAt(days, DayNumber(a), b, |days| - 1);
  }

  /** A run of consecutive days from `a` to `b` holds every day between them. */
  lemma RunBetween(days: seq<Date>, a: Date, b: Date, d: Date)
    requires |days| == DayNumber(b) - DayNumber(a) + 1
    requires forall i :: 0 <= i < |days| ==> DayNumber(days[i]) == DayNumber(a) + i
    requires DayNumber(a) <= DayNumber(d) <= DayNumber(b)
    ensures d in days
  {
    RunHolds(days, DayNumber(a), d);
  }

  /** In a run of consecutive days, the day at each offset is the one with
      that day number. */
  lemma RunHolds(days: seq<Date>, s: int, d: Date)
    requires forall i :: 0 <= i < |days| ==> DayNumber(days[i]) == s + i
    requires 0 <= DayNumber(d) - s < |days|
    ensures days[DayNumber(d) - s] == d && d in days
  {
    DayNumberOrder(days[DayNumber(d) - s], d);
  }

  /** The day at offset `k` of a run of consecutive days. */
  lemma RunAt(days: seq<Date>, s: int, d: Date, k: int)
    requires forall i :: 0 <= i < |days| ==> DayNumber(days[i]) == s + i
    requires 0 <= k < |days| && DayNumber(d) == s + k
    ensures days[k] == d
  {
    DayNumberOrder(days[k], d);
  }

  /** Whether a day is in the month on display. */
  predicate IsSameMonth(d: Date, current: Date)
  {
    d.month == current.month && d.year == current.year
  }

  /** A day is in the month on display exactly when it lies between the
      month's first and last day. */
  lemma SameMonthWithin(d: Date, current: Date)
    ensures IsSameMonth(d, current) <==>
      DayNumber(Ymd(current.year, current.month, 1)) <= DayNumber(d)
      <= DayNumber(Ymd(current.year, current.month, DaysInMonth(current.year, current.month)))
  {
    var first: Date := Ymd(current.year, current.month, 1);
    var last: Date := Ymd(current.year, current.month, DaysInMonth(current.year, current.month));
    DayNumberOrder(first, d);
    DayNumberOrder(d, last);
  }

  /** In the grid the days of the month are a block: those before it and
      after it belong to the neighbouring months. */
  lemma GridSameMonth(current: Date, days: seq<Date>, i: int)
    requires |days| > 0 && days[0] == GridStart(current.year, current.month)
    requires forall k :: 0 <= k < |days| ==> DayNumber(days[k]) == DayNumber(days[0]) + k
    requires 0 <= i < |days|
    ensures IsSameMonth(days[i], current) <==>
      Weekday(Ymd(current.year, current.month, 1)) <= i
      < Weekday(Ymd(current.year, current.month, 1)) + DaysInMonth(current.year, current.month)
  {
    SameMonthWithin(days[i], current);
    var first: Date := Ymd(current.year, current.month, 1);
    var last: Date := Ymd(current.year, current.month, DaysInMonth(current.year, current.month));
    MonthSpan(current.year, current.month);
    assert DayNumber(days[0]) == DayNumber(first) - Weekday(first);
  }

  /** `for (i = 0; i < days.length; i += 7) weeks.push(days.slice(i, i + 7))`. */
  method SliceWeeks<T>(days: seq<T>) returns (weeks: seq<seq<T>>)
    ensures Concat(weeks) == days
    ensures forall w :: 0 <= w < |weeks| ==> 0 < |weeks[w]| <= 7
    ensures |days| % 7 == 0 ==> |weeks| * 7 == |days| && forall w :: 0 <= w < |weeks| ==> |weeks[w]| == 7
  {
    weeks := [];
    var i := 0;
    while i < |days|
      invariant 0 <= i <= |days| || (i > |days| && |days| % 7 != 0)
      invariant i == 7 * |weeks|
      invariant Concat(weeks) == days[..if i <= |days| then i else |days|]
      invariant forall w :: 0 <= w < |weeks| ==> 0 < |weeks[w]| <= 7
      invariant |days| % 7 == 0 ==> forall w :: 0 <= w < |weeks| ==> |weeks[w]| == 7
      invariant |days| % 7 == 0 ==> i % 7 == 0 && i <= |days|
      decreases |days| - i
    {
      var end := if i + 7 <= |days| then i + 7 else |days|;
      ConcatSnoc(weeks, days[i..end]);
      assert days[..i] + days[i..end] == days[..end];
      weeks := weeks + [days[i..end]];
      i := i + 7;
    }
    assert days[..|days|] == days;
  }

  /** The tasks shown on a day: those whose date key is that day's. */
  function TasksForDate(tasks: seq<Task>, d: Date): (r: seq<Task>)
    ensures forall t :: t in r <==> t in tasks && TaskDateKey(t) == DateKey(d)
    ensures IsSubsequence(r, tasks)
    ensures forall t :: multiset(r)[t] == if TaskDateKey(t) == DateKey(d) then multiset(tasks)[t] else 0
  {
    FilterSpec(tasks, OnDay(DateKey(d)));
    Filter(tasks, OnDay(DateKey(d)))
  }

  function OnDay(key: string): Task -> bool
  {
    (t: Task) => TaskDateKey(t) == key
  }

  /** A task shows up on exactly one day of the calendar. */
  lemma TaskOnOneDay(tasks: seq<Task>, t: Task, a: Date, b: Date)
    requires t in TasksForDate(tasks, a) && t in TasksForDate(tasks, b)
    ensures a == b
  {
    DateKeyInjective(a, b);
  }

  /** What a day's cell shows. */
  datatype DayCell = DayCell(day: Date, sameMonth: bool, total: nat, active: nat, done: nat)

  function Cell(tasks: seq<Task>, current: Date, day: Date): (c: DayCell)
    ensures c.day == day && c.total == |TasksForDate(tasks, day)|
    ensures c.sameMonth <==> day.year == current.year && day.month == current.month
    ensures c.active + c.done <= c.total
  {
    var s := TaskStats(TasksForDate(tasks, day));
    DayCell(day, IsSameMonth(day, current), s.total, s.active, s.done)
  }

  /** The task list after a change made from the calendar, and the list
      written to storage. */
  datatype Saved = Saved(state: seq<Task>, stored: seq<Task>)

  /** A status change from the calendar: the list written back is the new
      list, in which only the tasks with the id have a new status. */
  function CalendarUpdateStatus(tasks: seq<Task>, id: nat, status: Status): (r: Saved)
    ensures r.stored == r.state
    ensures |r.state| == |tasks|
    ensures forall i :: 0 <= i < |tasks| ==>
      r.state[i].status == (if tasks[i].id == id then status else tasks[i].status)
      && r.state[i] == tasks[i].(status := r.state[i].status)
  {
    var updated := UpdateTaskStatus(tasks, id, status);
    Saved(updated, updated)
  }

  /** A deletion from the calendar: the list written back is the new list,
      which is the old one without the tasks with the id. */
  function CalendarDelete(tasks: seq<Task>, id: nat): (r: Saved)
    ensures r.stored == r.state
    ensures forall t :: t in r.state <==> t in tasks && t.id != id
    ensures IsSubsequence(r.state, tasks)
    ensures forall t :: multiset(r.state)[t] == if t.id != id then multiset(tasks)[t] else 0
  {
    var remaining := DeleteTask(tasks, id);
    Saved(remaining, remaining)
  }

  /** A status change moves no task to another day: every day keeps as many tasks. */
  lemma {:induction false} UpdateKeepsDays(tasks: seq<Task>, id: nat, status: Status, d: Date)
    ensures |TasksForDate(CalendarUpdateStatus(tasks, id, status).state, d)| == |TasksForDate(tasks, d)|
    decreases |tasks|
  {
    if tasks != [] {
      var updated := CalendarUpdateStatus(tasks, id, status).state;
      assert updated[1..] == CalendarUpdateStatus(tasks[1..], id, status).state;
      assert TaskDateKey(updated[0]) == TaskDateKey(tasks[0]);
      UpdateKeepsDays(tasks[1..], id, status, d);
    }
  }
}

/** The daily planner page: tasks on a day, each active, done or cancelled,
    shown for the current date and filtered by status, with counts per
    status. The calendar page reads and changes the same task list. */
module DailyPlanner {
  import opened Text
  import opened Seqs
  import opened Dates

  /** The three statuses the page sets, and any other text found in stored data. */
  datatype Status = Active | Done | Cancelled | Unknown(text: string)

  /** A task; `id` comes from the clock and `createdAt` is an ISO timestamp
      text, both taken as parameters. An empty `date` stands for a missing
      one, which is falsy like `undefined`. */
  datatype Task = Task(id: nat, title: string, description: string, category: string,
                       status: Status, createdAt: string, date: string)

  /** The day a task belongs to: its own date, or else the date part of its
      creation timestamp. */
  function TaskDateKey(t: Task): (key: string)
    ensures t.date != "" ==> key == t.date
    ensures t.date == "" ==> 'T' !in key && StartsWith(t.createdAt, key)
  {
    if t.date != "" then t.date
    else
      var parts := Split(t.createdAt, 'T');
      SplitFirstIsPrefix(t.createdAt, 'T');
      SplitSpec(t.createdAt, 'T');
      parts[0]
  }

  /** The part before the first separator starts the text. */
  lemma SplitFirstIsPrefix(s: string, c: char)
    ensures StartsWith(s, Split(s, c)[0])
  {
  }

  /** Adding a task: nothing happens for a blank title; otherwise one active
      task stamped with the current date's key is appended. */
  function AddTask(tasks: seq<Task>, title: string, description: string, category: string,
                   current: Date, id: nat, createdAt: string): (r: seq<Task>)
    ensures IsBlank(title) ==> r == tasks
    ensures !IsBlank(title) ==>
      |r| == |tasks| + 1 && r[..|tasks|] == tasks
      && r[|tasks|] == Task(id, title, description, category, Active, createdAt, DateKey(current))
      && TaskDateKey(r[|tasks|]) == DateKey(current)
  {
    if IsBlank(title) then tasks
    else
      DateKeyNotEmpty(current);
      tasks + [Task(id, title, description, category, Active, createdAt, DateKey(current))]
  }

  lemma DateKeyNotEmpty(d: Date)
    ensures DateKey(d) != ""
  {
    YearTextRoundTrip(d.year);
  }

  /** Every task with the id takes the new status; nothing else changes. */
  function UpdateTaskStatus(tasks: seq<Task>, id: nat, status: Status): (r: seq<Task>)
    ensures |r| == |tasks|
    ensures forall i :: 0 <= i < |r| ==>
      (tasks[i].id == id ==> r[i] == tasks[i].(status := status))
      && (tasks[i].id != id ==> r[i] == tasks[i])
  {
    seq(|tasks|, i requires 0 <= i < |tasks| => if tasks[i].id == id then tasks[i].(status := status) else tasks[i])
  }

  /** The last status set is the one that stays. */
  lemma UpdateLastWins(tasks: seq<Task>, id: nat, first: Status, second: Status)
    ensures UpdateTaskStatus(UpdateTaskStatus(tasks, id, first), id, second) == UpdateTaskStatus(tasks, id, second)
  {
  }

  /** Deleting removes exactly the tasks with the id, keeping the order of the rest. */
  function DeleteTask(tasks: seq<Task>, id: nat): (r: seq<Task>)
    ensures forall t :: t in r <==> t in tasks && t.id != id
    ensures IsSubsequence(r, tasks)
    ensures forall t :: multiset(r)[t] == if t.id != id then multiset(tasks)[t] else 0
  {
    var keep := (t: Task) => t.id != id;
    FilterSpec(tasks, keep);
    Filter(tasks, keep)
  }

  /** A status change on a task that is then deleted leaves no trace. */
  lemma {:induction false} DeleteAfterUpdate(tasks: seq<Task>, id: nat, status: Status)
    ensures DeleteTask(UpdateTaskStatus(tasks, id, status), id) == DeleteTask(tasks, id)
    decreases |tasks|
  {
    if tasks != [] {
      var updated := UpdateTaskStatus(tasks, id, status);
      assert updated[1..] == UpdateTaskStatus(tasks[1..], id, status);
      DeleteAfterUpdate(tasks[1..], id, status);
    }
  }

  /** Deleting twice is deleting once. */
  lemma DeleteIdempotent(tasks: seq<Task>, id: nat)
    ensures DeleteTask(DeleteTask(tasks, id), id) == DeleteTask(tasks, id)
  {
    var once := DeleteTask(tasks, id);
    FilterAll(once, (t: Task) => t.id != id);
  }

  /** The status filter above the list: `all`, or one status. */
  datatype StatusFilter = All | Only(status: Status)

  /** Whether a task is shown: it belongs to the current day and passes the status filter. */
  predicate Shown(t: Task, filter: StatusFilter, currentKey: string)
  {
    TaskDateKey(t) == currentKey && (filter.All? || t.status == filter.status)
  }

  function ShownOn(filter: StatusFilter, currentKey: string): Task -> bool
  {
    (t: Task) => Shown(t, filter, currentKey)
  }

  /** The tasks on the page: those of the current day that pass the status
      filter, in their stored order. */
  function FilteredTasks(tasks: seq<Task>, filter: StatusFilter, current: Date): (r: seq<Task>)
    ensures IsSubsequence(r, tasks)
    ensures forall t :: t in r ==> TaskDateKey(t) == DateKey(current)
    ensures filter.All? ==> forall t :: t in r <==> t in tasks && TaskDateKey(t) == DateKey(current)
    ensures filter.Only? ==>
      forall t :: t in r <==> t in tasks && TaskDateKey(t) == DateKey(current) && t.status == filter.status
    ensures forall t :: multiset(r)[t] == if Shown(t, filter, DateKey(current)) then multiset(tasks)[t] else 0
  {
    FilterSpec(tasks, ShownOn(filter, DateKey(current)));
    Filter(tasks, ShownOn(filter, DateKey(current)))
  }

  /** A task added on a day shows up last on that day's unfiltered list. */
  lemma AddedTaskShown(tasks: seq<Task>, title: string, description: string, category: string,
                       current: Date, id: nat, createdAt: string, r: seq<Task>)
    requires !IsBlank(title) && r == AddTask(tasks, title, description, category, current, id, createdAt)
    ensures |r| == |tasks| + 1
    ensures FilteredTasks(r, All, current) == FilteredTasks(tasks, All, current) + [r[|tasks|]]
  {
    var added := r[|tasks|];
    assert r == tasks + [added];
    var p := ShownOn(All, DateKey(current));
    assert p(added);
    assert Filter([added], p) == [added] by {
      assert [added][1..] == [];
    }
    FilterAppend(tasks, [added], p);
  }

  /** A task with the given status. */
  function HasStatus(status: Status): Task -> bool
  {
    (t: Task) => t.status == status
  }

  /** A task whose status is none of the three the page sets. */
  const UnknownStatus: Task -> bool := (t: Task) => t.status.Unknown?

  /** The counts above the list, over the tasks it shows. */
  datatype Stats = Stats(total: nat, active: nat, done: nat, cancelled: nat)

  function TaskStats(shown: seq<Task>): (s: Stats)
    ensures s.total == |shown|
    ensures s.active + s.done + s.cancelled <= s.total
    ensures (forall t :: t in shown ==> !t.status.Unknown?) ==> s.active + s.done + s.cancelled == s.total
  {
    StatusPartition(shown);
    assert (forall t :: t in shown ==> !t.status.Unknown?) ==> Filter(shown, UnknownStatus) == [] by {
      if forall t :: t in shown ==> !t.status.Unknown? {
        FilterNone(shown, UnknownStatus);
      }
    }
    Stats(|shown|, |Filter(shown, HasStatus(Active))|, |Filter(shown, HasStatus(Done))|,
          |Filter(shown, HasStatus(Cancelled))|)
  }

  /** Every task has exactly one status, so the four kinds of status count
      every task once. */
  lemma {:induction false} StatusPartition(s: seq<Task>)
    ensures |Filter(s, HasStatus(Active))| + |Filter(s, HasStatus(Done))| + |Filter(s, HasStatus(Cancelled))|
            + |Filter(s, UnknownStatus)| == |s|
    decreases |s|
  {
    if s != [] {
      StatusPartition(s[1..]);
    }
  }

  /** Filtered by one of the three statuses, every task on the page has that
      status, so the counts of the other two are 0. */
  lemma StatsUnderStatusFilter(tasks: seq<Task>, status: Status, current: Date)
    requires !status.Unknown?
    ensures var s := TaskStats(FilteredTasks(tasks, Only(status), current));
      s.total == (if status == Active then s.active else if status == Done then s.done else s.cancelled)
      && (status != Active ==> s.active == 0)
      && (status != Done ==> s.done == 0)
      && (status != Cancelled ==> s.cancelled == 0)
  {
    var shown := FilteredTasks(tasks, Only(status), current);
    FilterAll(shown, HasStatus(status));
    forall other | other != status && !other.Unknown?
      ensures Filter(shown, HasStatus(other)) == []
    {
      FilterNone(shown, HasStatus(other));
    }
  }

  /** Moving the current date by `days`, forwards or backwards. */
  function ChangeDate(current: Date, days: int): (r: Date)
    ensures DayNumber(r) == DayNumber(current) + days
    ensures days > 0 ==> Before(current, r)
    ensures days < 0 ==> Before(r, current)
    ensures AddDays(r, -days) == current
  {
    var r := AddDays(current, days);
    AddDaysInverse(current, days);
    DayNumberOrder(current, r);
    r
  }
}

/** The quick task list on the landing page: tasks added by title, ticked
    off, deleted, and the share of them that is done. */
module LandingPage {
  import opened Text
  import opened Seqs

  /** A quick task; `id` comes from the clock and `createdAt` is a timestamp
      text, both taken as parameters. */
  datatype QuickTask = QuickTask(id: nat, title: string, done: bool, createdAt: string)

  /** Adding a task: nothing happens for a blank title; otherwise one task,
      not done, is appended. */
  function AddTask(tasks: seq<QuickTask>, title: string, id: nat, createdAt: string): (r: seq<QuickTask>)
    ensures IsBlank(title) ==> r == tasks
    ensures !IsBlank(title) ==>
      |r| == |tasks| + 1 && r[..|tasks|] == tasks && r[|tasks|] == QuickTask(id, title, false, createdAt)
  {
    if IsBlank(title) then tasks else tasks + [QuickTask(id, title, false, createdAt)]
  }

  /** `done` flips on the tasks with the id and nothing else changes. */
  function ToggleTask(tasks: seq<QuickTask>, id: nat): (r: seq<QuickTask>)
    ensures |r| == |tasks|
    ensures forall i :: 0 <= i < |r| ==>
      r[i].done == (if tasks[i].id == id then !tasks[i].done else tasks[i].done)
      && r[i] == tasks[i].(done := r[i].done)
  {
    seq(|tasks|, i requires 0 <= i < |tasks| => if tasks[i].id == id then tasks[i].(done := !tasks[i].done) else tasks[i])
  }

  lemma ToggleTwice(tasks: seq<QuickTask>, id: nat)
    ensures ToggleTask(ToggleTask(tasks, id), id) == tasks
  {
  }

  /** Deleting removes exactly the tasks with the id, keeping the order of the rest. */
  function DeleteTask(tasks: seq<QuickTask>, id: nat): (r: seq<QuickTask>)
    ensures forall t :: t in r <==> t in tasks && t.id != id
    ensures IsSubsequence(r, tasks)
    ensures forall t :: multiset(r)[t] == if t.id != id then multiset(tasks)[t] else 0
  {
    var keep := (t: QuickTask) => t.id != id;
    FilterSpec(tasks, keep);
    Filter(tasks, keep)
  }

  const IsDone: QuickTask -> bool := (t: QuickTask) => t.done

  /** How many tasks are done: at most all of them, and all of them exactly
      when every task is done. */
  function CompletedCount(tasks: seq<QuickTask>): (c: nat)
    ensures c <= |tasks|
    ensures c == |tasks| <==> forall t :: t in tasks ==> t.done
  {
    FilterLength(tasks, IsDone);
    |Filter(tasks, IsDone)|
  }

  /** The share of done tasks in percent, 0 for an empty list. */
  function ProgressPercentage(tasks: seq<QuickTask>): (p: real)
    ensures tasks == [] ==> p == 0.0
    ensures 0.0 <= p <= 100.0
    ensures tasks != [] ==> (p == 100.0 <==> forall t :: t in tasks ==> t.done)
  {
    Percent(CompletedCount(tasks), |tasks|)
  }

  /** A new task is not done: the done count stays and the list grows by one. */
  lemma AddKeepsCompleted(tasks: seq<QuickTask>, title: string, id: nat, createdAt: string)
    requires !IsBlank(title)
    ensures CompletedCount(AddTask(tasks, title, id, createdAt)) == CompletedCount(tasks)
    ensures |AddTask(tasks, title, id, createdAt)| == |tasks| + 1
  {
    var added := QuickTask(id, title, false, createdAt);
    assert AddTask(tasks, title, id, createdAt) == tasks + [added];
    FilterAppend(tasks, [added], IsDone);
    assert [added][1..] == [];
  }

  /** Ticking off a task that is not done adds one to the done count. */
  lemma {:induction false} ToggleOpenTask(tasks: seq<QuickTask>, i: int)
    requires 0 <= i < |tasks| && !tasks[i].done
    requires forall j :: 0 <= j < |tasks| && j != i ==> tasks[j].id != tasks[i].id
    ensures CompletedCount(ToggleTask(tasks, tasks[i].id)) == CompletedCount(tasks) + 1
    decreases |tasks|
  {
    var id := tasks[i].id;
    var r := ToggleTask(tasks, id);
    assert r[1..] == ToggleTask(tasks[1..], id);
    if i == 0 {
      UntouchedCount(tasks[1..], id);
    } else {
      ToggleOpenTask(tasks[1..], i - 1);
    }
  }

  /** Toggling an id no task has changes nothing. */
  lemma UntouchedCount(tasks: seq<QuickTask>, id: nat)
    requires forall j :: 0 <= j < |tasks| ==> tasks[j].id != id
    ensures ToggleTask(tasks, id) == tasks
  {
  }
}

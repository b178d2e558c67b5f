/** The priority matrix page: tasks sorted into the four quadrants of
    urgency and importance, added and edited through a form, ticked off,
    dragged from one quadrant to another, and counted per quadrant. */
module MatrixView {
  import opened Base
  import opened Text
  import opened Seqs

  /** The four quadrant keys, and any other key found in stored data. */
  datatype Quadrant =
    | UrgentImportant | NotUrgentImportant | UrgentNotImportant | NotUrgentNotImportant
    | OtherQuadrant(key: string)

  /** The quadrant keys in the order the page lists them. */
  const Quadrants: seq<Quadrant> := [UrgentImportant, NotUrgentImportant, UrgentNotImportant, NotUrgentNotImportant]

  /** A task; `id` comes from the clock and `createdAt` is a timestamp text,
      both taken as parameters. */
  datatype MatrixTask = MatrixTask(id: nat, title: string, notes: string, quadrant: Quadrant,
                                   done: bool, createdAt: string)

  /** The fields of the add/edit form. */
  datatype TaskForm = TaskForm(title: string, notes: string, quadrant: Quadrant)

  /** Saving the form: nothing happens for a blank title. When a task is
      being edited, every task with its id takes the form's title, notes
      and quadrant and keeps the rest; otherwise one new task, not done, is
      appended in the chosen quadrant. */
  function AddTask(tasks: seq<MatrixTask>, form: TaskForm, editing: Option<MatrixTask>,
                   id: nat, createdAt: string): (r: seq<MatrixTask>)
    ensures IsBlank(form.title) ==> r == tasks
    ensures !IsBlank(form.title) && editing.Some? ==>
      |r| == |tasks|
      && forall i :: 0 <= i < |r| ==>
        r[i].id == tasks[i].id && r[i].done == tasks[i].done && r[i].createdAt == tasks[i].createdAt
        && (tasks[i].id == editing.value.id ==>
              r[i].title == form.title && r[i].notes == form.notes && r[i].quadrant == form.quadrant)
        && (tasks[i].id != editing.value.id ==> r[i] == tasks[i])
    ensures !IsBlank(form.title) && editing.None? ==>
      |r| == |tasks| + 1 && r[..|tasks|] == tasks
      && r[|tasks|] == MatrixTask(id, form.title, form.notes, form.quadrant, false, createdAt)
  {
    if IsBlank(form.title) then tasks
    else if editing.Some? then
      seq(|tasks|, i requires 0 <= i < |tasks| =>
        if tasks[i].id == editing.value.id
        then tasks[i].(title := form.title, notes := form.notes, quadrant := form.quadrant)
        else tasks[i])
    else tasks + [MatrixTask(id, form.title, form.notes, form.quadrant, false, createdAt)]
  }

  /** Deleting removes exactly the tasks with the id, keeping the order of the rest. */
  function DeleteTask(tasks: seq<MatrixTask>, id: nat): (r: seq<MatrixTask>)
    ensures forall t :: t in r <==> t in tasks && t.id != id
    ensures IsSubsequence(r, tasks)
    ensures forall t :: multiset(r)[t] == if t.id != id then multiset(tasks)[t] else 0
  {
    var keep := (t: MatrixTask) => t.id != id;
    FilterSpec(tasks, keep);
    Filter(tasks, keep)
  }

  /** The list gets shorter exactly when some task has the id. */
  lemma DeleteShortens(tasks: seq<MatrixTask>, id: nat)
    ensures |DeleteTask(tasks, id)| < |tasks| <==> exists t :: t in tasks && t.id == id
  {
    FilterLength(tasks, (t: MatrixTask) => t.id != id);
  }

  /** Ticking a task off or back on: `done` flips on the tasks with the id
      and nothing else changes. */
  function ToggleTaskDone(tasks: seq<MatrixTask>, id: nat): (r: seq<MatrixTask>)
    ensures |r| == |tasks|
    ensures forall i :: 0 <= i < |r| ==>
      r[i].done == (if tasks[i].id == id then !tasks[i].done else tasks[i].done)
      && r[i] == tasks[i].(done := r[i].done)
  {
    seq(|tasks|, i requires 0 <= i < |tasks| => if tasks[i].id == id then tasks[i].(done := !tasks[i].done) else tasks[i])
  }

  lemma ToggleTwice(tasks: seq<MatrixTask>, id: nat)
    ensures ToggleTaskDone(ToggleTaskDone(tasks, id), id) == tasks
  {
  }

  /** Dropping the dragged task on a quadrant: nothing happens when no task
      is dragged; otherwise the tasks with its id move to the quadrant and
      nothing else changes. */
  function HandleDrop(tasks: seq<MatrixTask>, dragged: Option<MatrixTask>, target: Quadrant): (r: seq<MatrixTask>)
    ensures dragged.None? ==> r == tasks
    ensures |r| == |tasks|
    ensures dragged.Some? ==> forall i :: 0 <= i < |r| ==>
      r[i].quadrant == (if tasks[i].id == dragged.value.id then target else tasks[i].quadrant)
      && r[i] == tasks[i].(quadrant := r[i].quadrant)
  {
    if dragged.None? then tasks
    else
      seq(|tasks|, i requires 0 <= i < |tasks| =>
        if tasks[i].id == dragged.value.id then tasks[i].(quadrant := target) else tasks[i])
  }

  /** The tasks of one quadrant, in their stored order. */
  function QuadrantTasks(tasks: seq<MatrixTask>, q: Quadrant): (r: seq<MatrixTask>)
    ensures forall t :: t in r <==> t in tasks && t.quadrant == q
    ensures IsSubsequence(r, tasks)
    ensures forall t :: multiset(r)[t] == if t.quadrant == q then multiset(tasks)[t] else 0
  {
    FilterSpec(tasks, InQuadrant(q));
    Filter(tasks, InQuadrant(q))
  }

  function InQuadrant(q: Quadrant): MatrixTask -> bool
  {
    (t: MatrixTask) => t.quadrant == q
  }

  const IsDone: MatrixTask -> bool := (t: MatrixTask) => t.done

  const InOtherQuadrant: MatrixTask -> bool := (t: MatrixTask) => t.quadrant.OtherQuadrant?

  /** `Object.keys(QUADRANTS).reduce(...)`: the count of each key, added to
      the accumulator one key after another. */
  function CountByQuadrant(keys: seq<Quadrant>, tasks: seq<MatrixTask>, acc: map<Quadrant, nat>): (r: map<Quadrant, nat>)
    ensures r.Keys == acc.Keys + set k | k in keys
    ensures forall k :: k in keys ==> r[k] == |QuadrantTasks(tasks, k)|
    ensures forall k :: k in acc && k !in keys ==> r[k] == acc[k]
    decreases |keys|
  {
    if keys == [] then acc
    else
      var rest := CountByQuadrant(keys[1..], tasks, acc[keys[0] := |QuadrantTasks(tasks, keys[0])|]);
      assert forall k :: k in keys <==> k == keys[0] || k in keys[1..];
      rest
  }

  /** `stats.byQuadrant`: one count per quadrant key. */
  function ByQuadrant(tasks: seq<MatrixTask>): (m: map<Quadrant, nat>)
    ensures m.Keys == set k | k in Quadrants
    ensures forall k :: k in Quadrants ==> m[k] == |QuadrantTasks(tasks, k)|
  {
    CountByQuadrant(Quadrants, tasks, map[])
  }

  /** When every task has one of the four keys, the quadrant counts add up
      to the total. */
  lemma QuadrantCountsSum(tasks: seq<MatrixTask>)
    requires forall t :: t in tasks ==> !t.quadrant.OtherQuadrant?
    ensures ByQuadrant(tasks)[UrgentImportant] + ByQuadrant(tasks)[NotUrgentImportant]
            + ByQuadrant(tasks)[UrgentNotImportant] + ByQuadrant(tasks)[NotUrgentNotImportant] == |tasks|
  {
    CountsAreFilters(tasks);
    QuadrantPartition(tasks);
    FilterNone(tasks, InOtherQuadrant);
  }

  /** Each of the four counts is the length of that quadrant's task list. */
  lemma CountsAreFilters(tasks: seq<MatrixTask>)
    ensures ByQuadrant(tasks)[UrgentImportant] == |Filter(tasks, InQuadrant(UrgentImportant))|
    ensures ByQuadrant(tasks)[NotUrgentImportant] == |Filter(tasks, InQuadrant(NotUrgentImportant))|
    ensures ByQuadrant(tasks)[UrgentNotImportant] == |Filter(tasks, InQuadrant(UrgentNotImportant))|
    ensures ByQuadrant(tasks)[NotUrgentNotImportant] == |Filter(tasks, InQuadrant(NotUrgentNotImportant))|
  {
    assert Quadrants[0] == UrgentImportant && Quadrants[1] == NotUrgentImportant;
    assert Quadrants[2] == UrgentNotImportant && Quadrants[3] == NotUrgentNotImportant;
  }

  /** The counts above the matrix. */
  datatype Stats = Stats(total: nat, done: nat, byQuadrant: map<Quadrant, nat>)

  function TaskStats(tasks: seq<MatrixTask>): (s: Stats)
    ensures s.total == |tasks| && s.done <= s.total
    ensures s.done == |tasks| <==> forall t :: t in tasks ==> t.done
    ensures s.byQuadrant == ByQuadrant(tasks)
  {
    FilterLength(tasks, IsDone);
    Stats(|tasks|, |Filter(tasks, IsDone)|, ByQuadrant(tasks))
  }

  /** Every task is in exactly one quadrant: the four counts and the tasks
      with an unknown key add up to all tasks. */
  lemma {:induction false} QuadrantPartition(s: seq<MatrixTask>)
    ensures |Filter(s, InQuadrant(UrgentImportant))| + |Filter(s, InQuadrant(NotUrgentImportant))|
            + |Filter(s, InQuadrant(UrgentNotImportant))| + |Filter(s, InQuadrant(NotUrgentNotImportant))|
            + |Filter(s, InOtherQuadrant)| == |s|
    decreases |s|
  {
    if s != [] {
      QuadrantPartition(s[1..]);
    }
  }

  /** A drop moves tasks between quadrants but keeps the total and the done count. */
  lemma {:induction false} DropKeepsCounts(tasks: seq<MatrixTask>, dragged: Option<MatrixTask>, target: Quadrant)
    ensures TaskStats(HandleDrop(tasks, dragged, target)).total == TaskStats(tasks).total
    ensures TaskStats(HandleDrop(tasks, dragged, target)).done == TaskStats(tasks).done
    decreases |tasks|
  {
    if tasks != [] && dragged.Some? {
      var moved := HandleDrop(tasks, dragged, target);
      assert moved[1..] == HandleDrop(tasks[1..], dragged, target);
      DropKeepsCounts(tasks[1..], dragged, target);
    }
  }

  /** A new task shows up last in its quadrant. */
  lemma AddedLastInQuadrant(tasks: seq<MatrixTask>, form: TaskForm, id: nat, createdAt: string, r: seq<MatrixTask>)
    requires !IsBlank(form.title) && r == AddTask(tasks, form, None, id, createdAt)
    ensures QuadrantTasks(r, form.quadrant)
            == QuadrantTasks(tasks, form.quadrant) + [MatrixTask(id, form.title, form.notes, form.quadrant, false, createdAt)]
  {
    var added := MatrixTask(id, form.title, form.notes, form.quadrant, false, createdAt);
    assert r == tasks + [added];
    assert Filter([added], InQuadrant(form.quadrant)) == [added] by {
      assert [added][1..] == [];
    }
    FilterAppend(tasks, [added], InQuadrant(form.quadrant));
  }
}

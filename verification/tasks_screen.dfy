/** The pure logic of the task list screen: the quadrant and progress
    filter chips, the list filter, the progress captions, and the checkbox
    that marks a task done. */
module TasksScreen {
  import opened Wrappers
  import opened Entities
  import opened TaskDao
  import TasksRepository

  /** The chips that are switched on. */
  datatype Selection = Selection(quadrants: set<int>, progress: set<int>)

  /** Every quadrant 0..4 and every progress value 0..2 selected. */
  const INITIAL_SELECTION: Selection := Selection({0, 1, 2, 3, 4}, {0, 1, 2})

  /** Tapping a chip: `if (s.contains(v)) s - v else s + v`. */
  function Toggle(s: set<int>, v: int): (r: set<int>)
    ensures v in r <==> v !in s
    ensures forall x :: x != v ==> (x in r <==> x in s)
  {
    if v in s then s - {v} else s + {v}
  }

  /** Tapping the same chip twice restores the selection. */
  lemma ToggleTwice(s: set<int>, v: int)
    ensures Toggle(Toggle(s, v), v) == s
  {
    assert forall x :: x in Toggle(Toggle(s, v), v) <==> x in s;
  }

  /** The filter's predicate: quadrant and progress both selected. */
  predicate Shown(sel: Selection, x: Task) {
    x.quadrant in sel.quadrants && x.progress in sel.progress
  }

  /** `uiState.filter { quadrantMatches(...) && progressMatches(...) }` */
  function Filter(tasks: seq<Task>, sel: Selection): (r: seq<Task>)
    ensures |r| <= |tasks|
    decreases |tasks|
  {
    if |tasks| == 0 then []
    else
      var n := |tasks| - 1;
      Filter(tasks[..n], sel) + (if Shown(sel, tasks[n]) then [tasks[n]] else [])
  }

  /** The filter keeps every copy of a shown task and drops every copy of a
      hidden one. */
  lemma {:induction false} FilterCounts(tasks: seq<Task>, sel: Selection, x: Task)
    ensures multiset(Filter(tasks, sel))[x] == if Shown(sel, x) then multiset(tasks)[x] else 0
    decreases |tasks|
  {
    if |tasks| > 0 {
      var n := |tasks| - 1;
      FilterCounts(tasks[..n], sel, x);
      assert tasks == tasks[..n] + [tasks[n]];
    }
  }

  /** The filter keeps the list's order: filtering a concatenation is the
      concatenation of the filtered parts. */
  lemma {:induction false} FilterKeepsOrder(a: seq<Task>, b: seq<Task>, sel: Selection)
    ensures Filter(a + b, sel) == Filter(a, sel) + Filter(b, sel)
    decreases |b|
  {
    if |b| > 0 {
      var n := |b| - 1;
      assert (a + b)[..|a| + n] == a + b[..n];
      assert (a + b)[|a| + n] == b[n];
      FilterKeepsOrder(a, b[..n], sel);
    } else {
      assert a + b == a;
    }
  }

  /** The filter returns the whole list exactly when every task is shown. */
  lemma {:induction false} FilterKeepsAll(tasks: seq<Task>, sel: Selection)
    ensures Filter(tasks, sel) == tasks <==> forall i :: 0 <= i < |tasks| ==> Shown(sel, tasks[i])
    decreases |tasks|
  {
    if |tasks| > 0 {
      var n := |tasks| - 1;
      var pre, x := tasks[..n], tasks[n];
      FilterKeepsAll(pre, sel);
      assert forall i :: 0 <= i < n ==> pre[i] == tasks[i];
      if !Shown(sel, x) {
        assert |Filter(tasks, sel)| <= |pre| < |tasks|;
      } else if Filter(tasks, sel) == tasks {
        assert Filter(pre, sel) == Filter(tasks, sel)[..n];
      }
    }
  }

  /** With the chips as the screen opens, the whole list is shown exactly
      when every task has quadrant 0..4 and progress 0..2. */
  lemma InitialSelectionShowsValid(tasks: seq<Task>)
    ensures Filter(tasks, INITIAL_SELECTION) == tasks <==>
      forall i :: 0 <= i < |tasks| ==> 0 <= tasks[i].quadrant <= 4 && 0 <= tasks[i].progress <= 2
  {
    FilterKeepsAll(tasks, INITIAL_SELECTION);
    forall i | 0 <= i < |tasks|
      ensures Shown(INITIAL_SELECTION, tasks[i]) <==> 0 <= tasks[i].quadrant <= 4 && 0 <= tasks[i].progress <= 2
    {
      InitiallyShown(tasks[i]);
    }
  }

  /** The initial chips select exactly quadrants 0..4 and progress 0..2. */
  lemma InitiallyShown(x: Task)
    ensures Shown(INITIAL_SELECTION, x) <==> 0 <= x.quadrant <= 4 && 0 <= x.progress <= 2
  {
  }

  /** `progressToStatus(progress)` */
  function ProgressToStatus(progress: int): string {
    if progress == 1 then "in progress" else if progress == 2 then "done" else "not yet"
  }

  /** `progressToText(progress)` */
  function ProgressToText(progress: int): string {
    if progress == 1 then "In progress" else if progress == 2 then "Done" else "Not yet"
  }

  /** The progress chips, as (caption, value) pairs. */
  const PROGRESS_CHIPS: seq<(string, int)> := [("not yet", 0), ("in progress", 1), ("done", 2)]

  /** Upper-cases an initial ASCII letter. */
  function Capitalize(s: string): string {
    if |s| > 0 && 'a' <= s[0] <= 'z' then [(s[0] as int - 32) as char] + s[1..] else s
  }

  /** A card's status is the caption of the chip that selects it (any value
      outside 0..2 reads "not yet"), and its tag is that caption capitalised. */
  lemma ProgressCaptions(progress: int)
    ensures 0 <= progress <= 2 ==> PROGRESS_CHIPS[progress] == (ProgressToStatus(progress), progress)
    ensures !(0 <= progress <= 2) ==> ProgressToStatus(progress) == PROGRESS_CHIPS[0].0
    ensures ProgressToText(progress) == Capitalize(ProgressToStatus(progress))
  {
    if progress == 1 {
      assert Capitalize("in progress") == "In progress";
    } else if progress == 2 {
      assert Capitalize("done") == "Done";
    } else {
      assert Capitalize("not yet") == "Not yet";
    }
  }

  /** The card checkbox: checked sets progress 2 (done), unchecked sets 1
      (in progress), every other field is passed back as shown. */
  function CheckboxEdit(t: TaskTable, task: Task, checked: bool, now: int): (r: TaskTable)
    requires WellKeyed(t)
    ensures WellKeyed(r) && r.Keys == t.Keys
  {
    TasksRepository.UpdateLocalTask(t, task.localId, task.title, task.detail, task.tag, task.quadrant,
                                    if checked then 2 else 1, task.dueTimeMillis, now)
  }

  /** Ticking the box of a task as stored changes only its progress, its
      update time and its queued action; the task reads "done" exactly when
      the box is ticked, and unticking a done task makes it "in progress",
      never "not yet". No other row changes. */
  lemma CheckboxSetsOnlyProgress(t: TaskTable, task: Task, checked: bool, now: int)
    requires WellKeyed(t) && task.localId in t && t[task.localId] == task
    ensures var r := CheckboxEdit(t, task, checked, now);
      && r[task.localId] == task.(progress := r[task.localId].progress, updatedTimeMillis := Some(now),
                                  pendingAction := r[task.localId].pendingAction)
      && (ProgressToStatus(r[task.localId].progress) == "done" <==> checked)
      && (!checked ==> ProgressToStatus(r[task.localId].progress) == "in progress")
      && From(r[task.localId].pendingAction) == TasksRepository.NextActionOnEdit(task.pendingAction)
      && forall k :: k in t && k != task.localId ==> r[k] == t[k]
  {
  }

  /** The checkbox on the database: the edit is a REPLACE of the task row, so
      the foreign key action fires and ticking a task unlinks its slots. */
  function CheckboxEditDb(db: TasksRepository.Db, task: Task, checked: bool, now: int): (r: TasksRepository.Db)
    requires WellKeyed(db.tasks)
    ensures r.tasks == CheckboxEdit(db.tasks, task, checked, now)
    ensures r.slots.Keys == db.slots.Keys
  {
    TasksRepository.UpdateLocalTaskDb(db, task.localId, task.title, task.detail, task.tag, task.quadrant,
                                      if checked then 2 else 1, task.dueTimeMillis, now)
  }

  /** Ticking or unticking a stored task leaves every slot that named it
      naming nothing, and every other slot as it was. */
  lemma CheckboxUnlinksSlots(db: TasksRepository.Db, task: Task, checked: bool, now: int)
    requires WellKeyed(db.tasks) && task.localId in db.tasks
    ensures var r := CheckboxEditDb(db, task, checked, now);
      && task.localId in r.tasks
      && (forall k :: k in db.slots && db.slots[k].localTaskId == Some(task.localId) ==> r.slots[k].localTaskId.None?)
      && (forall k :: k in db.slots && db.slots[k].localTaskId != Some(task.localId) ==> r.slots[k] == db.slots[k])
  {
    TasksRepository.EditUnlinksSlots(db, task.localId, task.title, task.detail, task.tag, task.quadrant,
                                     if checked then 2 else 1, task.dueTimeMillis, now);
  }
}

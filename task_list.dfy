/** The task list component: the in-browser task records and the pure
    transformations the list applies to them before handing the new list to
    its owner. */
module TaskList {
  import opened Common
  import opened Text

  /** A subtask as the browser holds it. */
  datatype UiSubtask = UiSubtask(id: int, title: string, completed: bool, timeSpent: int)

  /** A task as the browser holds it; the category is one of the strings
      "personal", "laboral", "otro". */
  datatype UiTask = UiTask(
    id: int,
    title: string,
    completed: bool,
    category: string,
    customCategory: string,
    subtasks: seq<UiSubtask>,
    timeSpent: int)

  /** What the list shows and which task's menu is open. */
  datatype Listing = Listing(tasks: seq<UiTask>, openMenuId: Option<int>)

  // ------------------------------------------------------------- search

  /** The case-insensitive search condition. */
  function TitleMatches(query: string): UiTask -> bool {
    (t: UiTask) => Contains(Lower(t.title), Lower(query))
  }

  /** `filteredTasks`: the tasks whose lower-cased title contains the
      lower-cased query, in list order. */
  function FilteredTasks(tasks: seq<UiTask>, query: string): (r: seq<UiTask>)
    ensures |r| <= |tasks|
  {
    Filter(tasks, TitleMatches(query))
  }

  /** The search keeps exactly the matching tasks, in their order (the
      filter of a concatenation is the concatenation of the filters), and an
      empty query keeps the whole list. */
  lemma FilteredTasksExact(tasks: seq<UiTask>, more: seq<UiTask>, query: string)
    ensures forall i :: 0 <= i < |FilteredTasks(tasks, query)| ==>
      FilteredTasks(tasks, query)[i] in tasks
      && Contains(Lower(FilteredTasks(tasks, query)[i].title), Lower(query))
    ensures forall i :: 0 <= i < |tasks| && Contains(Lower(tasks[i].title), Lower(query)) ==>
      tasks[i] in FilteredTasks(tasks, query)
    ensures query == "" ==> FilteredTasks(tasks, query) == tasks
    ensures FilteredTasks(tasks + more, query) == FilteredTasks(tasks, query) + FilteredTasks(more, query)
  {
    FilterConcat(tasks, more, TitleMatches(query));
    FilterMembers(tasks, TitleMatches(query));
    if query == "" {
      forall i | 0 <= i < |tasks| ensures TitleMatches(query)(tasks[i]) {
        assert OccursAt(Lower(tasks[i].title), Lower(query), 0);
      }
      FilterAll(tasks, TitleMatches(query));
    }
  }

  // ------------------------------------------------------------ toggles

  /** `toggleTaskExpanded`: the id leaves the expanded set when it is in it
      and joins it otherwise; no other id changes. */
  function ToggleTaskExpanded(expanded: set<int>, taskId: int): (r: set<int>)
    ensures taskId in r <==> taskId !in expanded
    ensures forall id :: id != taskId ==> (id in r <==> id in expanded)
  {
    if taskId in expanded then expanded - {taskId} else expanded + {taskId}
  }

  /** Expanding and collapsing again restores the set. */
  lemma ToggleTaskExpandedTwice(expanded: set<int>, taskId: int)
    ensures ToggleTaskExpanded(ToggleTaskExpanded(expanded, taskId), taskId) == expanded
  {
  }

  /** `toggleTaskComplete`: every task with the id has its completion
      flipped; every other task is kept as it was. */
  function ToggleTaskComplete(tasks: seq<UiTask>, taskId: int): (r: seq<UiTask>)
    ensures |r| == |tasks|
    ensures forall i :: 0 <= i < |tasks| && tasks[i].id == taskId ==>
      r[i] == tasks[i].(completed := !tasks[i].completed)
    ensures forall i :: 0 <= i < |tasks| && tasks[i].id != taskId ==> r[i] == tasks[i]
  {
    seq(|tasks|, i requires 0 <= i < |tasks| =>
      if tasks[i].id == taskId then tasks[i].(completed := !tasks[i].completed) else tasks[i])
  }

  /** Ticking a task's box twice restores the list. */
  lemma ToggleTaskCompleteTwice(tasks: seq<UiTask>, taskId: int)
    ensures ToggleTaskComplete(ToggleTaskComplete(tasks, taskId), taskId) == tasks
  {
  }

  /** The subtasks with the one whose id matches flipped. */
  function ToggleSubtask(subtasks: seq<UiSubtask>, subtaskId: int): (r: seq<UiSubtask>)
    ensures |r| == |subtasks|
    ensures forall j :: 0 <= j < |subtasks| && subtasks[j].id == subtaskId ==>
      r[j] == subtasks[j].(completed := !subtasks[j].completed)
    ensures forall j :: 0 <= j < |subtasks| && subtasks[j].id != subtaskId ==> r[j] == subtasks[j]
  {
    seq(|subtasks|, j requires 0 <= j < |subtasks| =>
      if subtasks[j].id == subtaskId then subtasks[j].(completed := !subtasks[j].completed) else subtasks[j])
  }

  /** JavaScript's `every(st => st.completed)`; true for no subtasks. */
  predicate AllCompleted(subtasks: seq<UiSubtask>) {
    forall j :: 0 <= j < |subtasks| ==> subtasks[j].completed
  }

  /** `toggleSubtaskComplete`: in every task with the id, the matching
      subtasks are flipped and the task counts as completed exactly when all
      its subtasks are; every other task is kept as it was. */
  function ToggleSubtaskComplete(tasks: seq<UiTask>, taskId: int, subtaskId: int): (r: seq<UiTask>)
    ensures |r| == |tasks|
    ensures forall i :: 0 <= i < |tasks| && tasks[i].id == taskId ==>
      && r[i].subtasks == ToggleSubtask(tasks[i].subtasks, subtaskId)
      && (r[i].completed <==> forall j :: 0 <= j < |r[i].subtasks| ==> r[i].subtasks[j].completed)
      && r[i] == tasks[i].(subtasks := r[i].subtasks, completed := r[i].completed)
    ensures forall i :: 0 <= i < |tasks| && tasks[i].id != taskId ==> r[i] == tasks[i]
  {
    seq(|tasks|, i requires 0 <= i < |tasks| =>
      if tasks[i].id == taskId then
        var updated := ToggleSubtask(tasks[i].subtasks, subtaskId);
        tasks[i].(subtasks := updated, completed := AllCompleted(updated))
      else tasks[i])
  }

  /** Flipping the same subtask twice restores the subtasks; the task's own
      flag then says whether they are all done, whatever it said before. */
  lemma ToggleSubtaskCompleteTwice(tasks: seq<UiTask>, taskId: int, subtaskId: int)
    ensures var twice := ToggleSubtaskComplete(ToggleSubtaskComplete(tasks, taskId, subtaskId), taskId, subtaskId);
      forall i :: 0 <= i < |tasks| && tasks[i].id == taskId ==>
        twice[i] == tasks[i].(completed := AllCompleted(tasks[i].subtasks))
  {
  }

  /** A task without subtasks that receives the toggle becomes completed:
      `every` holds vacuously on an empty list. */
  lemma ToggleWithoutSubtasksCompletes(tasks: seq<UiTask>, taskId: int, subtaskId: int, i: nat)
    requires i < |tasks| && tasks[i].id == taskId && tasks[i].subtasks == []
    ensures ToggleSubtaskComplete(tasks, taskId, subtaskId)[i].completed
  {
  }

  // ------------------------------------------------------------ display

  /** `formatTime` of the list: "Hh Mm" from one hour on, "Mm" below, with
      whole hours and the whole minutes left over. */
  function FormatTime(seconds: nat): (r: string)
    ensures seconds < 3600 ==> r == NatToString(seconds / 60) + "m"
    ensures seconds >= 3600 ==> exists h: nat, m: nat ::
      && r == NatToString(h) + "h " + NatToString(m) + "m"
      && h >= 1 && m < 60 && h * 60 + m == seconds / 60
  {
    var hours := seconds / 3600;
    var minutes := (seconds % 3600) / 60;
    if hours > 0 then
      var r := NatToString(hours) + "h " + NatToString(minutes) + "m";
      assert hours * 60 + minutes == seconds / 60;
      r
    else NatToString(minutes) + "m"
  }

  /** Completed subtasks of a task. */
  function CompletedSubtasks(t: UiTask): (n: nat)
    ensures n <= |t.subtasks|
  {
    Count(t.subtasks, (s: UiSubtask) => s.completed)
  }

  /** `getProgressPercentage`: with no subtasks, 100 or 0 by the task's own
      flag; otherwise the completed share of the subtasks, in percent. */
  function ProgressPercentage(t: UiTask): (p: real)
    ensures 0.0 <= p <= 100.0
    ensures t.subtasks == [] ==> p == if t.completed then 100.0 else 0.0
    ensures t.subtasks != [] ==> p * |t.subtasks| as real == CompletedSubtasks(t) as real * 100.0
  {
    if |t.subtasks| == 0 then (if t.completed then 100.0 else 0.0)
    else Percentage(CompletedSubtasks(t), |t.subtasks|)
  }

  /** A task with subtasks is at 100 percent exactly when all of them are
      completed. */
  lemma ProgressFullIffAllCompleted(t: UiTask)
    requires t.subtasks != []
    ensures ProgressPercentage(t) == 100.0 <==> AllCompleted(t.subtasks)
  {
    var p := (s: UiSubtask) => s.completed;
    if AllCompleted(t.subtasks) {
      FilterAll(t.subtasks, p);
    } else {
      var k :| 0 <= k < |t.subtasks| && !t.subtasks[k].completed;
      FilterShorter(t.subtasks, p, k);
    }
  }

  /** After a subtask toggle, the bar of the task shows 100 percent exactly
      when its box is ticked. */
  lemma ToggleSubtaskKeepsBarAndBoxInStep(tasks: seq<UiTask>, taskId: int, subtaskId: int, i: nat)
    requires i < |tasks| && tasks[i].id == taskId
    ensures var t := ToggleSubtaskComplete(tasks, taskId, subtaskId)[i];
      ProgressPercentage(t) == 100.0 <==> t.completed
  {
    var t := ToggleSubtaskComplete(tasks, taskId, subtaskId)[i];
    if t.subtasks != [] {
      ProgressFullIffAllCompleted(t);
    }
  }

  // ------------------------------------------------------------- edits

  /** `handleCategoryChange`: the tasks with the id take the new category,
      and lose their custom label unless the new category is "otro". */
  function ChangeCategory(tasks: seq<UiTask>, taskId: int, category: string): (r: seq<UiTask>)
    ensures |r| == |tasks|
    ensures forall i :: 0 <= i < |tasks| && tasks[i].id == taskId ==>
      && r[i].category == category
      && r[i].customCategory == (if category != "otro" then "" else tasks[i].customCategory)
      && r[i] == tasks[i].(category := r[i].category, customCategory := r[i].customCategory)
    ensures forall i :: 0 <= i < |tasks| && tasks[i].id != taskId ==> r[i] == tasks[i]
  {
    seq(|tasks|, i requires 0 <= i < |tasks| =>
      if tasks[i].id == taskId then
        tasks[i].(category := category,
                  customCategory := if category != "otro" then "" else tasks[i].customCategory)
      else tasks[i])
  }

  /** The last category change wins, except that moving through another
      category to "otro" has already lost the custom label. */
  lemma ChangeCategoryLastWins(tasks: seq<UiTask>, taskId: int, a: string, b: string)
    requires b != "otro" || a == "otro"
    ensures ChangeCategory(ChangeCategory(tasks, taskId, a), taskId, b) == ChangeCategory(tasks, taskId, b)
  {
  }

  /** The subtask `handleAddSubtask` creates; its id is the clock reading. */
  function NewUiSubtask(id: int): UiSubtask {
    UiSubtask(id, "Nueva subtarea", false, 0)
  }

  /** `handleAddSubtask`: every task with the id gains one fresh open
      subtask at the end; every other task is kept as it was. */
  function AddSubtask(tasks: seq<UiTask>, taskId: int, now: int): (r: seq<UiTask>)
    ensures |r| == |tasks|
    ensures forall i :: 0 <= i < |tasks| && tasks[i].id == taskId ==>
      r[i] == tasks[i].(subtasks := tasks[i].subtasks + [NewUiSubtask(now)])
    ensures forall i :: 0 <= i < |tasks| && tasks[i].id != taskId ==> r[i] == tasks[i]
  {
    seq(|tasks|, i requires 0 <= i < |tasks| =>
      if tasks[i].id == taskId then tasks[i].(subtasks := tasks[i].subtasks + [NewUiSubtask(now)])
      else tasks[i])
  }

  /** Adding a subtask keeps the completed count and adds one to the total,
      so the progress of a task that had subtasks can only drop. */
  lemma AddSubtaskProgress(tasks: seq<UiTask>, taskId: int, now: int, i: nat)
    requires i < |tasks| && tasks[i].id == taskId
    ensures var t := AddSubtask(tasks, taskId, now)[i];
      && CompletedSubtasks(t) == CompletedSubtasks(tasks[i])
      && |t.subtasks| == |tasks[i].subtasks| + 1
      && (tasks[i].subtasks != [] ==> ProgressPercentage(t) <= ProgressPercentage(tasks[i]))
  {
    var t := AddSubtask(tasks, taskId, now)[i];
    FilterAppend(tasks[i].subtasks, NewUiSubtask(now), (s: UiSubtask) => s.completed);
    assert t.subtasks == tasks[i].subtasks + [NewUiSubtask(now)];
    if tasks[i].subtasks != [] {
      PercentageOfLarger(CompletedSubtasks(tasks[i]), |tasks[i].subtasks|);
    }
  }

  /** The tasks without the id, in list order. */
  function WithoutTask(tasks: seq<UiTask>, taskId: int): (r: seq<UiTask>)
    ensures |r| <= |tasks|
  {
    Filter(tasks, (t: UiTask) => t.id != taskId)
  }

  /** Removal drops every task with the id and keeps every other one; doing
      it again changes nothing. */
  lemma WithoutTaskExact(tasks: seq<UiTask>, taskId: int)
    ensures forall i :: 0 <= i < |WithoutTask(tasks, taskId)| ==>
      WithoutTask(tasks, taskId)[i].id != taskId && WithoutTask(tasks, taskId)[i] in tasks
    ensures forall i :: 0 <= i < |tasks| && tasks[i].id != taskId ==> tasks[i] in WithoutTask(tasks, taskId)
    ensures WithoutTask(WithoutTask(tasks, taskId), taskId) == WithoutTask(tasks, taskId)
  {
    var p := (t: UiTask) => t.id != taskId;
    FilterMembers(tasks, p);
    FilterAll(Filter(tasks, p), p);
  }

  /** `handleArchiveTask`: the task leaves the list and the menu closes. */
  function ArchiveTask(listing: Listing, taskId: int): (r: Listing)
    ensures r.tasks == WithoutTask(listing.tasks, taskId) && r.openMenuId == None
  {
    Listing(WithoutTask(listing.tasks, taskId), None)
  }

  /** `handleDeleteTask`: only when the user confirms does the task leave
      the list and the menu close; otherwise nothing changes. */
  function DeleteTask(listing: Listing, taskId: int, confirmed: bool): (r: Listing)
    ensures confirmed ==> r == ArchiveTask(listing, taskId)
    ensures !confirmed ==> r == listing
  {
    if confirmed then Listing(WithoutTask(listing.tasks, taskId), None) else listing
  }
}

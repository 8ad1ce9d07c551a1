/** The statistics endpoint: per-task figures, per-category groups, the
    completed work-session count, total time and the distraction answers. */
module Statistics {
  import opened Common
  import opened Schemas
  import opened Store
  import TaskService
  import PomodoroService
  import DistractionService

  // ------------------------------------------------------------ per task

  /** The share of completed subtasks, in percent; 0 for a task without
      subtasks. */
  function CompletionPercentage(subtasks: seq<SubtaskRow>): (p: real)
    ensures 0.0 <= p <= 100.0
    ensures subtasks == [] ==> p == 0.0
  {
    if |subtasks| > 0 then Percentage(Count(subtasks, (s: SubtaskRow) => s.completed), |subtasks|)
    else 0.0
  }

  /** A task with subtasks is at 100 percent exactly when all of them are
      completed, and at 0 percent exactly when none is. */
  lemma CompletionExtremes(subtasks: seq<SubtaskRow>)
    requires subtasks != []
    ensures CompletionPercentage(subtasks) == 100.0 <==> forall i :: 0 <= i < |subtasks| ==> subtasks[i].completed
    ensures CompletionPercentage(subtasks) == 0.0 <==> forall i :: 0 <= i < |subtasks| ==> !subtasks[i].completed
  {
    var p := (s: SubtaskRow) => s.completed;
    FilterMembers(subtasks, p);
    if forall i :: 0 <= i < |subtasks| ==> subtasks[i].completed {
      FilterAll(subtasks, p);
    } else {
      var k :| 0 <= k < |subtasks| && !subtasks[k].completed;
      FilterShorter(subtasks, p, k);
    }
  }

  /** Completed pomodoros linked to the task, of any mode and any owner. */
  function CompletedPomodorosFor(rows: seq<PomodoroRow>, taskId: int): (n: nat)
    ensures n <= |rows|
  {
    Count(rows, (p: PomodoroRow) => p.taskId == Some(taskId) && p.completed)
  }

  /** The per-task figures. */
  function TaskStatsOf(rows: seq<PomodoroRow>, t: TaskResponse): (s: TaskStats)
    ensures s.taskId == t.task.id && s.taskTitle == t.task.title
    ensures s.totalTimeSpent == t.task.timeSpent
    ensures s.pomodorosCompleted == CompletedPomodorosFor(rows, t.task.id)
    ensures s.completionPercentage == CompletionPercentage(t.subtasks)
  {
    TaskStats(t.task.id, t.task.title, t.task.timeSpent,
              CompletedPomodorosFor(rows, t.task.id), CompletionPercentage(t.subtasks))
  }

  /** The per-task count and the total count disagree: a completed break
      linked to a task counts for the task but not in the total. */
  lemma PerTaskCountIncludesBreaks()
    ensures var brk := PomodoroRow(1, ShortBreak, None, Some(7), [], 300, true, None, Some(0), None);
      var t := Table(map[1 := brk], [1], 2);
      && CompletedPomodorosFor(t.Rows(), 7) == 1
      && PomodoroService.CompletedWorkSessions(t, None) == 0
  {
    var brk := PomodoroRow(1, ShortBreak, None, Some(7), [], 300, true, None, Some(0), None);
    var t := Table(map[1 := brk], [1], 2);
    assert t.Rows() == [brk];
    assert [brk][..0] == [];
  }

  // ------------------------------------------------------- per category

  /** The category a task is grouped under: its custom label when the task
      is in the "other" category and the label is nonempty, else the
      category's own value. Never empty. */
  function EffectiveCategory(t: TaskRow): (c: string)
    ensures c != ""
    ensures t.category == Otro && t.customCategory.Some? && t.customCategory.value != "" ==>
      c == t.customCategory.value
    ensures !(t.category == Otro && t.customCategory.Some? && t.customCategory.value != "") ==>
      c == CategoryValue(t.category) && ParseCategory(c) == Some(t.category)
  {
    if t.category == Otro && t.customCategory.Some? && t.customCategory.value != "" then t.customCategory.value
    else CategoryValue(t.category)
  }

  function CategoryOf(t: TaskResponse): string {
    EffectiveCategory(t.task)
  }

  function TimeOf(t: TaskResponse): int {
    t.task.timeSpent
  }

  /** The completed pomodoros each task contributes. */
  function PomodorosOf(rows: seq<PomodoroRow>): TaskResponse -> int {
    (t: TaskResponse) => CompletedPomodorosFor(rows, t.task.id)
  }

  /** The tasks grouped under category `k`. */
  function InCategory(k: string): TaskResponse -> bool {
    (t: TaskResponse) => CategoryOf(t) == k
  }

  /** One entry of the category dictionary. */
  datatype Acc = Acc(timeSpent: int, pomodoros: nat, tasks: nat)

  /** The category dictionary: its keys in insertion order, and its entries. */
  datatype Groups = Groups(keys: seq<string>, acc: map<string, Acc>)

  /** One task added to the dictionary: a new category is appended with a
      fresh entry, a known one has its entry increased in place. */
  function AddTask(g: Groups, cat: string, time: int, poms: nat): Groups {
    if cat in g.acc then
      var a := g.acc[cat];
      Groups(g.keys, g.acc[cat := Acc(a.timeSpent + time, a.pomodoros + poms, a.tasks + 1)])
    else Groups(g.keys + [cat], g.acc[cat := Acc(time, poms, 1)])
  }

  /** The dictionary after the tasks, in order. */
  function Grouped(rows: seq<PomodoroRow>, ts: seq<TaskResponse>): Groups {
    if ts == [] then Groups([], map[])
    else
      var t := ts[|ts| - 1];
      AddTask(Grouped(rows, ts[..|ts| - 1]), CategoryOf(t), t.task.timeSpent, CompletedPomodorosFor(rows, t.task.id))
  }

  /** The categories of the tasks, in task order. */
  function Categories(ts: seq<TaskResponse>): (r: seq<string>)
    ensures |r| == |ts| && forall i :: 0 <= i < |ts| ==> r[i] == CategoryOf(ts[i])
  {
    seq(|ts|, i requires 0 <= i < |ts| => CategoryOf(ts[i]))
  }

  /** The keys are distinct, are exactly the dictionary's keys, and are
      exactly the categories that occur among the tasks. */
  lemma {:induction false} GroupedKeys(rows: seq<PomodoroRow>, ts: seq<TaskResponse>)
    ensures var g := Grouped(rows, ts);
      && Distinct(g.keys)
      && (forall k :: k in g.acc <==> k in g.keys)
      && (forall k :: k in g.acc <==> k in Categories(ts))
  {
    if ts != [] {
      var init := ts[..|ts| - 1];
      GroupedKeys(rows, init);
      assert Categories(ts) == Categories(init) + [CategoryOf(ts[|ts| - 1])];
    }
  }

  /** Each entry holds exactly the figures of the tasks of its category: how
      many there are, the sum of their times and of their pomodoros. */
  lemma {:induction false} GroupedTotals(rows: seq<PomodoroRow>, ts: seq<TaskResponse>, k: string)
    requires k in Grouped(rows, ts).acc
    ensures var a := Grouped(rows, ts).acc[k];
      && a.tasks == Count(ts, InCategory(k))
      && a.timeSpent == SumOf(Filter(ts, InCategory(k)), TimeOf)
      && a.pomodoros == SumOf(Filter(ts, InCategory(k)), PomodorosOf(rows))
  {
    var init := ts[..|ts| - 1];
    var t := ts[|ts| - 1];
    var g := Grouped(rows, init);
    var poms := CompletedPomodorosFor(rows, t.task.id);
    assert Grouped(rows, ts) == AddTask(g, CategoryOf(t), t.task.timeSpent, poms);
    var f := Filter(init, InCategory(k));
    assert Filter(ts, InCategory(k)) == f + (if CategoryOf(t) == k then [t] else []);
    if k in g.acc {
      GroupedTotals(rows, init, k);
      if CategoryOf(t) == k {
        var a := g.acc[k];
        assert Grouped(rows, ts).acc[k] == Acc(a.timeSpent + t.task.timeSpent, a.pomodoros + poms, a.tasks + 1);
        SumOfAppend(f, t, TimeOf);
        SumOfAppend(f, t, PomodorosOf(rows));
        assert PomodorosOf(rows)(t) == poms;
      } else {
        assert f + [] == f;
      }
    } else {
      NoTaskBeforeItsKey(rows, init, k);
      SumOfAppend(f, t, TimeOf);
      SumOfAppend(f, t, PomodorosOf(rows));
    }
  }

  /** Before a category has a key, no task is in it. */
  lemma NoTaskBeforeItsKey(rows: seq<PomodoroRow>, ts: seq<TaskResponse>, k: string)
    requires k !in Grouped(rows, ts).acc
    ensures Filter(ts, InCategory(k)) == []
  {
    GroupedKeys(rows, ts);
    assert forall i :: 0 <= i < |ts| ==> !InCategory(k)(ts[i]) by {
      assert forall i :: 0 <= i < |ts| ==> Categories(ts)[i] == CategoryOf(ts[i]);
    }
    FilterMembers(ts, InCategory(k));
  }

  /** The keys come in order of first appearance among the tasks. */
  lemma {:induction false} GroupedOrder(rows: seq<PomodoroRow>, ts: seq<TaskResponse>)
    ensures forall i :: 0 <= i < |Grouped(rows, ts).keys| ==> Grouped(rows, ts).keys[i] in Categories(ts)
    ensures forall i, j :: 0 <= i < j < |Grouped(rows, ts).keys| ==>
      IndexOf(Categories(ts), Grouped(rows, ts).keys[i]) < IndexOf(Categories(ts), Grouped(rows, ts).keys[j])
  {
    if ts != [] {
      var init := ts[..|ts| - 1];
      var t := ts[|ts| - 1];
      var c := CategoryOf(t);
      var g := Grouped(rows, init);
      var after := Grouped(rows, ts).keys;
      assert Grouped(rows, ts) == AddTask(g, c, t.task.timeSpent, CompletedPomodorosFor(rows, t.task.id));
      assert Categories(ts) == Categories(init) + [c];
      GroupedKeys(rows, init);
      GroupedOrder(rows, init);
      if c in g.keys {
        assert after == g.keys;
        OrderKnown(Categories(init), c, g.keys);
      } else {
        assert after == g.keys + [c];
        OrderNew(Categories(init), c, g.keys);
      }
    }
  }

  /** A known category leaves the keys, which stay in order of first
      appearance. */
  lemma OrderKnown(cats: seq<string>, c: string, keys: seq<string>)
    requires forall k :: k in keys <==> k in cats
    requires forall i, j :: 0 <= i < j < |keys| ==> IndexOf(cats, keys[i]) < IndexOf(cats, keys[j])
    ensures forall i :: 0 <= i < |keys| ==> keys[i] in cats + [c]
    ensures forall i, j :: 0 <= i < j < |keys| ==> IndexOf(cats + [c], keys[i]) < IndexOf(cats + [c], keys[j])
  {
    IndexesKept(cats, c);
    forall i, j | 0 <= i < j < |keys| ensures IndexOf(cats + [c], keys[i]) < IndexOf(cats + [c], keys[j]) {
      assert keys[i] in cats && keys[j] in cats;
    }
  }

  /** A new category goes after every key, in order of first appearance. */
  lemma OrderNew(cats: seq<string>, c: string, keys: seq<string>)
    requires c !in cats
    requires forall k :: k in keys <==> k in cats
    requires forall i, j :: 0 <= i < j < |keys| ==> IndexOf(cats, keys[i]) < IndexOf(cats, keys[j])
    ensures forall i :: 0 <= i < |keys + [c]| ==> (keys + [c])[i] in cats + [c]
    ensures forall i, j :: 0 <= i < j < |keys + [c]| ==>
      IndexOf(cats + [c], (keys + [c])[i]) < IndexOf(cats + [c], (keys + [c])[j])
  {
    OrderKnown(cats, c, keys);
    IndexOfNew(cats, c);
    var after := keys + [c];
    forall i, j | 0 <= i < j < |after| ensures IndexOf(cats + [c], after[i]) < IndexOf(cats + [c], after[j]) {
      assert after[i] == keys[i] && keys[i] in cats;
      if j < |keys| {
        assert after[j] == keys[j];
      }
    }
  }

  /** Appending a category does not move the first appearance of the ones
      before it. */
  lemma IndexesKept(cats: seq<string>, c: string)
    ensures forall x :: x in cats ==> IndexOf(cats + [c], x) == IndexOf(cats, x)
  {
    forall x | x in cats ensures IndexOf(cats + [c], x) == IndexOf(cats, x) {
      IndexOfPrefix(cats, [c], x);
    }
  }

  /** A category that is new appears first at the end. */
  lemma IndexOfNew(cats: seq<string>, c: string)
    requires c !in cats
    ensures IndexOf(cats + [c], c) == |cats|
  {
    assert forall j :: 0 <= j < |cats| ==> (cats + [c])[j] != c;
  }

  /** The dictionary's items as the list of category figures. */
  function StatsList(g: Groups): (r: seq<CategoryStats>)
    requires forall k :: k in g.keys ==> k in g.acc
    ensures |r| == |g.keys|
    ensures forall i :: 0 <= i < |r| ==>
      r[i] == CategoryStats(g.keys[i], g.acc[g.keys[i]].timeSpent, g.acc[g.keys[i]].pomodoros, g.acc[g.keys[i]].tasks)
  {
    seq(|g.keys|, i requires 0 <= i < |g.keys| =>
      CategoryStats(g.keys[i], g.acc[g.keys[i]].timeSpent, g.acc[g.keys[i]].pomodoros, g.acc[g.keys[i]].tasks))
  }

  function GroupTime(c: CategoryStats): int { c.totalTimeSpent }
  function GroupPomodoros(c: CategoryStats): int { c.pomodorosCompleted }
  function GroupTasks(c: CategoryStats): int { c.tasksCount }

  /** Adding one task raises the three sums over the groups by its figures. */
  lemma StatsListAdd(g: Groups, cat: string, time: int, poms: nat)
    requires Distinct(g.keys) && forall k :: k in g.acc <==> k in g.keys
    ensures var after := AddTask(g, cat, time, poms);
      && (forall k :: k in after.keys ==> k in after.acc)
      && SumOf(StatsList(after), GroupTime) == SumOf(StatsList(g), GroupTime) + time
      && SumOf(StatsList(after), GroupPomodoros) == SumOf(StatsList(g), GroupPomodoros) + poms
      && SumOf(StatsList(after), GroupTasks) == SumOf(StatsList(g), GroupTasks) + 1
  {
    var after := AddTask(g, cat, time, poms);
    var before := StatsList(g);
    if cat in g.acc {
      var k := IndexOf(g.keys, cat);
      var a := g.acc[cat];
      var x := CategoryStats(cat, a.timeSpent + time, a.pomodoros + poms, a.tasks + 1);
      assert StatsList(after) == before[k := x];
      SumOfUpdate(before, k, x, GroupTime);
      SumOfUpdate(before, k, x, GroupPomodoros);
      SumOfUpdate(before, k, x, GroupTasks);
    } else {
      var x := CategoryStats(cat, time, poms, 1);
      assert StatsList(after) == before + [x];
      SumOfAppend(before, x, GroupTime);
      SumOfAppend(before, x, GroupPomodoros);
      SumOfAppend(before, x, GroupTasks);
    }
  }

  /** Over all groups, the task counts add up to the number of tasks, and
      the times and pomodoro counts add up to the tasks' totals. */
  lemma {:induction false} GroupedSums(rows: seq<PomodoroRow>, ts: seq<TaskResponse>)
    ensures forall k :: k in Grouped(rows, ts).keys ==> k in Grouped(rows, ts).acc
    ensures SumOf(StatsList(Grouped(rows, ts)), GroupTasks) == |ts|
    ensures SumOf(StatsList(Grouped(rows, ts)), GroupTime) == SumOf(ts, TimeOf)
    ensures SumOf(StatsList(Grouped(rows, ts)), GroupPomodoros) == SumOf(ts, PomodorosOf(rows))
  {
    GroupedKeys(rows, ts);
    if ts == [] {
      assert StatsList(Grouped(rows, ts)) == [];
    } else {
      var init := ts[..|ts| - 1];
      var t := ts[|ts| - 1];
      var g := Grouped(rows, init);
      var poms := CompletedPomodorosFor(rows, t.task.id);
      assert Grouped(rows, ts) == AddTask(g, CategoryOf(t), t.task.timeSpent, poms);
      GroupedSums(rows, init);
      GroupedKeys(rows, init);
      StatsListAdd(g, CategoryOf(t), t.task.timeSpent, poms);
      assert SumOf(ts, TimeOf) == SumOf(init, TimeOf) + t.task.timeSpent;
      assert SumOf(ts, PomodorosOf(rows)) == SumOf(init, PomodorosOf(rows)) + poms;
    }
  }

  // ------------------------------------------------------------ endpoint

  /** One task counted into the dictionary: a new category starts at zero,
      then its time, pomodoro count and task count are increased. */
  method CountTask(keys: seq<string>, acc: map<string, Acc>, category: string, time: int, poms: nat)
    returns (keys': seq<string>, acc': map<string, Acc>)
    ensures Groups(keys', acc') == AddTask(Groups(keys, acc), category, time, poms)
  {
    keys', acc' := keys, acc;
    if category !in acc' {
      acc' := acc'[category := Acc(0, 0, 0)];
      keys' := keys' + [category];
    }
    var a := acc'[category];
    acc' := acc'[category := a.(timeSpent := a.timeSpent + time)];
    a := acc'[category];
    acc' := acc'[category := a.(pomodoros := a.pomodoros + poms)];
    a := acc'[category];
    acc' := acc'[category := a.(tasks := a.tasks + 1)];
  }

  function HadDistractions(d: DistractionRow): bool { d.hadDistractions }
  function UsedPhone(d: DistractionRow): bool { d.usedPhone }

  /** The per-task loop: one entry per task, in the tasks' order. */
  method TaskFigures(rows: seq<PomodoroRow>, tasks: seq<TaskResponse>) returns (stats: seq<TaskStats>)
    ensures |stats| == |tasks|
    ensures forall i :: 0 <= i < |tasks| ==> stats[i] == TaskStatsOf(rows, tasks[i])
  {
    stats := [];
    for i := 0 to |tasks|
      invariant |stats| == i
      invariant forall j :: 0 <= j < i ==> stats[j] == TaskStatsOf(rows, tasks[j])
    {
      var task := tasks[i];
      var pomodorosCount := CompletedPomodorosFor(rows, task.task.id);
      var percentage := CompletionPercentage(task.subtasks);
      stats := stats + [TaskStats(task.task.id, task.task.title, task.task.timeSpent, pomodorosCount, percentage)];
    }
  }

  /** The category loop: the dictionary after every task. */
  method GroupByCategory(rows: seq<PomodoroRow>, tasks: seq<TaskResponse>)
    returns (keys: seq<string>, acc: map<string, Acc>)
    ensures Groups(keys, acc) == Grouped(rows, tasks)
  {
    keys, acc := [], map[];
    for i := 0 to |tasks|
      invariant Groups(keys, acc) == Grouped(rows, tasks[..i])
    {
      assert tasks[..i + 1][..i] == tasks[..i];
      var task := tasks[i];
      keys, acc := CountTask(keys, acc, EffectiveCategory(task.task), task.task.timeSpent,
                             CompletedPomodorosFor(rows, task.task.id));
    }
    assert tasks[..|tasks|] == tasks;
  }

  /** The dictionary's items, in key order, as category figures. */
  method CategoryFigures(keys: seq<string>, acc: map<string, Acc>) returns (list: seq<CategoryStats>)
    requires forall k :: k in keys ==> k in acc
    ensures list == StatsList(Groups(keys, acc))
  {
    list := [];
    for i := 0 to |keys|
      invariant list == StatsList(Groups(keys, acc))[..i]
    {
      var category := keys[i];
      list := list + [CategoryStats(category, acc[category].timeSpent, acc[category].pomodoros, acc[category].tasks)];
    }
  }

  /** `get_statistics`: the owner's tasks (all tasks when no owner is
      given), newest first, each with its figures; the categories in order
      of first appearance among them; the count of completed work sessions;
      the sum of the tasks' times; and how many of the owner's questionnaires
      report distractions and phone use. */
  method GetStatistics(db: Database, userId: Option<string>) returns (r: StatisticsResponse)
    requires db.Valid()
    ensures var tasks := TaskService.TasksWithSubtasks(db, userId, None);
      var rows := db.pomodoros.Rows();
      && |r.tasksStats| == |tasks|
      && (forall i :: 0 <= i < |tasks| ==> r.tasksStats[i] == TaskStatsOf(rows, tasks[i]))
      && (forall k :: k in Grouped(rows, tasks).keys ==> k in Grouped(rows, tasks).acc)
      && r.categoryStats == StatsList(Grouped(rows, tasks))
      && r.totalPomodoros == PomodoroService.GetPomodoroCount(db, userId)
      && r.totalTimeSpent == SumOf(tasks, TimeOf)
      && r.distractionsCount == Count(DistractionService.GetAllDistractions(db, userId), HadDistractions)
      && r.phoneUsageCount == Count(DistractionService.GetAllDistractions(db, userId), UsedPhone)
    ensures SumOf(r.categoryStats, GroupTasks) == |r.tasksStats|
    ensures SumOf(r.categoryStats, GroupTime) == r.totalTimeSpent
  {
    var tasks := TaskService.GetAllTasks(db, userId, None);
    var rows := db.pomodoros.Rows();
    var tasksStats := TaskFigures(rows, tasks);
    var keys, acc := GroupByCategory(rows, tasks);
    GroupedKeys(rows, tasks);
    var categoryStats := CategoryFigures(keys, acc);
    GroupedSums(rows, tasks);
    var totalPomodoros := PomodoroService.GetPomodoroCount(db, userId);
    var totalTimeSpent := SumOf(tasks, TimeOf);
    var distractions := DistractionService.GetAllDistractions(db, userId);
    r := StatisticsResponse(totalPomodoros, totalTimeSpent, tasksStats, categoryStats,
                            Count(distractions, HadDistractions), Count(distractions, UsedPhone));
  }
}

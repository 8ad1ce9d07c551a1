/** The application shell: the pomodoro counter, the time credited to the
    selected task when a work session ends, and the rule that shows the
    distraction questionnaire three times in every ten sessions. */
module App {
  import opened Common
  import opened TaskList

  /** Seconds credited to each selected subtask per finished session. */
  const CreditSeconds: int := 5

  /** What the user picked for the running session. */
  datatype Selection = Selection(taskId: Option<int>, subtaskIds: seq<int>)

  /** JavaScript truthiness of the selected task id: absent and 0 both
      count as "no task". */
  predicate HasTask(sel: Selection) {
    sel.taskId.Some? && sel.taskId.value != 0
  }

  // --------------------------------------------------- completion credit

  /** The subtasks with every selected one credited. */
  function CreditSubtasks(subtasks: seq<UiSubtask>, ids: seq<int>): (r: seq<UiSubtask>)
    ensures |r| == |subtasks|
    ensures forall j :: 0 <= j < |subtasks| && subtasks[j].id in ids ==>
      r[j] == subtasks[j].(timeSpent := subtasks[j].timeSpent + CreditSeconds)
    ensures forall j :: 0 <= j < |subtasks| && subtasks[j].id !in ids ==> r[j] == subtasks[j]
  {
    seq(|subtasks|, j requires 0 <= j < |subtasks| =>
      if subtasks[j].id in ids then subtasks[j].(timeSpent := subtasks[j].timeSpent + CreditSeconds)
      else subtasks[j])
  }

  function SubtaskTime(s: UiSubtask): int { s.timeSpent }

  function IsSelected(ids: seq<int>): UiSubtask -> bool {
    (s: UiSubtask) => s.id in ids
  }

  /** The credit raises the subtasks' total by five seconds per selected
      subtask. */
  lemma {:induction false} CreditSubtasksTotal(subtasks: seq<UiSubtask>, ids: seq<int>)
    ensures SumOf(CreditSubtasks(subtasks, ids), SubtaskTime)
      == SumOf(subtasks, SubtaskTime) + CreditSeconds * Count(subtasks, IsSelected(ids))
  {
    if subtasks != [] {
      var init := subtasks[..|subtasks| - 1];
      CreditSubtasksTotal(init, ids);
      assert CreditSubtasks(subtasks, ids)[..|subtasks| - 1] == CreditSubtasks(init, ids);
    }
  }

  /** The selected task after the credit: its subtasks credited and its own
      time replaced by the sum of its subtasks' times. */
  function CreditTask(t: UiTask, ids: seq<int>): (r: UiTask)
    ensures r.subtasks == CreditSubtasks(t.subtasks, ids)
    ensures r.timeSpent == SumOf(r.subtasks, SubtaskTime)
    ensures r == t.(subtasks := r.subtasks, timeSpent := r.timeSpent)
  {
    var updated := CreditSubtasks(t.subtasks, ids);
    t.(subtasks := updated, timeSpent := SumOf(updated, SubtaskTime))
  }

  /** The task list after `handlePomodoroComplete`: unchanged without a
      selected task; otherwise every task with the selected id is credited
      and the others are kept. */
  function CreditSelection(tasks: seq<UiTask>, sel: Selection): (r: seq<UiTask>)
    ensures |r| == |tasks|
    ensures !HasTask(sel) ==> r == tasks
    ensures HasTask(sel) ==> forall i :: 0 <= i < |tasks| ==>
      r[i] == if tasks[i].id == sel.taskId.value then CreditTask(tasks[i], sel.subtaskIds) else tasks[i]
  {
    if !HasTask(sel) then tasks
    else
      seq(|tasks|, i requires 0 <= i < |tasks| =>
        if tasks[i].id == sel.taskId.value then CreditTask(tasks[i], sel.subtaskIds) else tasks[i])
  }

  /** A credited task's time is what its subtasks held before plus five
      seconds per selected subtask; the task's own earlier figure is
      discarded. */
  lemma CreditedTaskTime(tasks: seq<UiTask>, sel: Selection, i: nat)
    requires HasTask(sel) && i < |tasks| && tasks[i].id == sel.taskId.value
    ensures CreditSelection(tasks, sel)[i].timeSpent
      == SumOf(tasks[i].subtasks, SubtaskTime) + CreditSeconds * Count(tasks[i].subtasks, IsSelected(sel.subtaskIds))
  {
    CreditSubtasksTotal(tasks[i].subtasks, sel.subtaskIds);
  }

  // ---------------------------------------------------- modal schedule

  /** Sessions are grouped in tens: 1-10 is group 0, 11-20 group 1, ... */
  function Group(count: int): int {
    (count - 1) / 10
  }

  function InGroup(g: int): int -> bool {
    (c: int) => Group(c) == g
  }

  /** Questionnaires already shown in the group of `count`. */
  function ShownInGroup(shown: seq<int>, count: int): nat {
    Count(shown, InGroup(Group(count)))
  }

  /** The outcome of one run of the scheduling effect. */
  datatype Decision = Decision(shown: seq<int>, show: bool)

  /** One run of the scheduling effect for the current count. `coin` is the
      random draw in [0, 1): the questionnaire is shown when it is below
      the share of remaining questionnaires over remaining positions, and
      always when that share is 1 or more; never twice for the same count,
      never at count 0, never a fourth time in a group. */
  function Schedule(shown: seq<int>, count: nat, coin: real): (d: Decision)
    ensures d.show ==>
      d.shown == shown + [count] && count !in shown && count > 0 && ShownInGroup(shown, count) < 3
    ensures !d.show ==> d.shown == shown
  {
    if count == 0 then Decision(shown, false)
    else
      var inGroup := ShownInGroup(shown, count);
      if inGroup >= 3 then Decision(shown, false)
      else
        var position := (count - 1) % 10 + 1;
        var remainingModals := 3 - inGroup;
        var remainingPositions := 11 - position;
        if remainingModals >= remainingPositions then
          if count !in shown then Decision(shown + [count], true) else Decision(shown, false)
        else if coin < remainingModals as real / remainingPositions as real && count !in shown then
          Decision(shown + [count], true)
        else Decision(shown, false)
  }

  /** Counts are all distinct and no group holds more than three. */
  ghost predicate ScheduleInvariant(shown: seq<int>) {
    Distinct(shown) && forall g :: Count(shown, InGroup(g)) <= 3
  }

  /** Every run keeps the invariant. */
  lemma SchedulePreserves(shown: seq<int>, count: nat, coin: real)
    requires ScheduleInvariant(shown)
    ensures ScheduleInvariant(Schedule(shown, count, coin).shown)
  {
    var d := Schedule(shown, count, coin);
    if d.show {
      forall g ensures Count(d.shown, InGroup(g)) <= 3 {
        FilterAppend(shown, count, InGroup(g));
      }
    }
  }

  /** Running the effect again for the same count (the effect re-runs once
      the list it appended to changes) does nothing more. */
  lemma ScheduleRerun(shown: seq<int>, count: nat, coin: real, coin2: real)
    ensures var d := Schedule(shown, count, coin);
      Schedule(d.shown, count, coin2) == Decision(d.shown, false) || !d.show
  {
  }

  /** Runs the effect once for each of `counts`, with the matching draws. */
  function Run(shown: seq<int>, counts: seq<nat>, coins: seq<real>): seq<int>
    requires |coins| == |counts|
    decreases |counts|
  {
    if counts == [] then shown
    else Run(Schedule(shown, counts[0], coins[0]).shown, counts[1..], coins[1..])
  }

  /** The counts of group `g` from position `p` to 10. */
  function Positions(g: nat, p: nat): (r: seq<nat>)
    requires 1 <= p <= 11
    ensures |r| == 11 - p
    decreases 11 - p
  {
    if p == 11 then [] else [10 * g + p] + Positions(g, p + 1)
  }

  /** Position `p` of group `g` is the count `10 * g + p`. */
  lemma GroupPosition(g: nat, p: nat)
    requires 1 <= p <= 10
    ensures Group(10 * g + p) == g && (10 * g + p - 1) % 10 + 1 == p
  {
    var c := 10 * g + p - 1;
    assert c == 10 * g + (p - 1) && 0 <= p - 1 < 10;
  }

  /** One position of the group: the questionnaires still owed never
      exceed the positions left. */
  lemma GroupStep(shown: seq<int>, g: nat, p: nat, coin: real)
    requires 1 <= p <= 10
    requires forall i :: 0 <= i < |shown| ==> shown[i] < 10 * g + p
    requires Count(shown, InGroup(g)) <= 3 && 3 - Count(shown, InGroup(g)) <= 11 - p
    ensures var after := Schedule(shown, 10 * g + p, coin).shown;
      && (forall i :: 0 <= i < |after| ==> after[i] < 10 * g + p + 1)
      && Count(after, InGroup(g)) <= 3 && 3 - Count(after, InGroup(g)) <= 10 - p
  {
    var count := 10 * g + p;
    GroupPosition(g, p);
    assert count !in shown;
    FilterAppend(shown, count, InGroup(g));
  }

  /** Once a group starts on time, it ends with exactly three
      questionnaires: whatever the draws, the forced branch makes up for
      the positions where the coin said no. */
  lemma {:induction false} GroupGetsThree(shown: seq<int>, g: nat, p: nat, coins: seq<real>)
    requires 1 <= p <= 11 && |coins| == 11 - p
    requires forall i :: 0 <= i < |shown| ==> shown[i] < 10 * g + p
    requires Count(shown, InGroup(g)) <= 3 && 3 - Count(shown, InGroup(g)) <= 11 - p
    ensures Count(Run(shown, Positions(g, p), coins), InGroup(g)) == 3
    decreases 11 - p
  {
    var ps := Positions(g, p);
    if p <= 10 {
      assert ps[0] == 10 * g + p && ps[1..] == Positions(g, p + 1);
      var after := Schedule(shown, 10 * g + p, coins[0]).shown;
      assert Run(shown, ps, coins) == Run(after, Positions(g, p + 1), coins[1..]);
      GroupStep(shown, g, p, coins[0]);
      GroupGetsThree(after, g, p + 1, coins[1..]);
    } else {
      assert Run(shown, ps, coins) == shown;
    }
  }

  /** Starting from no questionnaire in the group, the whole group gets
      exactly three. */
  lemma FullGroupGetsThree(shown: seq<int>, g: nat, coins: seq<real>)
    requires |coins| == 10
    requires forall i :: 0 <= i < |shown| ==> shown[i] <= 10 * g
    ensures Count(Run(shown, Positions(g, 1), coins), InGroup(g)) == 3
  {
    assert forall i :: 0 <= i < |shown| ==> !InGroup(g)(shown[i]);
    FilterMembers(shown, InGroup(g));
    GroupGetsThree(shown, g, 1, coins);
  }

  // ------------------------------------------------------- app state

  /** The application's state: the task list, the session selection, the
      number of finished sessions, whether the questionnaire is open and
      the counts at which it was shown. */
  class AppState {
    var tasks: seq<UiTask>
    var selection: Selection
    var pomodoroCount: nat
    var showDistractionModal: bool
    var distractionModalShown: seq<int>

    ghost predicate Valid()
      reads this
    {
      ScheduleInvariant(distractionModalShown)
      && forall i :: 0 <= i < |distractionModalShown| ==> 1 <= distractionModalShown[i] <= pomodoroCount
    }

    /** The initial state: the given tasks, no selection, nothing counted. */
    constructor (tasks: seq<UiTask>)
      ensures Valid()
      ensures this.tasks == tasks && selection == Selection(None, [])
      ensures pomodoroCount == 0 && !showDistractionModal && distractionModalShown == []
    {
      this.tasks := tasks;
      selection := Selection(None, []);
      pomodoroCount := 0;
      showDistractionModal := false;
      distractionModalShown := [];
    }

    /** `updateTasks`: the task list handed back by the list component
        replaces the current one. */
    method UpdateTasks(updated: seq<UiTask>)
      requires Valid()
      modifies this
      ensures Valid()
      ensures tasks == updated
      ensures selection == old(selection) && pomodoroCount == old(pomodoroCount)
      ensures showDistractionModal == old(showDistractionModal) && distractionModalShown == old(distractionModalShown)
    {
      tasks := updated;
    }

    /** `updateCurrentPomodoro`: the session's task and subtasks, as chosen
        in the list component, become the selection. */
    method UpdateCurrentPomodoro(chosen: Selection)
      requires Valid()
      modifies this
      ensures Valid()
      ensures selection == chosen
      ensures tasks == old(tasks) && pomodoroCount == old(pomodoroCount)
      ensures showDistractionModal == old(showDistractionModal) && distractionModalShown == old(distractionModalShown)
    {
      selection := chosen;
    }

    /** `handlePomodoroComplete`: one more finished session, and the
        selected task and subtasks credited. */
    method PomodoroComplete()
      requires Valid()
      modifies this
      ensures Valid()
      ensures pomodoroCount == old(pomodoroCount) + 1
      ensures tasks == CreditSelection(old(tasks), old(selection))
      ensures selection == old(selection) && showDistractionModal == old(showDistractionModal)
      ensures distractionModalShown == old(distractionModalShown)
    {
      pomodoroCount := pomodoroCount + 1;
      tasks := CreditSelection(tasks, selection);
    }

    /** The scheduling effect, run with the random draw `coin`. */
    method ScheduleDistractionModal(coin: real)
      requires Valid()
      modifies this
      ensures Valid()
      ensures var d := Schedule(old(distractionModalShown), old(pomodoroCount), coin);
        && distractionModalShown == d.shown
        && showDistractionModal == (old(showDistractionModal) || d.show)
      ensures tasks == old(tasks) && selection == old(selection) && pomodoroCount == old(pomodoroCount)
    {
      SchedulePreserves(distractionModalShown, pomodoroCount, coin);
      var d := Schedule(distractionModalShown, pomodoroCount, coin);
      if d.show {
        showDistractionModal := true;
        distractionModalShown := distractionModalShown + [pomodoroCount];
      }
    }

    /** `handleDistractionModalClose`. */
    method CloseDistractionModal()
      requires Valid()
      modifies this
      ensures Valid()
      ensures !showDistractionModal
      ensures tasks == old(tasks) && selection == old(selection) && pomodoroCount == old(pomodoroCount)
      ensures distractionModalShown == old(distractionModalShown)
    {
      showDistractionModal := false;
    }
  }
}

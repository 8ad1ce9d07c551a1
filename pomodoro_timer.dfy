/** The countdown component: a one-second tick over the remaining time, the
    reset on a mode change, the "MM:SS" display and the label of the
    selected task. */
module PomodoroTimer {
  import opened Common
  import opened Text
  import opened Schemas
  import opened TaskList
  import App

  /** The component's durations, in seconds (shortened from 25, 5 and 15
      minutes). */
  function Duration(m: PomodoroMode): (d: int)
    ensures d >= 1
    ensures m != LongBreak ==> d == 5
    ensures m == LongBreak ==> d == 15
  {
    match m
    case Pomodoro => 5
    case ShortBreak => 5
    case LongBreak => 15
  }

  /** The countdown's state. */
  datatype TimerState = TimerState(timer: int, isRunning: bool, mode: PomodoroMode)

  /** What one tick yields: the next state and whether the session
      callback fired. */
  datatype TickOutcome = TickOutcome(state: TimerState, completed: bool)

  /** One tick: above one second the timer counts down; at one second or
      less it stops, resets to the mode's duration and, in a work session
      only, reports the session finished. */
  function Step(s: TimerState): (o: TickOutcome)
    ensures s.timer > 1 ==> o == TickOutcome(s.(timer := s.timer - 1), false)
    ensures s.timer <= 1 ==>
      o.state == TimerState(Duration(s.mode), false, s.mode) && o.completed == (s.mode == Pomodoro)
  {
    if s.timer <= 1 then TickOutcome(TimerState(Duration(s.mode), false, s.mode), s.mode == Pomodoro)
    else TickOutcome(s.(timer := s.timer - 1), false)
  }

  /** The state after `n` seconds; the interval is cleared once the timer
      stops, so a stopped timer stays as it is. */
  function After(s: TimerState, n: nat): TimerState
    decreases n
  {
    if n == 0 || !s.isRunning then s else After(Step(s).state, n - 1)
  }

  /** Nothing fires before the last second: `n` ticks short of expiry only
      count the timer down. */
  lemma {:induction false} CountsDown(s: TimerState, n: nat)
    requires s.isRunning && n < s.timer
    ensures After(s, n) == s.(timer := s.timer - n)
    decreases n
  {
    if n > 0 {
      CountsDown(Step(s).state, n - 1);
    }
  }

  /** A running timer at `t` seconds expires on its `t`-th tick: it stops,
      is ready for the next run of the same mode, and the session callback
      fires exactly for a work session. */
  lemma ExpiresOnTime(s: TimerState)
    requires s.isRunning && s.timer >= 1
    ensures Step(After(s, s.timer - 1)) == TickOutcome(TimerState(Duration(s.mode), false, s.mode), s.mode == Pomodoro)
  {
    CountsDown(s, s.timer - 1);
  }

  /** The component's countdown. */
  class Timer {
    var timer: int
    var isRunning: bool
    var mode: PomodoroMode

    /** The remaining time is between one second and the mode's duration. */
    ghost predicate Valid()
      reads this
    {
      1 <= timer <= Duration(mode)
    }

    function State(): TimerState
      reads this
    {
      TimerState(timer, isRunning, mode)
    }

    /** Mounting: the mode effect runs once and sets the work-session
        duration, stopped. */
    constructor ()
      ensures Valid()
      ensures State() == TimerState(Duration(Pomodoro), false, Pomodoro)
    {
      timer := Duration(Pomodoro);
      isRunning := false;
      mode := Pomodoro;
    }

    /** One interval tick; it only runs while the timer runs. Answers
        whether the session callback fired. */
    method Tick() returns (completed: bool)
      requires Valid() && isRunning
      modifies this
      ensures Valid()
      ensures TickOutcome(State(), completed) == Step(old(State()))
    {
      if timer <= 1 {
        isRunning := false;
        completed := mode == Pomodoro;
        timer := Duration(mode);
      } else {
        timer := timer - 1;
        completed := false;
      }
    }

    /** `handleModeChange` and the effect it triggers: a different mode
        resets the timer to its duration and stops it; choosing the current
        mode again does not re-run the effect. */
    method ChangeMode(newMode: PomodoroMode)
      requires Valid()
      modifies this
      ensures Valid()
      ensures newMode != old(mode) ==> State() == TimerState(Duration(newMode), false, newMode)
      ensures newMode == old(mode) ==> State() == old(State())
    {
      if newMode != mode {
        mode := newMode;
        timer := Duration(newMode);
        isRunning := false;
      }
    }

    /** `handleStart`. */
    method Start()
      requires Valid()
      modifies this
      ensures Valid()
      ensures State() == old(State()).(isRunning := true)
    {
      isRunning := true;
    }

    /** `handlePause`. */
    method Pause()
      requires Valid()
      modifies this
      ensures Valid()
      ensures State() == old(State()).(isRunning := false)
    {
      isRunning := false;
    }
  }

  // ------------------------------------------------------------ display

  predicate AllDigits(s: string) {
    forall i :: 0 <= i < |s| ==> IsDigit(s[i])
  }

  /** A number as at least two digits. */
  function TwoDigits(n: nat): (r: string)
    ensures |r| >= 2 && forall i :: 0 <= i < |r| ==> IsDigit(r[i])
    ensures n < 100 ==> |r| == 2
  {
    var digits := NatToString(n);
    assert n < 100 ==> |digits| <= 2 by {
      if 10 <= n < 100 {
        assert NatToString(n) == NatToString(n / 10) + [DigitChar(n % 10)];
      }
    }
    PadStart(digits, 2, '0')
  }

  /** The padding zeros do not change the value read back. */
  lemma {:induction false} TwoDigitsReadsBack(n: nat)
    ensures AllDigits(TwoDigits(n)) && ParseNat(TwoDigits(n)) == n
  {
    var digits := NatToString(n);
    ParseNatToString(n);
    if |digits| < 2 {
      ParseNatLeadingZeros(2 - |digits|, digits);
    }
  }

  /** `formatTime` of the timer: minutes and seconds, each padded to two
      digits, around a colon. */
  function FormatClock(seconds: nat): (r: string)
    ensures |r| >= 5 && r[|r| - 3] == ':'
    ensures seconds < 6000 ==> |r| == 5
  {
    TwoDigits(seconds / 60) + [':'] + TwoDigits(seconds % 60)
  }

  /** The text before the colon reads back as the whole minutes. */
  lemma {:induction false} MinutesField(seconds: nat)
    ensures AllDigits(FormatClock(seconds)[..|FormatClock(seconds)| - 3])
    ensures ParseNat(FormatClock(seconds)[..|FormatClock(seconds)| - 3]) == seconds / 60
  {
    ClockFields(seconds);
    TwoDigitsReadsBack(seconds / 60);
  }

  /** The two digits after the colon read back as the seconds left over. */
  lemma {:induction false} SecondsField(seconds: nat)
    ensures AllDigits(FormatClock(seconds)[|FormatClock(seconds)| - 2..])
    ensures ParseNat(FormatClock(seconds)[|FormatClock(seconds)| - 2..]) == seconds % 60
  {
    ClockFields(seconds);
    TwoDigitsReadsBack(seconds % 60);
  }

  /** The two fields around the colon of the clock text. */
  lemma ClockFields(seconds: nat)
    ensures FormatClock(seconds)[..|FormatClock(seconds)| - 3] == TwoDigits(seconds / 60)
    ensures FormatClock(seconds)[|FormatClock(seconds)| - 2..] == TwoDigits(seconds % 60)
  {
    var a, b := TwoDigits(seconds / 60), TwoDigits(seconds % 60);
    assert |b| == 2;
    var r := a + [':'] + b;
    assert r[..|r| - 3] == a && r[|r| - 2..] == b;
  }

  // ---------------------------------------------------- selected task

  /** JavaScript's `find`: the first task with the id. */
  function FindTask(tasks: seq<UiTask>, id: int): (r: Option<UiTask>)
    ensures r.None? <==> forall i :: 0 <= i < |tasks| ==> tasks[i].id != id
    ensures r.Some? ==> exists k ::
      (0 <= k < |tasks| && tasks[k] == r.value && r.value.id == id && forall j :: 0 <= j < k ==> tasks[j].id != id)
  {
    if tasks == [] then None
    else if tasks[0].id == id then
      assert tasks[0] == tasks[0];
      Some(tasks[0])
    else
      var r := FindTask(tasks[1..], id);
      if r.Some? then
        var k :| 0 <= k < |tasks[1..]| && tasks[1..][k] == r.value && r.value.id == id
          && forall j :: 0 <= j < k ==> tasks[1..][j].id != id;
        assert tasks[k + 1] == r.value;
        r
      else r
  }

  /** The titles of the task's subtasks that are selected, in list order. */
  function SelectedTitles(subtasks: seq<UiSubtask>, ids: seq<int>): (r: seq<string>)
    ensures |r| == |Filter(subtasks, App.IsSelected(ids))|
    ensures forall i :: 0 <= i < |r| ==> r[i] == Filter(subtasks, App.IsSelected(ids))[i].title
  {
    var chosen := Filter(subtasks, App.IsSelected(ids));
    seq(|chosen|, i requires 0 <= i < |chosen| => chosen[i].title)
  }

  /** `getSelectedTaskName`: empty without a selected task or when the task
      is not in the list; the task's title alone when none of its subtasks
      is selected; otherwise the title, " - " and the selected subtasks'
      titles joined by ", ". */
  function SelectedTaskName(sel: App.Selection, tasks: seq<UiTask>): (r: string)
    ensures !App.HasTask(sel) ==> r == ""
    ensures App.HasTask(sel) && FindTask(tasks, sel.taskId.value).None? ==> r == ""
    ensures App.HasTask(sel) && FindTask(tasks, sel.taskId.value).Some? ==>
      var t := FindTask(tasks, sel.taskId.value).value;
      IsPrefix(t.title, r)
      && (SelectedTitles(t.subtasks, sel.subtaskIds) == [] ==> r == t.title)
      && (SelectedTitles(t.subtasks, sel.subtaskIds) != [] ==>
            r[|t.title|..] == " - " + Join(SelectedTitles(t.subtasks, sel.subtaskIds), ", "))
  {
    if App.HasTask(sel) then
      match FindTask(tasks, sel.taskId.value)
      case Some(task) =>
        var names := SelectedTitles(task.subtasks, sel.subtaskIds);
        if |names| > 0 then
          var r := task.title + " - " + Join(names, ", ");
          assert r[..|task.title|] == task.title;
          assert r[|task.title|..] == " - " + Join(names, ", ");
          r
        else task.title
      case None => ""
    else ""
  }

  /** Some selected subtask has this title. */
  ghost predicate TitleOfSelected(subtasks: seq<UiSubtask>, ids: seq<int>, title: string) {
    exists j :: 0 <= j < |subtasks| && subtasks[j].id in ids && subtasks[j].title == title
  }

  /** A subtask is named exactly when it belongs to the selected task and
      its id is among the selected ones. */
  lemma SelectedTitlesExact(subtasks: seq<UiSubtask>, ids: seq<int>)
    ensures forall j :: 0 <= j < |subtasks| && subtasks[j].id in ids ==>
      subtasks[j].title in SelectedTitles(subtasks, ids)
    ensures forall i :: 0 <= i < |SelectedTitles(subtasks, ids)| ==>
      TitleOfSelected(subtasks, ids, SelectedTitles(subtasks, ids)[i])
  {
    var chosen := Filter(subtasks, App.IsSelected(ids));
    FilterMembers(subtasks, App.IsSelected(ids));
    forall j | 0 <= j < |subtasks| && subtasks[j].id in ids
      ensures subtasks[j].title in SelectedTitles(subtasks, ids)
    {
      assert App.IsSelected(ids)(subtasks[j]);
      var k :| 0 <= k < |chosen| && chosen[k] == subtasks[j];
      assert SelectedTitles(subtasks, ids)[k] == subtasks[j].title;
    }
    forall i | 0 <= i < |SelectedTitles(subtasks, ids)|
      ensures TitleOfSelected(subtasks, ids, SelectedTitles(subtasks, ids)[i])
    {
      assert chosen[i] in subtasks && App.IsSelected(ids)(chosen[i]);
      var j :| 0 <= j < |subtasks| && subtasks[j] == chosen[i];
      assert subtasks[j].id in ids && subtasks[j].title == SelectedTitles(subtasks, ids)[i];
    }
  }
}

/** The records exchanged with the backend: the closed enums, the create and
    update payloads with their defaults, the stored rows, and the field
    constraints the validation layer enforces before any service runs. */
module Schemas {
  import opened Common

  // ---------------------------------------------------------------- enums

  /** Task category; its wire values are Spanish. */
  datatype TaskCategory = Personal | Laboral | Otro

  function CategoryValue(c: TaskCategory): string {
    match c
    case Personal => "personal"
    case Laboral => "laboral"
    case Otro => "otro"
  }

  /** Reading a category off the wire: exactly the three values are accepted. */
  function ParseCategory(s: string): (r: Option<TaskCategory>)
    ensures r.Some? <==> s == "personal" || s == "laboral" || s == "otro"
    ensures r.Some? ==> CategoryValue(r.value) == s
  {
    if s == "personal" then Some(Personal)
    else if s == "laboral" then Some(Laboral)
    else if s == "otro" then Some(Otro)
    else None
  }

  lemma CategoryRoundTrip(c: TaskCategory)
    ensures ParseCategory(CategoryValue(c)) == Some(c)
  {
  }

  /** Timer mode. */
  datatype PomodoroMode = Pomodoro | ShortBreak | LongBreak

  function ModeValue(m: PomodoroMode): string {
    match m
    case Pomodoro => "pomodoro"
    case ShortBreak => "shortBreak"
    case LongBreak => "longBreak"
  }

  /** Reading a mode off the wire: exactly the three values are accepted. */
  function ParseMode(s: string): (r: Option<PomodoroMode>)
    ensures r.Some? <==> s == "pomodoro" || s == "shortBreak" || s == "longBreak"
    ensures r.Some? ==> ModeValue(r.value) == s
  {
    if s == "pomodoro" then Some(Pomodoro)
    else if s == "shortBreak" then Some(ShortBreak)
    else if s == "longBreak" then Some(LongBreak)
    else None
  }

  lemma ModeRoundTrip(m: PomodoroMode)
    ensures ParseMode(ModeValue(m)) == Some(m)
  {
  }

  // ---------------------------------------------------- field constraints

  const MaxTitleLength := 500
  const MaxCustomCategoryLength := 100
  const MaxObjectiveLength := 1000

  predicate ValidTitle(t: string) {
    1 <= |t| <= MaxTitleLength
  }

  /** An optional text field is absent or no longer than `max`. */
  predicate AtMost(o: Option<string>, max: nat) {
    o.None? || |o.value| <= max
  }

  /** A nullable field of a partial update: left out of the payload, sent as
      an explicit null, or sent with a value. Only a left-out field keeps the
      stored value; an explicit null is written and clears it. */
  datatype Patch<T> = Unset | Null | Set(value: T)

  /** The stored value after a patch: kept, cleared or replaced. */
  function Patched<T>(p: Patch<T>, stored: Option<T>): (r: Option<T>)
    ensures p.Unset? ==> r == stored
    ensures p.Null? ==> r == None
    ensures p.Set? ==> r == Some(p.value)
  {
    match p
    case Unset => stored
    case Null => None
    case Set(v) => Some(v)
  }

  /** A patched text field is not sent with a value longer than `max`. */
  predicate PatchAtMost(p: Patch<string>, max: nat) {
    p.Set? ==> |p.value| <= max
  }

  /** An optional field that, when given, must be a valid title. */
  predicate ValidOptionalTitle(o: Option<string>) {
    o.None? || ValidTitle(o.value)
  }

  /** An optional time that, when given, must not be negative. */
  predicate NonNegativeIfGiven(o: Option<int>) {
    o.None? || o.value >= 0
  }

  // ------------------------------------------------------------- subtasks

  /** Payload to create a subtask. `time_spent` has no lower bound here. */
  datatype SubtaskCreate = SubtaskCreate(
    title: string,
    taskId: int,
    completed: bool := false,
    timeSpent: int := 0)

  /** Partial update of a subtask; `None` is a field left unset. */
  datatype SubtaskUpdate = SubtaskUpdate(
    title: Option<string> := None,
    completed: Option<bool> := None,
    timeSpent: Option<int> := None)

  /** A stored subtask. */
  datatype SubtaskRow = SubtaskRow(id: int, taskId: int, title: string, completed: bool, timeSpent: int)

  predicate ValidSubtaskCreate(p: SubtaskCreate) {
    ValidTitle(p.title)
  }

  predicate ValidSubtaskUpdate(u: SubtaskUpdate) {
    ValidOptionalTitle(u.title) && NonNegativeIfGiven(u.timeSpent)
  }

  /** An update payload that sets no field. */
  predicate IsEmptySubtaskUpdate(u: SubtaskUpdate) {
    u.title.None? && u.completed.None? && u.timeSpent.None?
  }

  // ---------------------------------------------------------------- tasks

  /** Payload to create a task, with the schema's defaults. */
  datatype TaskCreate = TaskCreate(
    title: string,
    completed: bool := false,
    category: TaskCategory := Personal,
    customCategory: Option<string> := None,
    timeSpent: int := 0,
    userId: Option<string> := None)

  /** Partial update of a task; `None` is a field left unset. The nullable
      `custom_category` can also be sent as an explicit null. */
  datatype TaskUpdate = TaskUpdate(
    title: Option<string> := None,
    completed: Option<bool> := None,
    category: Option<TaskCategory> := None,
    customCategory: Patch<string> := Unset,
    timeSpent: Option<int> := None)

  /** A stored task. */
  datatype TaskRow = TaskRow(
    id: int,
    title: string,
    completed: bool,
    category: TaskCategory,
    customCategory: Option<string>,
    timeSpent: int,
    userId: Option<string>)

  /** A task as the services return it: the row with its subtasks attached. */
  datatype TaskResponse = TaskResponse(task: TaskRow, subtasks: seq<SubtaskRow>)

  predicate ValidTaskCreate(p: TaskCreate) {
    ValidTitle(p.title) && AtMost(p.customCategory, MaxCustomCategoryLength)
  }

  predicate ValidTaskUpdate(u: TaskUpdate) {
    ValidOptionalTitle(u.title) && PatchAtMost(u.customCategory, MaxCustomCategoryLength)
    && NonNegativeIfGiven(u.timeSpent)
  }

  predicate IsEmptyTaskUpdate(u: TaskUpdate) {
    u.title.None? && u.completed.None? && u.category.None? && u.customCategory.Unset?
    && u.timeSpent.None?
  }

  // ------------------------------------------------------------ pomodoros

  /** Payload to create a pomodoro. `mode` and `duration` are `None` when the
      client left them unset: unset fields are not sent to the store. */
  datatype PomodoroCreate = PomodoroCreate(
    mode: Option<PomodoroMode> := None,
    objective: Option<string> := None,
    taskId: Option<int> := None,
    subtaskIds: seq<int> := [],
    duration: Option<int> := None,
    userId: Option<string> := None)

  /** Partial update of a pomodoro. It has no duration, completed or
      completed-at field, so no update can change those. The nullable
      `objective` and `task_id` can also be sent as an explicit null. */
  datatype PomodoroUpdate = PomodoroUpdate(
    mode: Option<PomodoroMode> := None,
    objective: Patch<string> := Unset,
    taskId: Patch<int> := Unset,
    subtaskIds: Option<seq<int>> := None)

  /** A stored pomodoro; timestamps are abstract instants. */
  datatype PomodoroRow = PomodoroRow(
    id: int,
    mode: PomodoroMode,
    objective: Option<string>,
    taskId: Option<int>,
    subtaskIds: seq<int>,
    duration: int,
    completed: bool,
    startedAt: Option<int>,
    completedAt: Option<int>,
    userId: Option<string>)

  /** Request to complete a pomodoro, optionally with the time really spent. */
  datatype PomodoroComplete = PomodoroComplete(pomodoroId: int, actualDuration: Option<int> := None)

  predicate ValidPomodoroCreate(p: PomodoroCreate) {
    AtMost(p.objective, MaxObjectiveLength)
  }

  predicate ValidPomodoroUpdate(u: PomodoroUpdate) {
    PatchAtMost(u.objective, MaxObjectiveLength)
  }

  predicate IsEmptyPomodoroUpdate(u: PomodoroUpdate) {
    u.mode.None? && u.objective.Unset? && u.taskId.Unset? && u.subtaskIds.None?
  }

  // --------------------------------------------------------- distractions

  datatype DistractionCreate = DistractionCreate(
    pomodoroId: int,
    hadDistractions: bool,
    usedPhone: bool,
    userId: Option<string> := None)

  /** A stored distraction record. */
  datatype DistractionRow = DistractionRow(
    id: int,
    pomodoroId: int,
    hadDistractions: bool,
    usedPhone: bool,
    userId: Option<string>)

  // ----------------------------------------------------------- statistics

  datatype TaskStats = TaskStats(
    taskId: int,
    taskTitle: string,
    totalTimeSpent: int,
    pomodorosCompleted: nat,
    completionPercentage: real)

  datatype CategoryStats = CategoryStats(
    category: string,
    totalTimeSpent: int,
    pomodorosCompleted: nat,
    tasksCount: nat)

  datatype StatisticsResponse = StatisticsResponse(
    totalPomodoros: nat,
    totalTimeSpent: int,
    tasksStats: seq<TaskStats>,
    categoryStats: seq<CategoryStats>,
    distractionsCount: nat,
    phoneUsageCount: nat)

  // ------------------------------------------------- schema-level lemmas

  /** Titles are bounded the same way on create and on update: 1 to 500
      characters, for tasks and subtasks alike. */
  lemma TitleBoundsAgree(t: string, taskId: int)
    ensures ValidTaskCreate(TaskCreate(t)) <==> 1 <= |t| <= 500
    ensures ValidSubtaskCreate(SubtaskCreate(t, taskId)) <==> 1 <= |t| <= 500
    ensures ValidTaskUpdate(TaskUpdate(title := Some(t))) <==> 1 <= |t| <= 500
    ensures ValidSubtaskUpdate(SubtaskUpdate(title := Some(t))) <==> 1 <= |t| <= 500
  {
  }

  /** A negative time is accepted when creating but refused when updating. */
  lemma TimeSpentBoundOnlyOnUpdate(t: int, taskId: int)
    requires t < 0
    ensures ValidSubtaskCreate(SubtaskCreate("x", taskId, timeSpent := t))
    ensures ValidTaskCreate(TaskCreate("x", timeSpent := t))
    ensures !ValidSubtaskUpdate(SubtaskUpdate(timeSpent := Some(t)))
    ensures !ValidTaskUpdate(TaskUpdate(timeSpent := Some(t)))
  {
  }

  /** The defaults of a create payload. A pomodoro's omitted `mode` and
      `duration` are unset (`None`): the payload is sent without its unset
      fields, so the schema's own defaults (work session, 1500 seconds)
      never reach the store. The service fills in the duration; the mode is
      left to the store's column default. */
  lemma CreateDefaults(title: string, taskId: int)
    ensures TaskCreate(title).completed == false && TaskCreate(title).timeSpent == 0
    ensures TaskCreate(title).category == Personal && TaskCreate(title).customCategory == None
    ensures SubtaskCreate(title, taskId).completed == false && SubtaskCreate(title, taskId).timeSpent == 0
    ensures PomodoroCreate().subtaskIds == [] && PomodoroCreate().mode == None
    ensures PomodoroCreate().duration == None
  {
  }
}

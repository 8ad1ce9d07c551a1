# mypomodoro, modelled in Dafny

mypomodoro is a pomodoro-timer application. A FastAPI back end keeps four tables in a hosted store:

- tasks;
- subtasks, each under a task;
- pomodoros, which are work sessions or breaks, optionally linked to a task and some of its subtasks;
- distractions, the questionnaire answered after a session.

A React front end keeps the task list in memory and runs the countdown.

This project models the system's core:

- **Entity services** (`TaskService`, `SubtaskService`, `PomodoroService`, `DistractionService`): imperative methods over a `Store.Database` object that holds one `Store.Table` per store table.
  - A table maps ids to rows and keeps the creation order. The order stands in for the `created_at` timestamps the store sorts on.
  - Every write takes the store's answer as a `Reply` parameter: the row was written, no rows came back, or the client raised. The subtask writes of a completion take one answer each, as a function from the write's position to its `Reply`.
  - Reads always answer.
- **Pomodoro completion** (`PomodoroService`):
  - the duration precedence;
  - crediting every listed subtask once per mention;
  - marking the session complete;
  - the count of completed work sessions.
- **The statistics endpoint** (`Statistics`): the per-task loop, the category dictionary and the totals, each proved against a specification function.
- **Request schemas** (`Schemas`): the closed enums, length and range constraints, and defaults.
- **CORS parsing** (`Config`): the parser of the comma-separated origin list.
- **Front-end logic**:
  - the task-list transformations (`TaskList`);
  - the completion handler and the distraction-questionnaire schedule (`App`);
  - the countdown tick, the mode reset and the two display helpers (`PomodoroTimer`).

`Common` and `Text` hold the sequence and string helpers the rest relies on. Examples are Python's `split`/`strip`, JavaScript's `toLowerCase`/`includes`/`padStart`, and `filter`/`reverse`/`count` with their laws.

## Model

| member | source | states |
|---|---|---|
| Schemas.ParseCategory | backend/app/models/schemas.py:12-16 | a category string is accepted exactly when it is "personal", "laboral" or "otro", and reads back to that string |
| Schemas.CategoryRoundTrip | backend/app/models/schemas.py:12-16 | every category parses back from its value |
| Schemas.ParseMode | backend/app/models/schemas.py:19-23 | a mode string is accepted exactly when it is "pomodoro", "shortBreak" or "longBreak", and reads back to that string |
| Schemas.ModeRoundTrip | backend/app/models/schemas.py:19-23 | every mode parses back from its value |
| Schemas.TitleBoundsAgree | backend/app/models/schemas.py:27-43 | task and subtask titles are valid exactly when 1 to 500 characters long, on create and on update alike |
| Schemas.TimeSpentBoundOnlyOnUpdate | backend/app/models/schemas.py:58-79 | a negative time is accepted by both create payloads and refused by both update payloads |
| Schemas.CreateDefaults | backend/app/models/schemas.py:94-101 | the create payloads' defaults: not completed, zero time, category personal, no custom label and no subtask ids; a pomodoro's omitted mode and duration are unset, since unset fields are not sent and the schema's work-session and 1500-second defaults never reach the store (stored values of omitted fields: see "Left out") |
| Store.Table.Rows | backend/app/services/task_service.py:55-58 | the rows in creation order, one per stored id |
| Store.Table.Insert | backend/app/services/task_service.py:22 | an insert stores the row under the next id, appends that id to the order and keeps the table well formed |
| Store.Table.Put | backend/app/services/task_service.py:115-121 | an update replaces one stored row and keeps the order and the next id |
| Store.Table.RemoveAll | backend/app/services/task_service.py:141 | a delete removes exactly the given ids |
| Store.EmptyTable | backend/app/services/task_service.py:14-35 | a new table is well formed and empty |
| Store.RowsAscending | backend/app/services/subtask_service.py:75 | rows come out in increasing id order |
| Store.RowsComplete | backend/app/services/task_service.py:83 | every stored row is listed |
| Store.RowsStored | backend/app/services/task_service.py:83 | every listed row is the one stored under its id |
| Store.SelectExact | backend/app/services/subtask_service.py:74-77 | a filtered listing holds exactly the stored rows that match, in increasing id order, and is empty when none match |
| Store.SelectExactDescending | backend/app/services/distraction_service.py:74-77 | a reversed filtered listing holds exactly the stored rows that match, newest first |
| TaskService.SubtasksOf | backend/app/services/task_service.py:55-58 | exactly the subtasks whose task id is the task's, oldest first; none when no subtask names it |
| TaskService.GetTaskById | backend/app/services/task_service.py:37-67 | NotFound exactly when the id is absent; otherwise the stored task with exactly its subtasks |
| TaskService.NoSubtasksWithoutTask | backend/app/services/task_service.py:55-58 | with subtasks attached only to existing tasks, an absent task has no subtasks |
| TaskService.ListedTasks | backend/app/services/task_service.py:75-83 | exactly the stored tasks of the owner (when one is given) whose lower-cased title contains the lower-cased search (when one is given), newest first |
| TaskService.ListingWithoutFiltersIsComplete | backend/app/services/task_service.py:77-81 | without an owner or a search every stored task is listed |
| TaskService.TasksWithSubtasks | backend/app/services/task_service.py:85-92 | one entry per listed task, in listing order, each equal to what fetching that task answers |
| TaskService.GetAllTasks | backend/app/services/task_service.py:69-99 | the loop builds exactly the listed tasks, each with its subtasks |
| TaskService.CreateTask | backend/app/services/task_service.py:14-35 | a written insert adds exactly the new row under a fresh id and answers it with no subtasks; an empty answer or a raised error is a generic failure that changes nothing |
| TaskService.ApplyTaskUpdate | backend/app/services/task_service.py:115-121 | the supplied fields replace the stored ones; a left-out custom category keeps the stored one, an explicit null clears it; id and owner are kept; an empty update changes nothing |
| TaskService.NullCustomCategoryClears | backend/app/services/task_service.py:115-121 | a payload holding only a null custom category is not empty, and writing it clears the custom category |
| TaskService.ApplyTaskUpdateIdempotent | backend/app/services/task_service.py:115-121 | applying the same update twice is the same as applying it once |
| TaskService.UpdateTask | backend/app/services/task_service.py:101-130 | NotFound first for an absent id; an empty payload answers the current task without a write; otherwise only that row changes and the re-fetched task is answered; write failures change nothing |
| TaskService.CascadeKeepsSubtasksAttached | backend/app/services/task_service.py:132-143 | removing a task together with its subtasks keeps every remaining subtask attached to an existing task |
| TaskService.DeleteTask | backend/app/services/task_service.py:132-150 | NotFound for an absent id with nothing deleted; otherwise the answer is true, and a delete that goes through removes the task and its subtasks only, keeping the tables' order and next id |
| SubtaskService.GetSubtaskById | backend/app/services/subtask_service.py:43-64 | NotFound exactly when the id is absent, else the stored row |
| SubtaskService.GetSubtasksByTaskId | backend/app/services/subtask_service.py:66-84 | NotFound exactly when the task is absent; else exactly its subtasks, oldest first |
| SubtaskService.TaskFetchCarriesItsSubtasks | backend/app/services/subtask_service.py:66-84 | fetching a task succeeds exactly when listing its subtasks does, and carries that same list |
| SubtaskService.CreateSubtask | backend/app/services/subtask_service.py:15-41 | NotFound with nothing inserted when the parent task is absent; otherwise exactly one row holding the given title, task, flag and time |
| SubtaskService.ApplySubtaskUpdate | backend/app/services/subtask_service.py:94-108 | the supplied fields replace the stored ones; id and parent are kept; an empty update changes nothing |
| SubtaskService.ApplySubtaskUpdateOverrides | backend/app/services/subtask_service.py:94-108 | a full later update overrides any earlier one |
| SubtaskService.UpdateSubtask | backend/app/services/subtask_service.py:86-115 | NotFound first for an absent id; an empty payload answers the current row without a write; otherwise only that row changes |
| SubtaskService.DeleteSubtask | backend/app/services/subtask_service.py:117-135 | NotFound for an absent id; otherwise true, and a delete that goes through removes that row only, keeping the table's order and next id |
| PomodoroService.DefaultDuration | backend/app/services/pomodoro_service.py:31-38 | every default is a positive whole number of minutes |
| PomodoroService.DefaultDurationsInMinutes | backend/app/services/pomodoro_service.py:31-38 | the defaults are 25, 5 and 15 minutes for pomodoro, short break and long break, and 25 when the mode is absent |
| PomodoroService.InitialDuration | backend/app/services/pomodoro_service.py:31-38 | a given nonzero duration is stored as it is; a missing or zero one becomes the mode's default |
| PomodoroService.OmittedModeAndDuration | backend/app/services/pomodoro_service.py:28-37 | a pomodoro created with neither mode nor duration is stored as a work session of 1500 seconds |
| PomodoroService.NewPomodoroRow | backend/app/services/pomodoro_service.py:40-56 | a new pomodoro is not completed, has no completion time, has the initial duration, and keeps the given mode (default pomodoro), task and subtask ids |
| PomodoroService.CreatePomodoro | backend/app/services/pomodoro_service.py:20-56 | a nonzero task id of an absent task fails NotFound with nothing inserted; otherwise a written insert adds exactly the new row |
| PomodoroService.GetPomodoroById | backend/app/services/pomodoro_service.py:58-79 | NotFound exactly when the id is absent, else the stored row |
| PomodoroService.GetAllPomodoros | backend/app/services/pomodoro_service.py:81-102 | exactly the stored pomodoros of the owner (when given) with the given completion flag (when given), newest first |
| PomodoroService.ApplyPomodoroUpdate | backend/app/services/pomodoro_service.py:104-133 | an update changes only mode, objective, task and subtask ids; a left-out objective or task keeps the stored one, an explicit null clears it; duration, completion and timestamps are kept |
| PomodoroService.NullTaskDetaches | backend/app/services/pomodoro_service.py:104-133 | a payload holding only a null task is not empty, and writing it detaches the pomodoro from its task |
| PomodoroService.UpdatePomodoro | backend/app/services/pomodoro_service.py:104-133 | NotFound first for an absent id; an empty payload answers the current row without a write; otherwise only that row changes |
| PomodoroService.DurationToAdd | backend/app/services/pomodoro_service.py:146 | the first nonzero of the actual duration, the stored duration and 1500 |
| PomodoroService.StoredDurationIsUsed | backend/app/services/pomodoro_service.py:146 | without an actual duration the stored one is used, since a stored duration is never zero |
| PomodoroService.Credit | backend/app/services/pomodoro_service.py:150-152 | one subtask's time grows by the duration and nothing else changes |
| PomodoroService.FirstStop | backend/app/services/pomodoro_service.py:149-152 | the first position whose subtask is missing or whose write the store refuses; every earlier one exists and is written |
| PomodoroService.PropagateCompletes | backend/app/services/pomodoro_service.py:149-152 | the loop runs to the end exactly when every listed subtask exists and every subtask write goes through |
| PomodoroService.PropagateStopsAt | backend/app/services/pomodoro_service.py:149-152 | a loop that stops, stops at the first missing subtask (NotFound) or refused write (WriteFailed for no rows, Failure for a raise), with exactly the subtasks before it credited |
| PomodoroService.PropagateCredits | backend/app/services/pomodoro_service.py:149-152 | after the loop each subtask's time grows by the duration times the number of times it is listed |
| PomodoroService.PropagateStopped | backend/app/services/pomodoro_service.py:149-152 | once the loop has stopped, the later ids change nothing |
| PomodoroService.MarkCompleted | backend/app/services/pomodoro_service.py:155-161 | the row becomes completed at the given time; the duration is overwritten only by a nonzero actual duration; no other field changes |
| PomodoroService.FinishCompletion | backend/app/services/pomodoro_service.py:163-179 | the final write succeeds exactly when the store writes, and then stores and answers the completed row; subtasks are untouched |
| PomodoroService.CompleteOutcome | backend/app/services/pomodoro_service.py:135-179 | an absent pomodoro answers NotFound and changes nothing; a work session whose loop stops answers NotFound for a missing subtask or the refused write's error, keeps the pomodoro open and keeps the earlier credits; otherwise every listed subtask of a work session is credited whatever the final write answers, the final write decides the rest, and the call succeeds exactly when it goes through |
| PomodoroService.CompleteStoppedCredits | backend/app/services/pomodoro_service.py:144-152 | when the loop stops at a position, the call fails and each subtask keeps one credit per listing before that position |
| PomodoroService.CompleteCredits | backend/app/services/pomodoro_service.py:144-161 | on success each subtask gains the chosen duration per mention in a work session and nothing in a break; titles and flags are kept; the pomodoro is completed at the given time |
| PomodoroService.CreditUpdate | backend/app/services/subtask_service.py:94-108 | the time-only payload is not empty and changes exactly the subtask's time |
| PomodoroService.CreditSubtask | backend/app/services/pomodoro_service.py:150-152 | one loop step: a missing subtask answers NotFound and a refused write answers its error, both changing nothing; otherwise the subtask is credited once |
| PomodoroService.CreditSubtasks | backend/app/services/pomodoro_service.py:149-152 | the loop leaves the subtasks table and answers the stopping error as the specification of the loop says |
| PomodoroService.CompletePomodoro | backend/app/services/pomodoro_service.py:135-179 | the method leaves the subtasks and pomodoros and answers exactly as the corrected specification of completion says; tasks and distractions are untouched |
| PomodoroService.WriteCompletion | backend/app/services/pomodoro_service.py:155-179 | the final write as specified |
| PomodoroService.CompleteAsWritten | backend/app/services/pomodoro_service.py:144-152 | as written, a work session with subtasks always fails without writing; every other completion behaves as intended |
| PomodoroService.CompleteAsWrittenFails | backend/app/services/pomodoro_service.py:152 | on a work session with one existing subtask, the code as written fails and credits nothing; the intended completion succeeds and credits 1500 seconds |
| PomodoroService.GetPomodoroCount | backend/app/services/pomodoro_service.py:181-196 | the count never exceeds the number of stored pomodoros |
| PomodoroService.FallbackPomodoroCount | backend/app/services/pomodoro_service.py:197-200 | the fallback counts among the completed pomodoros of the owner |
| PomodoroService.CountPathsAgree | backend/app/services/pomodoro_service.py:181-200 | the fallback count equals the main count |
| PomodoroService.CompletingCounts | backend/app/services/pomodoro_service.py:155-190 | completing an open work session of the owner raises the owner's count by exactly one |
| DistractionService.CreateDistraction | backend/app/services/distraction_service.py:15-41 | NotFound when the pomodoro is absent; otherwise exactly one row is appended, holding both flags as given; no existing answer ever changes |
| DistractionService.GetDistractionById | backend/app/services/distraction_service.py:43-64 | NotFound exactly when the id is absent, else the stored row |
| DistractionService.GetDistractionsByPomodoroId | backend/app/services/distraction_service.py:66-84 | NotFound exactly when the pomodoro is absent; else exactly its answers, newest first |
| DistractionService.GetAllDistractions | backend/app/services/distraction_service.py:86-104 | exactly the stored answers of the owner when one is given (all otherwise), newest first |
| DistractionService.NewestFirst | backend/app/services/distraction_service.py:26-75 | an appended answer comes first in its pomodoro's listing, ahead of the earlier ones |
| Statistics.CompletionPercentage | backend/app/routers/statistics.py:31-34 | the completion share lies between 0 and 100, and is 0 without subtasks |
| Statistics.CompletionExtremes | backend/app/routers/statistics.py:31-34 | with subtasks, the share is 100 exactly when all are completed and 0 exactly when none is |
| Statistics.CompletedPomodorosFor | backend/app/routers/statistics.py:28-29 | the per-task count is at most the number of pomodoros |
| Statistics.TaskStatsOf | backend/app/routers/statistics.py:36-42 | a task's figures carry its id, title, time, completed-pomodoro count and completion share |
| Statistics.PerTaskCountIncludesBreaks | backend/app/routers/statistics.py:28-29 | a completed break linked to a task counts for the task but not in the total of completed work sessions |
| Statistics.EffectiveCategory | backend/app/routers/statistics.py:47 | the custom label when the category is "otro" and the label is nonempty; otherwise the category's own value; never empty |
| Statistics.Categories | backend/app/routers/statistics.py:46-47 | one effective category per task, in task order |
| Statistics.GroupedKeys | backend/app/routers/statistics.py:49-54 | the dictionary's keys are distinct and are exactly the categories occurring among the tasks |
| Statistics.GroupedTotals | backend/app/routers/statistics.py:56-61 | each group holds its tasks' count, the sum of their times and the sum of their completed pomodoros |
| Statistics.NoTaskBeforeItsKey | backend/app/routers/statistics.py:49-54 | a category without a key has no task |
| Statistics.GroupedOrder | backend/app/routers/statistics.py:49-71 | the groups come in order of first appearance of their category among the tasks |
| Statistics.StatsList | backend/app/routers/statistics.py:63-71 | one category entry per key, in key order, with that key's figures |
| Statistics.StatsListAdd | backend/app/routers/statistics.py:56-61 | counting one task raises the sums over the groups by its time, its pomodoros and one |
| Statistics.GroupedSums | backend/app/routers/statistics.py:49-77 | group task counts add up to the number of tasks; group times and pomodoros add up to the tasks' totals |
| Statistics.CountTask | backend/app/routers/statistics.py:49-61 | the dictionary steps of one task give the specified grouping step |
| Statistics.TaskFigures | backend/app/routers/statistics.py:25-42 | exactly one entry per task, in task order, each the task's figures |
| Statistics.GroupByCategory | backend/app/routers/statistics.py:45-61 | the loop builds the specified grouping of all the tasks |
| Statistics.CategoryFigures | backend/app/routers/statistics.py:63-71 | the items list is the specified list of the dictionary |
| Statistics.GetStatistics | backend/app/routers/statistics.py:16-91 | per-task figures for the owner's tasks; the groups; the count of completed work sessions; the sum of task times; each flag counted over the owner's answers; group tasks sum to the task count and group times to the total |
| Config.StrippedPieces | backend/app/config.py:30 | at most one entry per piece |
| Config.StrippedPiecesSound | backend/app/config.py:30 | every entry is a nonempty stripped input piece |
| Config.StrippedPiecesComplete | backend/app/config.py:30 | every nonblank input piece is kept, stripped |
| Config.StrippedPiecesClean | backend/app/config.py:30 | pieces that are already clean come through unchanged and in order |
| Config.ParseCorsOrigins | backend/app/config.py:25-31 | a list is returned unchanged; from a string every entry is nonempty, comma-free and without surrounding whitespace |
| Config.NothingLost | backend/app/config.py:30 | every nonblank comma-separated piece of the string appears stripped in the result |
| Config.ParseJoinRoundTrip | backend/app/config.py:30 | joining clean origins with commas and parsing gives back the same list, in order |
| Config.DefaultOrigins | backend/app/config.py:19 | the default parses to the two localhost origins |
| Text.Split | backend/app/config.py:30 | Python's `split(',')`: at least one piece, none holding the separator |
| Text.JoinSplit | backend/app/config.py:30 | joining the pieces with the separator gives back the string |
| Text.SplitJoin | backend/app/config.py:30 | splitting joined separator-free pieces gives them back |
| Text.Strip | backend/app/config.py:30 | the stripped string neither starts nor ends with whitespace, and is empty exactly when the input is all whitespace |
| Text.Contains | frontend/src/components/TaskList.jsx:10-12 | substring search: true exactly when the text occurs at some position |
| Text.Lower | frontend/src/components/TaskList.jsx:10-12 | lower-casing maps each character on its own, A-Z to a-z |
| Text.PadStart | frontend/src/components/PomodoroTimer.jsx:81 | left padding to the width, keeping the text as the suffix |
| TaskList.FilteredTasks | frontend/src/components/TaskList.jsx:10-12 | the search never adds tasks |
| TaskList.FilteredTasksExact | frontend/src/components/TaskList.jsx:10-12 | the search keeps exactly the tasks whose lower-cased title contains the lower-cased query, in their order (filtering a concatenation concatenates the filtered parts); an empty query keeps the whole list |
| TaskList.ToggleTaskExpanded | frontend/src/components/TaskList.jsx:14-24 | the id's membership flips and no other id changes |
| TaskList.ToggleTaskExpandedTwice | frontend/src/components/TaskList.jsx:14-24 | toggling twice restores the set |
| TaskList.ToggleTaskComplete | frontend/src/components/TaskList.jsx:26-34 | tasks with the id have their flag flipped; all others are kept |
| TaskList.ToggleTaskCompleteTwice | frontend/src/components/TaskList.jsx:26-34 | toggling twice restores the list |
| TaskList.ToggleSubtask | frontend/src/components/TaskList.jsx:39-44 | subtasks with the id are flipped; all others are kept |
| TaskList.ToggleSubtaskComplete | frontend/src/components/TaskList.jsx:36-55 | in the matching task the subtask flips and the task is completed exactly when all its subtasks are; other tasks are kept |
| TaskList.ToggleSubtaskCompleteTwice | frontend/src/components/TaskList.jsx:36-55 | a double toggle restores the subtasks and leaves the task's flag equal to "all subtasks done" |
| TaskList.ToggleWithoutSubtasksCompletes | frontend/src/components/TaskList.jsx:45 | a task without subtasks becomes completed, since `every` holds on an empty list |
| TaskList.FormatTime | frontend/src/components/TaskList.jsx:57-64 | "Mm" below one hour; otherwise "Hh Mm" with at least one hour, fewer than 60 minutes, and together the whole minutes |
| TaskList.CompletedSubtasks | frontend/src/components/TaskList.jsx:66-68 | at most the number of subtasks |
| TaskList.ProgressPercentage | frontend/src/components/TaskList.jsx:74-78 | 100 or 0 by the task's flag without subtasks; otherwise completed times 100 over total; always between 0 and 100 |
| TaskList.ProgressFullIffAllCompleted | frontend/src/components/TaskList.jsx:74-78 | with subtasks, progress is 100 exactly when all are completed |
| TaskList.ToggleSubtaskKeepsBarAndBoxInStep | frontend/src/components/TaskList.jsx:36-78 | after a subtask toggle the task's bar is full exactly when its box is ticked |
| TaskList.ChangeCategory | frontend/src/components/TaskList.jsx:102-114 | matching tasks take the category and lose the custom label unless it is "otro"; others are kept |
| TaskList.ChangeCategoryLastWins | frontend/src/components/TaskList.jsx:102-114 | two changes equal the last one, unless going back to "otro" after the label was lost |
| TaskList.AddSubtask | frontend/src/components/TaskList.jsx:137-154 | matching tasks gain exactly one open subtask with zero time at the end; others are kept |
| TaskList.AddSubtaskProgress | frontend/src/components/TaskList.jsx:137-154 | adding a subtask keeps the completed count, adds one to the total and cannot raise the progress |
| TaskList.WithoutTask | frontend/src/components/TaskList.jsx:156-170 | removal never adds tasks |
| TaskList.WithoutTaskExact | frontend/src/components/TaskList.jsx:156-170 | every task with the id goes and every other stays; a second removal changes nothing |
| TaskList.ArchiveTask | frontend/src/components/TaskList.jsx:156-162 | the task leaves the list and the menu closes |
| TaskList.DeleteTask | frontend/src/components/TaskList.jsx:164-170 | on confirmation the same as archiving; otherwise nothing changes |
| App.CreditSubtasks | frontend/src/App.jsx:96-104 | each selected subtask gains 5 seconds and the others are kept |
| App.CreditSubtasksTotal | frontend/src/App.jsx:96-106 | the subtasks' total grows by 5 seconds per selected subtask |
| App.CreditTask | frontend/src/App.jsx:106-112 | the credited task's time becomes the sum of its subtasks' times; nothing else of it changes |
| App.CreditSelection | frontend/src/App.jsx:92-116 | without a selected task the list is unchanged; otherwise only the selected task is credited |
| App.CreditedTaskTime | frontend/src/App.jsx:96-111 | the credited task's time is its subtasks' earlier total plus 5 per selected subtask; its own earlier time is discarded |
| App.Schedule | frontend/src/App.jsx:52-86 | a questionnaire is recorded only for a nonzero count not already recorded and in a group with fewer than three; otherwise nothing is recorded |
| App.SchedulePreserves | frontend/src/App.jsx:55-85 | recorded counts stay distinct and no group ever holds more than three |
| App.ScheduleRerun | frontend/src/App.jsx:70-86 | when the effect re-runs for the same count it records nothing more |
| App.Positions | frontend/src/App.jsx:65-67 | the counts left in a group, one per remaining position |
| App.GroupPosition | frontend/src/App.jsx:55-65 | position p of group g is the count 10g + p |
| App.GroupStep | frontend/src/App.jsx:65-75 | at each position the questionnaires still owed never exceed the positions left |
| App.GroupGetsThree | frontend/src/App.jsx:51-75 | a group entered on time ends with exactly three questionnaires, whatever the random draws |
| App.FullGroupGetsThree | frontend/src/App.jsx:51-75 | every full group of ten sessions gets exactly three questionnaires, as the comment promises |
| App.AppState.constructor | frontend/src/App.jsx:46-48 | the count starts at 0, with no questionnaire open or recorded |
| App.AppState.UpdateTasks | frontend/src/App.jsx:124-126 | the handed-back list replaces the tasks; nothing else changes and the invariant is kept |
| App.AppState.UpdateCurrentPomodoro | frontend/src/App.jsx:128-130 | the chosen task and subtasks become the selection; nothing else changes and the invariant is kept |
| App.AppState.PomodoroComplete | frontend/src/App.jsx:88-118 | the count rises by exactly one and the tasks are credited as specified; the schedule state is kept |
| App.AppState.ScheduleDistractionModal | frontend/src/App.jsx:52-86 | the recorded counts and the open flag follow the schedule; the invariant is kept |
| App.AppState.CloseDistractionModal | frontend/src/App.jsx:120-122 | the questionnaire closes, the schedule invariant is kept, and nothing else changes |
| PomodoroTimer.Duration | frontend/src/components/PomodoroTimer.jsx:13-17 | 5 seconds for the work session and the short break, 15 for the long break |
| PomodoroTimer.Step | frontend/src/components/PomodoroTimer.jsx:22-32 | above one second the timer drops by one and keeps running; otherwise it stops at the mode's duration, and the callback fires only in a work session |
| PomodoroTimer.CountsDown | frontend/src/components/PomodoroTimer.jsx:21-33 | before expiry each tick only counts down |
| PomodoroTimer.ExpiresOnTime | frontend/src/components/PomodoroTimer.jsx:21-33 | a running timer at t seconds expires on its t-th tick, firing the callback exactly for a work session |
| PomodoroTimer.Timer.constructor | frontend/src/components/PomodoroTimer.jsx:5-50 | mounting sets the work-session duration, stopped |
| PomodoroTimer.Timer.Tick | frontend/src/components/PomodoroTimer.jsx:22-32 | one tick changes the state exactly as the tick specification says and keeps the timer between 1 and the duration |
| PomodoroTimer.Timer.ChangeMode | frontend/src/components/PomodoroTimer.jsx:47-76 | a new mode resets the timer to its duration and stops it; the same mode changes nothing |
| PomodoroTimer.Timer.Start | frontend/src/components/PomodoroTimer.jsx:52-53 | the timer runs and nothing else changes |
| PomodoroTimer.Timer.Pause | frontend/src/components/PomodoroTimer.jsx:62-63 | the timer stops and nothing else changes |
| PomodoroTimer.TwoDigits | frontend/src/components/PomodoroTimer.jsx:81 | at least two digits, exactly two below 100 |
| PomodoroTimer.TwoDigitsReadsBack | frontend/src/components/PomodoroTimer.jsx:81 | the padded digits read back as the number |
| PomodoroTimer.FormatClock | frontend/src/components/PomodoroTimer.jsx:78-82 | the colon is third from the end, and the text is exactly five characters below 100 minutes |
| PomodoroTimer.MinutesField | frontend/src/components/PomodoroTimer.jsx:79-81 | the text before the colon reads back as the whole minutes |
| PomodoroTimer.SecondsField | frontend/src/components/PomodoroTimer.jsx:80-81 | the two digits after the colon read back as the leftover seconds |
| PomodoroTimer.FindTask | frontend/src/components/PomodoroTimer.jsx:86 | `find`: none exactly when no task has the id, else the first task with it |
| PomodoroTimer.SelectedTitles | frontend/src/components/PomodoroTimer.jsx:88-90 | the titles of the selected subtasks, in list order |
| PomodoroTimer.SelectedTitlesExact | frontend/src/components/PomodoroTimer.jsx:88-90 | a subtask's title is listed exactly when the subtask is selected |
| PomodoroTimer.SelectedTaskName | frontend/src/components/PomodoroTimer.jsx:84-98 | empty without a selected or found task; the title alone when no subtask is selected; otherwise the title, " - " and the selected titles joined by ", " |

## Left out

- **Store client and query builder.** The Supabase client and its query builder are replaced by in-memory tables. The store's answer to each write becomes the `Reply` parameter.
- TaskService.CreateTask, SubtaskService.CreateSubtask, PomodoroService.NewPomodoroRow and PomodoroService.CreatePomodoro: a create payload is sent without the fields the client left out (`model_dump(exclude_unset=True)`), so the store's column defaults fill them. The store's table definitions are not part of this model. The model assumes those defaults equal the payload schema's: not completed, time 0, category personal, no custom label and no owner for a task; not completed and time 0 for a subtask; mode pomodoro, no objective, no task, no subtask ids and not completed for a pomodoro.
- **Failing reads.** Every read, single or listing, is modelled as answering. A store exception during a read, which the code turns into a 500 (for example task_service.py:61-66 and pomodoro_service.py:73-79), is not modelled. The `Reply` parameters cover writes only.
- Text.Lower: only the ASCII letters A–Z are lower-cased. JavaScript's `toLowerCase` and the store's case-insensitive match also fold other letters, such as accented capitals; that folding is not modelled, for the search or for the task-list filters.
- TaskService.UpdateTask and TaskService.ApplyTaskUpdate: an explicit null for `title`, `completed`, `category` or `time_spent` is not modelled; only `custom_category` can be sent as null. The schema accepts null for every field and it would be written, but the outcome depends on column constraints that are not part of this model.
- SubtaskService.UpdateSubtask and SubtaskService.ApplySubtaskUpdate: an explicit null for `title`, `completed` or `time_spent` is not modelled, for the same reason.
- PomodoroService.UpdatePomodoro and PomodoroService.ApplyPomodoroUpdate: an explicit null for `mode` or `subtask_ids` is not modelled, for the same reason; `objective` and `task_id` can be sent as null.
- **Timestamps.** `created_at` and `updated_at` are replaced by creation order. `started_at` is not set by any modelled operation.
- **Clocks.** The clock readings `datetime.utcnow` and `Date.now` are parameters (`now`).
- **Randomness.** The random draw `Math.random` is the `coin` parameter.
- **Deleting subtasks with their task.** The store deletes a task's subtasks along with it, by a cascade that the delete_task docstring mentions. This is modelled as the store's behaviour. The schema that declares the cascade is not part of this model.
- **Routing and the other front-end parts.** HTTP routing, status codes, error message texts, CORS middleware, health endpoints, the front-end fetch/cache/auth services, rendering and the presentational components are not part of this model.
- **Untyped input.** `subtask_ids` that is `None` is treated as the empty list. Requests that fail schema validation never reach the services, so the services take well-typed payloads.
- **Search wildcards.** `ilike` treats `%` and `_` as wildcards. The search is modelled as a plain case-insensitive substring.
- **Count header.** The store's count header (pomodoro_service.py:196) is modelled as the number of matching rows.
- **Floating point.** Percentages are exact reals.
- Statistics.CompletionPercentage: the `round(…, 2)` of statistics.py:41 is left out. The share is exact, so the stated bounds still hold.
- TaskList.FormatTime and PomodoroTimer.FormatClock: only defined for whole non-negative seconds. JavaScript's behaviour on negative or fractional numbers is not modelled.
- **Timer effects.** React effect scheduling, `setInterval` timing and the interval cleanup are reduced to the tick transition. The tick is only called while the timer runs.
- **Parent-state callbacks.** `onCurrentPomodoroChange`, called by the start, pause and mode handlers, is not modelled.
- **Unrelated components.** The objective editor and the pomodoro number of the timer component are not part of this model.
- **Other TaskList handlers.** `handleAddTask`, `handleCustomCategoryChange`, `handleTaskTitleChange`, `handleSelectForPomodoro` and the menu toggles are plain field assignments on one task. They are not modelled.
- **Environment settings.** Loading the settings from the environment is not modelled. Only `parse_cors_origins` is.
- **Task time in the back end.** The back end never updates a task's `time_spent` on completion; only subtasks are credited. The model keeps it that way. The front end instead recomputes the task's time from its subtasks (`App.CreditTask`).
- **Two pomodoro counts.** The per-task count in the statistics counts completed pomodoros of any mode. The total counts only work sessions. `Statistics.PerTaskCountIncludesBreaks` exhibits the difference.
- **Category values.** The category values are the Spanish strings "personal", "laboral" and "otro", as in the code.

## Findings

| source | as written | input that shows it | evidently intended | confidence | as-written member | corrected member |
|---|---|---|---|---|---|---|
| backend/app/services/pomodoro_service.py:152 | `complete_pomodoro` passes a plain dict `{"time_spent": …}` to `update_subtask`, which calls `.model_dump` on it outside any try block (subtask_service.py:94). The call raises before any write, so a work session with subtasks can never be completed and no subtask is credited. | a work-session pomodoro, duration 1500, listing one existing subtask with time 0, completed with no actual duration | the subtask is credited 1500 seconds and the pomodoro is marked completed | not executed | PomodoroService.CompleteAsWrittenFails | PomodoroService.CompletePomodoro |

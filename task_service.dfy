/** Task service: create, fetch (with subtasks attached), list with filters,
    partial update and delete, each checking existence before it acts. */
module TaskService {
  import opened Common
  import opened Text
  import opened Schemas
  import opened Store

  /** Python truthiness of an optional string filter: given and nonempty. */
  predicate Given(o: Option<string>) {
    o.Some? && o.value != ""
  }

  /** The subtasks of task `taskId`, oldest first: exactly the stored subtasks
      whose parent is `taskId`, in ascending creation order. */
  function SubtasksOf(subtasks: Table<SubtaskRow>, taskId: int): (r: seq<SubtaskRow>)
    requires SubtasksKeyed(subtasks)
    ensures forall i :: 0 <= i < |r| ==>
      r[i].taskId == taskId && r[i].id in subtasks.rows && subtasks.rows[r[i].id] == r[i]
    ensures forall id :: id in subtasks.rows && subtasks.rows[id].taskId == taskId ==>
      subtasks.rows[id] in r
    ensures forall i, j :: 0 <= i < j < |r| ==> r[i].id < r[j].id
    ensures (forall id :: id in subtasks.rows ==> subtasks.rows[id].taskId != taskId) ==> r == []
  {
    var p := (s: SubtaskRow) => s.taskId == taskId;
    SelectExact(subtasks, p, (s: SubtaskRow) => s.id);
    Filter(subtasks.Rows(), p)
  }

  /** `get_task_by_id`: the task with its subtasks, or NotFound. */
  function GetTaskById(db: Database, id: int): (r: Result<TaskResponse>)
    reads db
    requires db.Valid()
    ensures r.Err? <==> id !in db.tasks.rows
    ensures r.Err? ==> r.error == NotFound
    ensures r.Ok? ==> r.value.task == db.tasks.rows[id] && r.value.subtasks == SubtasksOf(db.subtasks, id)
  {
    if id !in db.tasks.rows then Err(NotFound)
    else Ok(TaskResponse(db.tasks.rows[id], SubtasksOf(db.subtasks, id)))
  }

  /** A task with no stored row has no subtasks (the store keeps every
      subtask's parent). */
  lemma NoSubtasksWithoutTask(db: Database, id: int)
    requires db.Valid() && id !in db.tasks.rows
    ensures SubtasksOf(db.subtasks, id) == []
  {
    assert forall sid :: sid in db.subtasks.rows ==> db.subtasks.rows[sid].taskId != id;
  }

  /** The list filter: by owner when a user id is given, by case-insensitive
      title substring when a search text is given. */
  predicate TaskMatches(t: TaskRow, userId: Option<string>, search: Option<string>) {
    && (Given(userId) ==> t.userId == userId)
    && (Given(search) ==> Contains(Lower(t.title), Lower(search.value)))
  }

  /** The rows `get_all_tasks` selects, newest first: exactly the stored
      tasks that match the filters, in descending creation order. */
  function ListedTasks(tasks: Table<TaskRow>, userId: Option<string>, search: Option<string>): (r: seq<TaskRow>)
    requires TasksKeyed(tasks)
    ensures forall i :: 0 <= i < |r| ==>
      TaskMatches(r[i], userId, search) && r[i].id in tasks.rows && tasks.rows[r[i].id] == r[i]
    ensures forall id :: id in tasks.rows && TaskMatches(tasks.rows[id], userId, search) ==>
      tasks.rows[id] in r
    ensures forall i, j :: 0 <= i < j < |r| ==> r[i].id > r[j].id
  {
    var p := (t: TaskRow) => TaskMatches(t, userId, search);
    SelectExactDescending(tasks, p, (t: TaskRow) => t.id);
    Reverse(Filter(tasks.Rows(), p))
  }

  /** With neither filter given every stored task is listed. */
  lemma ListingWithoutFiltersIsComplete(tasks: Table<TaskRow>, userId: Option<string>, search: Option<string>, id: int)
    requires TasksKeyed(tasks)
    requires !Given(userId) && !Given(search)
    requires id in tasks.rows
    ensures tasks.rows[id] in ListedTasks(tasks, userId, search)
  {
  }

  /** The answer of `get_all_tasks`: the listed rows, each with its subtasks
      attached. */
  function TasksWithSubtasks(db: Database, userId: Option<string>, search: Option<string>): (r: seq<TaskResponse>)
    reads db
    requires db.Valid()
    ensures |r| == |ListedTasks(db.tasks, userId, search)|
    ensures forall i :: 0 <= i < |r| ==>
      r[i].task == ListedTasks(db.tasks, userId, search)[i] && GetTaskById(db, r[i].task.id) == Ok(r[i])
  {
    var rows := ListedTasks(db.tasks, userId, search);
    var subtasks := db.subtasks;
    seq(|rows|, i requires 0 <= i < |rows| => TaskResponse(rows[i], SubtasksOf(subtasks, rows[i].id)))
  }

  /** `get_all_tasks`: one query for the rows, then one query per row for its
      subtasks. */
  method GetAllTasks(db: Database, userId: Option<string>, search: Option<string>) returns (r: seq<TaskResponse>)
    requires db.Valid()
    ensures r == TasksWithSubtasks(db, userId, search)
  {
    var rows := ListedTasks(db.tasks, userId, search);
    r := [];
    var i := 0;
    while i < |rows|
      invariant 0 <= i <= |rows|
      invariant |r| == i
      invariant forall k :: 0 <= k < i ==> r[k].task == rows[k] && r[k].subtasks == SubtasksOf(db.subtasks, rows[k].id)
    {
      r := r + [TaskResponse(rows[i], SubtasksOf(db.subtasks, rows[i].id))];
      i := i + 1;
    }
  }

  /** The row a create payload is stored as. */
  function NewTaskRow(id: int, p: TaskCreate): TaskRow {
    TaskRow(id, p.title, p.completed, p.category, p.customCategory, p.timeSpent, p.userId)
  }

  /** `create_task`. Every failure inside its `try`, including an empty
      insert answer, is re-wrapped as a generic failure. */
  method CreateTask(db: Database, p: TaskCreate, reply: Reply) returns (r: Result<TaskResponse>)
    requires db.Valid()
    modifies db
    ensures db.Valid()
    ensures reply != Written ==> r == Err(Failure) && unchanged(db)
    ensures reply == Written ==>
      && db.tasks == old(db.tasks).Insert(NewTaskRow(old(db.tasks.nextId), p))
      && db.subtasks == old(db.subtasks) && db.pomodoros == old(db.pomodoros)
      && db.distractions == old(db.distractions)
      && r == Ok(TaskResponse(NewTaskRow(old(db.tasks.nextId), p), []))
    ensures r.Ok? ==> r.value.task.id !in old(db.tasks.rows)
  {
    if reply != Written {
      return Err(Failure);
    }
    var id := db.tasks.nextId;
    NoSubtasksWithoutTask(db, id);
    db.tasks := db.tasks.Insert(NewTaskRow(id, p));
    var fetched := GetTaskById(db, id);
    match fetched {
      case Ok(t) => r := Ok(t);
      case Err(_) => r := Err(Failure);
    }
  }

  /** The stored row after a partial update: supplied fields replaced, every
      other field kept. */
  function ApplyTaskUpdate(row: TaskRow, u: TaskUpdate): (r: TaskRow)
    ensures r.id == row.id && r.userId == row.userId
    ensures r.title == u.title.GetOr(row.title) && r.completed == u.completed.GetOr(row.completed)
    ensures r.category == u.category.GetOr(row.category)
    ensures u.customCategory.Unset? ==> r.customCategory == row.customCategory
    ensures u.customCategory.Null? ==> r.customCategory == None
    ensures u.customCategory.Set? ==> r.customCategory == Some(u.customCategory.value)
    ensures r.timeSpent == u.timeSpent.GetOr(row.timeSpent)
    ensures IsEmptyTaskUpdate(u) ==> r == row
  {
    row.(title := u.title.GetOr(row.title),
         completed := u.completed.GetOr(row.completed),
         category := u.category.GetOr(row.category),
         customCategory := Patched(u.customCategory, row.customCategory),
         timeSpent := u.timeSpent.GetOr(row.timeSpent))
  }

  /** A payload whose only field is an explicit null custom category is not
      empty: it is written, and it clears the stored custom category. */
  lemma NullCustomCategoryClears(row: TaskRow)
    ensures !IsEmptyTaskUpdate(TaskUpdate(customCategory := Null))
    ensures ApplyTaskUpdate(row, TaskUpdate(customCategory := Null)) == row.(customCategory := None)
  {
  }

  /** Applying the same partial update twice is applying it once. */
  lemma ApplyTaskUpdateIdempotent(row: TaskRow, u: TaskUpdate)
    ensures ApplyTaskUpdate(ApplyTaskUpdate(row, u), u) == ApplyTaskUpdate(row, u)
  {
  }

  /** `update_task`: existence first, then an empty payload answers the
      current task without writing, else the supplied fields are written and
      the task re-fetched. */
  method UpdateTask(db: Database, id: int, u: TaskUpdate, reply: Reply) returns (r: Result<TaskResponse>)
    requires db.Valid()
    modifies db
    ensures db.Valid()
    ensures id !in old(db.tasks.rows) ==> r == Err(NotFound) && unchanged(db)
    ensures id in old(db.tasks.rows) && IsEmptyTaskUpdate(u) ==>
      unchanged(db) && r == old(GetTaskById(db, id))
    ensures id in old(db.tasks.rows) && !IsEmptyTaskUpdate(u) && reply == NoRows ==>
      unchanged(db) && r == Err(WriteFailed)
    ensures id in old(db.tasks.rows) && !IsEmptyTaskUpdate(u) && reply == Raised ==>
      unchanged(db) && r == Err(Failure)
    ensures id in old(db.tasks.rows) && !IsEmptyTaskUpdate(u) && reply == Written ==>
      && db.tasks == old(db.tasks).Put(id, ApplyTaskUpdate(old(db.tasks.rows[id]), u))
      && db.subtasks == old(db.subtasks) && db.pomodoros == old(db.pomodoros)
      && db.distractions == old(db.distractions)
      && r == GetTaskById(db, id)
  {
    var current := GetTaskById(db, id);
    if current.Err? {
      return Err(current.error);
    }
    if IsEmptyTaskUpdate(u) {
      return GetTaskById(db, id);
    }
    match reply {
      case Raised => r := Err(Failure);
      case NoRows => r := Err(WriteFailed);
      case Written =>
        db.tasks := db.tasks.Put(id, ApplyTaskUpdate(db.tasks.rows[id], u));
        r := GetTaskById(db, id);
    }
  }

  /** The ids of the subtasks of task `id`, which the store deletes with it. */
  function SubtaskIdsOf(subtasks: Table<SubtaskRow>, id: int): set<int> {
    set sid | sid in subtasks.rows && subtasks.rows[sid].taskId == id
  }

  /** Deleting a task together with its subtasks keeps every remaining
      subtask attached to a remaining task. */
  lemma CascadeKeepsSubtasksAttached(tasks: Table<TaskRow>, subtasks: Table<SubtaskRow>, id: int)
    requires TasksKeyed(tasks) && SubtasksKeyed(subtasks) && SubtasksBelong(tasks, subtasks)
    ensures TasksKeyed(tasks.RemoveAll({id}))
    ensures SubtasksKeyed(subtasks.RemoveAll(SubtaskIdsOf(subtasks, id)))
    ensures SubtasksBelong(tasks.RemoveAll({id}), subtasks.RemoveAll(SubtaskIdsOf(subtasks, id)))
  {
  }

  /** `delete_task`: existence first; the result of the delete itself is not
      inspected, so an empty answer still reports success. */
  method DeleteTask(db: Database, id: int, reply: Reply) returns (r: Result<bool>)
    requires db.Valid()
    modifies db
    ensures db.Valid()
    ensures id !in old(db.tasks.rows) ==> r == Err(NotFound) && unchanged(db)
    ensures id in old(db.tasks.rows) && reply == Raised ==> r == Err(Failure) && unchanged(db)
    ensures id in old(db.tasks.rows) && reply == NoRows ==> r == Ok(true) && unchanged(db)
    ensures id in old(db.tasks.rows) && reply == Written ==>
      && r == Ok(true)
      && db.tasks == old(db.tasks).RemoveAll({id})
      && db.subtasks == old(db.subtasks).RemoveAll(SubtaskIdsOf(old(db.subtasks), id))
      && db.pomodoros == old(db.pomodoros) && db.distractions == old(db.distractions)
  {
    var current := GetTaskById(db, id);
    if current.Err? {
      return Err(current.error);
    }
    match reply {
      case Raised => r := Err(Failure);
      case NoRows => r := Ok(true);
      case Written =>
        CascadeKeepsSubtasksAttached(db.tasks, db.subtasks, id);
        db.subtasks := db.subtasks.RemoveAll(SubtaskIdsOf(db.subtasks, id));
        db.tasks := db.tasks.RemoveAll({id});
        r := Ok(true);
    }
  }
}

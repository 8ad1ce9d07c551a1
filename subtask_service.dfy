/** Subtask service: create under an existing task, fetch, list a task's
    subtasks oldest first, partial update and delete. */
module SubtaskService {
  import opened Common
  import opened Schemas
  import opened Store
  import TaskService

  /** `get_subtask_by_id`: the stored subtask, or NotFound. */
  function GetSubtaskById(db: Database, id: int): (r: Result<SubtaskRow>)
    reads db
    requires db.Valid()
    ensures r.Err? <==> id !in db.subtasks.rows
    ensures r.Err? ==> r.error == NotFound
    ensures r.Ok? ==> r.value == db.subtasks.rows[id] && r.value.id == id
  {
    if id !in db.subtasks.rows then Err(NotFound) else Ok(db.subtasks.rows[id])
  }

  /** `get_subtasks_by_task_id`: NotFound when the task is absent, else
      exactly its subtasks, oldest first. */
  function GetSubtasksByTaskId(db: Database, taskId: int): (r: Result<seq<SubtaskRow>>)
    reads db
    requires db.Valid()
    ensures r.Err? <==> taskId !in db.tasks.rows
    ensures r.Err? ==> r.error == NotFound
    ensures r.Ok? ==> forall i :: 0 <= i < |r.value| ==>
      r.value[i].taskId == taskId && GetSubtaskById(db, r.value[i].id) == Ok(r.value[i])
    ensures r.Ok? ==> forall id :: id in db.subtasks.rows && db.subtasks.rows[id].taskId == taskId ==>
      db.subtasks.rows[id] in r.value
    ensures r.Ok? ==> forall i, j :: 0 <= i < j < |r.value| ==> r.value[i].id < r.value[j].id
  {
    if taskId !in db.tasks.rows then Err(NotFound)
    else Ok(TaskService.SubtasksOf(db.subtasks, taskId))
  }

  /** The list a task's fetch carries is the list of its subtasks. */
  lemma TaskFetchCarriesItsSubtasks(db: Database, taskId: int)
    requires db.Valid()
    ensures TaskService.GetTaskById(db, taskId).Ok? <==> GetSubtasksByTaskId(db, taskId).Ok?
    ensures TaskService.GetTaskById(db, taskId).Ok? ==>
      TaskService.GetTaskById(db, taskId).value.subtasks == GetSubtasksByTaskId(db, taskId).value
  {
  }

  /** The row a create payload is stored as. */
  function NewSubtaskRow(id: int, p: SubtaskCreate): SubtaskRow {
    SubtaskRow(id, p.taskId, p.title, p.completed, p.timeSpent)
  }

  /** `create_subtask`: the parent task must exist; an empty insert answer
      is a write failure, any other store error a generic failure. */
  method CreateSubtask(db: Database, p: SubtaskCreate, reply: Reply) returns (r: Result<SubtaskRow>)
    requires db.Valid()
    modifies db
    ensures db.Valid()
    ensures p.taskId !in old(db.tasks.rows) ==> r == Err(NotFound) && unchanged(db)
    ensures p.taskId in old(db.tasks.rows) && reply == NoRows ==> r == Err(WriteFailed) && unchanged(db)
    ensures p.taskId in old(db.tasks.rows) && reply == Raised ==> r == Err(Failure) && unchanged(db)
    ensures p.taskId in old(db.tasks.rows) && reply == Written ==>
      && db.subtasks == old(db.subtasks).Insert(NewSubtaskRow(old(db.subtasks.nextId), p))
      && db.tasks == old(db.tasks) && db.pomodoros == old(db.pomodoros)
      && db.distractions == old(db.distractions)
      && r == Ok(NewSubtaskRow(old(db.subtasks.nextId), p))
  {
    if p.taskId !in db.tasks.rows {
      return Err(NotFound);
    }
    match reply {
      case Raised => r := Err(Failure);
      case NoRows => r := Err(WriteFailed);
      case Written =>
        var row := NewSubtaskRow(db.subtasks.nextId, p);
        db.subtasks := db.subtasks.Insert(row);
        r := Ok(row);
    }
  }

  /** The stored subtask after a partial update: supplied fields replaced,
      identity and parent kept. */
  function ApplySubtaskUpdate(row: SubtaskRow, u: SubtaskUpdate): (r: SubtaskRow)
    ensures r.id == row.id && r.taskId == row.taskId
    ensures r.title == u.title.GetOr(row.title)
    ensures r.completed == u.completed.GetOr(row.completed)
    ensures r.timeSpent == u.timeSpent.GetOr(row.timeSpent)
    ensures IsEmptySubtaskUpdate(u) ==> r == row
  {
    row.(title := u.title.GetOr(row.title),
         completed := u.completed.GetOr(row.completed),
         timeSpent := u.timeSpent.GetOr(row.timeSpent))
  }

  /** A later update overrides an earlier one field by field. */
  lemma ApplySubtaskUpdateOverrides(row: SubtaskRow, u: SubtaskUpdate, v: SubtaskUpdate)
    requires v.title.Some? && v.completed.Some? && v.timeSpent.Some?
    ensures ApplySubtaskUpdate(ApplySubtaskUpdate(row, u), v) == ApplySubtaskUpdate(row, v)
  {
  }

  /** `update_subtask`: existence first, then an empty payload answers the
      current subtask without writing, else the supplied fields are written
      and the written row is answered. */
  method UpdateSubtask(db: Database, id: int, u: SubtaskUpdate, reply: Reply) returns (r: Result<SubtaskRow>)
    requires db.Valid()
    modifies db
    ensures db.Valid()
    ensures id !in old(db.subtasks.rows) ==> r == Err(NotFound) && unchanged(db)
    ensures id in old(db.subtasks.rows) && IsEmptySubtaskUpdate(u) ==>
      unchanged(db) && r == Ok(old(db.subtasks.rows[id]))
    ensures id in old(db.subtasks.rows) && !IsEmptySubtaskUpdate(u) && reply == NoRows ==>
      unchanged(db) && r == Err(WriteFailed)
    ensures id in old(db.subtasks.rows) && !IsEmptySubtaskUpdate(u) && reply == Raised ==>
      unchanged(db) && r == Err(Failure)
    ensures id in old(db.subtasks.rows) && !IsEmptySubtaskUpdate(u) && reply == Written ==>
      && db.subtasks == old(db.subtasks).Put(id, ApplySubtaskUpdate(old(db.subtasks.rows[id]), u))
      && db.tasks == old(db.tasks) && db.pomodoros == old(db.pomodoros)
      && db.distractions == old(db.distractions)
      && r == Ok(ApplySubtaskUpdate(old(db.subtasks.rows[id]), u))
  {
    var current := GetSubtaskById(db, id);
    if current.Err? {
      return Err(current.error);
    }
    if IsEmptySubtaskUpdate(u) {
      return GetSubtaskById(db, id);
    }
    match reply {
      case Raised => r := Err(Failure);
      case NoRows => r := Err(WriteFailed);
      case Written =>
        var row := ApplySubtaskUpdate(current.value, u);
        db.subtasks := db.subtasks.Put(id, row);
        r := Ok(row);
    }
  }

  /** `delete_subtask`: existence first; the delete's answer is not
      inspected, so an empty answer still reports success. */
  method DeleteSubtask(db: Database, id: int, reply: Reply) returns (r: Result<bool>)
    requires db.Valid()
    modifies db
    ensures db.Valid()
    ensures id !in old(db.subtasks.rows) ==> r == Err(NotFound) && unchanged(db)
    ensures id in old(db.subtasks.rows) && reply == Raised ==> r == Err(Failure) && unchanged(db)
    ensures id in old(db.subtasks.rows) && reply == NoRows ==> r == Ok(true) && unchanged(db)
    ensures id in old(db.subtasks.rows) && reply == Written ==>
      && r == Ok(true)
      && db.subtasks == old(db.subtasks).RemoveAll({id})
      && db.tasks == old(db.tasks) && db.pomodoros == old(db.pomodoros)
      && db.distractions == old(db.distractions)
  {
    var current := GetSubtaskById(db, id);
    if current.Err? {
      return Err(current.error);
    }
    match reply {
      case Raised => r := Err(Failure);
      case NoRows => r := Ok(true);
      case Written =>
        db.subtasks := db.subtasks.RemoveAll({id});
        r := Ok(true);
    }
  }
}

/** Distraction service: the after-session questionnaire. Records are only
    ever appended and read; there is no update or delete. */
module DistractionService {
  import opened Common
  import opened Schemas
  import opened Store
  import TaskService
  import PomodoroService

  /** The row a create payload is stored as. */
  function NewDistractionRow(id: int, p: DistractionCreate): DistractionRow {
    DistractionRow(id, p.pomodoroId, p.hadDistractions, p.usedPhone, p.userId)
  }

  /** `create_distraction`: the pomodoro must exist; the record is appended
      and every earlier record is kept as it was. */
  method CreateDistraction(db: Database, p: DistractionCreate, reply: Reply) returns (r: Result<DistractionRow>)
    requires db.Valid()
    modifies db
    ensures db.Valid()
    ensures p.pomodoroId !in old(db.pomodoros.rows) ==> r == Err(NotFound) && unchanged(db)
    ensures p.pomodoroId in old(db.pomodoros.rows) && reply == NoRows ==> r == Err(WriteFailed) && unchanged(db)
    ensures p.pomodoroId in old(db.pomodoros.rows) && reply == Raised ==> r == Err(Failure) && unchanged(db)
    ensures p.pomodoroId in old(db.pomodoros.rows) && reply == Written ==>
      && db.distractions == old(db.distractions).Insert(NewDistractionRow(old(db.distractions.nextId), p))
      && db.tasks == old(db.tasks) && db.subtasks == old(db.subtasks) && db.pomodoros == old(db.pomodoros)
      && r == Ok(NewDistractionRow(old(db.distractions.nextId), p))
    ensures forall id :: id in old(db.distractions.rows) ==>
      id in db.distractions.rows && db.distractions.rows[id] == old(db.distractions.rows[id])
  {
    var pomodoro := PomodoroService.GetPomodoroById(db, p.pomodoroId);
    if pomodoro.Err? {
      return Err(pomodoro.error);
    }
    match reply {
      case Raised => r := Err(Failure);
      case NoRows => r := Err(WriteFailed);
      case Written =>
        var row := NewDistractionRow(db.distractions.nextId, p);
        db.distractions := db.distractions.Insert(row);
        r := Ok(row);
    }
  }

  /** `get_distraction_by_id`: the stored record, or NotFound. */
  function GetDistractionById(db: Database, id: int): (r: Result<DistractionRow>)
    reads db
    requires db.Valid()
    ensures r.Err? <==> id !in db.distractions.rows
    ensures r.Err? ==> r.error == NotFound
    ensures r.Ok? ==> r.value == db.distractions.rows[id] && r.value.id == id
  {
    if id !in db.distractions.rows then Err(NotFound) else Ok(db.distractions.rows[id])
  }

  /** `get_distractions_by_pomodoro_id`: NotFound when the pomodoro is
      absent, else exactly its records, newest first. */
  function GetDistractionsByPomodoroId(db: Database, pomodoroId: int): (r: Result<seq<DistractionRow>>)
    reads db
    requires db.Valid()
    ensures r.Err? <==> pomodoroId !in db.pomodoros.rows
    ensures r.Err? ==> r.error == NotFound
    ensures r.Ok? ==> forall i :: 0 <= i < |r.value| ==>
      r.value[i].pomodoroId == pomodoroId && GetDistractionById(db, r.value[i].id) == Ok(r.value[i])
    ensures r.Ok? ==> forall id :: id in db.distractions.rows && db.distractions.rows[id].pomodoroId == pomodoroId ==>
      db.distractions.rows[id] in r.value
    ensures r.Ok? ==> forall i, j :: 0 <= i < j < |r.value| ==> r.value[i].id > r.value[j].id
  {
    if pomodoroId !in db.pomodoros.rows then Err(NotFound)
    else
      var p := (x: DistractionRow) => x.pomodoroId == pomodoroId;
      SelectExactDescending(db.distractions, p, (x: DistractionRow) => x.id);
      Ok(Reverse(Filter(db.distractions.Rows(), p)))
  }

  /** `get_all_distractions`: exactly the stored records of the owner when
      one is given (all records otherwise), newest first. */
  function GetAllDistractions(db: Database, userId: Option<string>): (r: seq<DistractionRow>)
    reads db
    requires db.Valid()
    ensures forall i :: 0 <= i < |r| ==>
      (TaskService.Given(userId) ==> r[i].userId == userId) && GetDistractionById(db, r[i].id) == Ok(r[i])
    ensures forall id :: id in db.distractions.rows && (TaskService.Given(userId) ==> db.distractions.rows[id].userId == userId) ==>
      db.distractions.rows[id] in r
    ensures forall i, j :: 0 <= i < j < |r| ==> r[i].id > r[j].id
  {
    var p := (x: DistractionRow) => TaskService.Given(userId) ==> x.userId == userId;
    SelectExactDescending(db.distractions, p, (x: DistractionRow) => x.id);
    Reverse(Filter(db.distractions.Rows(), p))
  }

  /** Appending a record puts it first in the newest-first listing of its
      pomodoro. */
  lemma {:induction false} NewestFirst(distractions: Table<DistractionRow>, p: DistractionCreate)
    requires DistractionsKeyed(distractions)
    ensures var after := distractions.Insert(NewDistractionRow(distractions.nextId, p));
      var q := (x: DistractionRow) => x.pomodoroId == p.pomodoroId;
      Reverse(Filter(after.Rows(), q)) == [NewDistractionRow(distractions.nextId, p)] + Reverse(Filter(distractions.Rows(), q))
  {
    var row := NewDistractionRow(distractions.nextId, p);
    var after := distractions.Insert(row);
    var q := (x: DistractionRow) => x.pomodoroId == p.pomodoroId;
    assert after.Rows() == distractions.Rows() + [row];
    FilterAppend(distractions.Rows(), row, q);
    var f := Filter(distractions.Rows(), q);
    assert Reverse(f + [row]) == [row] + Reverse(f);
  }
}

/** Pomodoro service: create with a mode-dependent default duration, fetch,
    list with filters, partial update, completion (which adds the session's
    time to each of its subtasks) and the count of completed work sessions. */
module PomodoroService {
  import opened Common
  import opened Schemas
  import opened Store
  import TaskService
  import SubtaskService

  // --------------------------------------------------------------- create

  /** The default length in seconds of a session of the given mode; an unset
      mode counts as a work session. */
  function DefaultDuration(mode: Option<PomodoroMode>): (d: int)
    ensures d > 0 && d % 60 == 0
  {
    match mode
    case None => 1500
    case Some(Pomodoro) => 1500
    case Some(ShortBreak) => 300
    case Some(LongBreak) => 900
  }

  /** Work sessions default to 25 minutes, short breaks to 5, long breaks to 15,
      and a short break is shorter than a long one, which is shorter than a
      work session. */
  lemma DefaultDurationsInMinutes()
    ensures DefaultDuration(None) == DefaultDuration(Some(Pomodoro)) == 25 * 60
    ensures DefaultDuration(Some(ShortBreak)) == 5 * 60
    ensures DefaultDuration(Some(LongBreak)) == 15 * 60
    ensures DefaultDuration(Some(ShortBreak)) < DefaultDuration(Some(LongBreak)) < DefaultDuration(Some(Pomodoro))
  {
  }

  /** The duration a new pomodoro is stored with: the given one when it is
      truthy (given and nonzero), else the default for its mode. Never zero. */
  function InitialDuration(p: PomodoroCreate): (d: int)
    ensures d != 0
    ensures p.duration.Some? && p.duration.value != 0 ==> d == p.duration.value
    ensures !(p.duration.Some? && p.duration.value != 0) ==> d == DefaultDuration(p.mode) && d > 0
  {
    if p.duration.Some? && p.duration.value != 0 then p.duration.value else DefaultDuration(p.mode)
  }

  /** A truthy task reference: given and nonzero. Only such a reference is
      checked for existence. */
  predicate RefersToTask(taskId: Option<int>) {
    taskId.Some? && taskId.value != 0
  }

  /** The row a create payload is stored as: not completed, no timestamps. */
  function NewPomodoroRow(id: int, p: PomodoroCreate): (r: PomodoroRow)
    ensures r.id == id && !r.completed && r.completedAt.None? && r.duration == InitialDuration(p)
    ensures r.mode == p.mode.GetOr(Pomodoro) && r.subtaskIds == p.subtaskIds && r.taskId == p.taskId
  {
    PomodoroRow(id, p.mode.GetOr(Pomodoro), p.objective, p.taskId, p.subtaskIds,
                InitialDuration(p), false, None, None, p.userId)
  }

  /** A pomodoro created without mode or duration is stored as a 25-minute
      work session: the duration from the work session's default, the mode
      from the store's column default, taken to be a work session. */
  lemma OmittedModeAndDuration(id: int)
    ensures NewPomodoroRow(id, PomodoroCreate()).mode == Pomodoro
    ensures NewPomodoroRow(id, PomodoroCreate()).duration == 1500
  {
  }

  /** `create_pomodoro`: a truthy task reference must name a stored task. */
  method CreatePomodoro(db: Database, p: PomodoroCreate, reply: Reply) returns (r: Result<PomodoroRow>)
    requires db.Valid()
    modifies db
    ensures db.Valid()
    ensures RefersToTask(p.taskId) && p.taskId.value !in old(db.tasks.rows) ==> r == Err(NotFound) && unchanged(db)
    ensures !(RefersToTask(p.taskId) && p.taskId.value !in old(db.tasks.rows)) ==>
      && (reply == NoRows ==> r == Err(WriteFailed) && unchanged(db))
      && (reply == Raised ==> r == Err(Failure) && unchanged(db))
      && (reply == Written ==>
            && db.pomodoros == old(db.pomodoros).Insert(NewPomodoroRow(old(db.pomodoros.nextId), p))
            && db.tasks == old(db.tasks) && db.subtasks == old(db.subtasks)
            && db.distractions == old(db.distractions)
            && r == Ok(NewPomodoroRow(old(db.pomodoros.nextId), p)))
  {
    if RefersToTask(p.taskId) {
      var task := TaskService.GetTaskById(db, p.taskId.value);
      if task.Err? {
        return Err(task.error);
      }
    }
    match reply {
      case Raised => r := Err(Failure);
      case NoRows => r := Err(WriteFailed);
      case Written =>
        var row := NewPomodoroRow(db.pomodoros.nextId, p);
        db.pomodoros := db.pomodoros.Insert(row);
        r := Ok(row);
    }
  }

  // ---------------------------------------------------------------- reads

  /** `get_pomodoro_by_id`: the stored pomodoro, or NotFound. */
  function GetPomodoroById(db: Database, id: int): (r: Result<PomodoroRow>)
    reads db
    requires db.Valid()
    ensures r.Err? <==> id !in db.pomodoros.rows
    ensures r.Err? ==> r.error == NotFound
    ensures r.Ok? ==> r.value == db.pomodoros.rows[id] && r.value.id == id && r.value.duration != 0
  {
    if id !in db.pomodoros.rows then Err(NotFound) else Ok(db.pomodoros.rows[id])
  }

  /** The list filter: by owner when a user id is given, by completion state
      when one is given (`False` is a filter too). */
  predicate PomodoroMatches(p: PomodoroRow, userId: Option<string>, completed: Option<bool>) {
    && (TaskService.Given(userId) ==> p.userId == userId)
    && (completed.Some? ==> p.completed == completed.value)
  }

  /** `get_all_pomodoros`: exactly the stored pomodoros that match the
      filters, newest first. */
  function GetAllPomodoros(db: Database, userId: Option<string>, completed: Option<bool>): (r: seq<PomodoroRow>)
    reads db
    requires db.Valid()
    ensures forall i :: 0 <= i < |r| ==>
      PomodoroMatches(r[i], userId, completed) && GetPomodoroById(db, r[i].id) == Ok(r[i])
    ensures forall id :: id in db.pomodoros.rows && PomodoroMatches(db.pomodoros.rows[id], userId, completed) ==>
      db.pomodoros.rows[id] in r
    ensures forall i, j :: 0 <= i < j < |r| ==> r[i].id > r[j].id
  {
    var p := (x: PomodoroRow) => PomodoroMatches(x, userId, completed);
    SelectExactDescending(db.pomodoros, p, (x: PomodoroRow) => x.id);
    Reverse(Filter(db.pomodoros.Rows(), p))
  }

  // --------------------------------------------------------------- update

  /** The stored pomodoro after a partial update: supplied fields replaced;
      duration, completion state and timestamps are out of an update's reach. */
  function ApplyPomodoroUpdate(row: PomodoroRow, u: PomodoroUpdate): (r: PomodoroRow)
    ensures r.id == row.id && r.userId == row.userId
    ensures r.duration == row.duration && r.completed == row.completed
    ensures r.startedAt == row.startedAt && r.completedAt == row.completedAt
    ensures r.mode == u.mode.GetOr(row.mode) && r.subtaskIds == u.subtaskIds.GetOr(row.subtaskIds)
    ensures u.objective.Unset? ==> r.objective == row.objective
    ensures u.objective.Null? ==> r.objective == None
    ensures u.objective.Set? ==> r.objective == Some(u.objective.value)
    ensures u.taskId.Unset? ==> r.taskId == row.taskId
    ensures u.taskId.Null? ==> r.taskId == None
    ensures u.taskId.Set? ==> r.taskId == Some(u.taskId.value)
    ensures IsEmptyPomodoroUpdate(u) ==> r == row
  {
    row.(mode := u.mode.GetOr(row.mode),
         objective := Patched(u.objective, row.objective),
         taskId := Patched(u.taskId, row.taskId),
         subtaskIds := u.subtaskIds.GetOr(row.subtaskIds))
  }

  /** A payload whose only field is an explicit null task is not empty: it is
      written, and it detaches the pomodoro from its task. */
  lemma NullTaskDetaches(row: PomodoroRow)
    ensures !IsEmptyPomodoroUpdate(PomodoroUpdate(taskId := Null))
    ensures ApplyPomodoroUpdate(row, PomodoroUpdate(taskId := Null)) == row.(taskId := None)
  {
  }

  /** `update_pomodoro`: existence first, then an empty payload answers the
      current pomodoro without writing, else the supplied fields are written
      and the written row is answered. */
  method UpdatePomodoro(db: Database, id: int, u: PomodoroUpdate, reply: Reply) returns (r: Result<PomodoroRow>)
    requires db.Valid()
    modifies db
    ensures db.Valid()
    ensures id !in old(db.pomodoros.rows) ==> r == Err(NotFound) && unchanged(db)
    ensures id in old(db.pomodoros.rows) && IsEmptyPomodoroUpdate(u) ==>
      unchanged(db) && r == Ok(old(db.pomodoros.rows[id]))
    ensures id in old(db.pomodoros.rows) && !IsEmptyPomodoroUpdate(u) && reply == NoRows ==>
      unchanged(db) && r == Err(WriteFailed)
    ensures id in old(db.pomodoros.rows) && !IsEmptyPomodoroUpdate(u) && reply == Raised ==>
      unchanged(db) && r == Err(Failure)
    ensures id in old(db.pomodoros.rows) && !IsEmptyPomodoroUpdate(u) && reply == Written ==>
      && db.pomodoros == old(db.pomodoros).Put(id, ApplyPomodoroUpdate(old(db.pomodoros.rows[id]), u))
      && db.tasks == old(db.tasks) && db.subtasks == old(db.subtasks)
      && db.distractions == old(db.distractions)
      && r == Ok(ApplyPomodoroUpdate(old(db.pomodoros.rows[id]), u))
  {
    var current := GetPomodoroById(db, id);
    if current.Err? {
      return Err(current.error);
    }
    if IsEmptyPomodoroUpdate(u) {
      return current;
    }
    match reply {
      case Raised => r := Err(Failure);
      case NoRows => r := Err(WriteFailed);
      case Written =>
        var row := ApplyPomodoroUpdate(current.value, u);
        db.pomodoros := db.pomodoros.Put(id, row);
        r := Ok(row);
    }
  }

  // ------------------------------------------------------------- complete

  /** Python truthiness of an optional number: given and nonzero. */
  predicate Truthy(o: Option<int>) {
    o.Some? && o.value != 0
  }

  /** The time credited to each subtask: the actual duration when truthy,
      else the stored duration when nonzero, else 25 minutes. Never zero. */
  function DurationToAdd(actual: Option<int>, stored: int): (d: int)
    ensures d != 0
    ensures Truthy(actual) ==> d == actual.value
    ensures !Truthy(actual) && stored != 0 ==> d == stored
    ensures !Truthy(actual) && stored == 0 ==> d == DefaultDuration(Some(Pomodoro))
  {
    if Truthy(actual) then actual.value else if stored != 0 then stored else 1500
  }

  /** Stored pomodoros always have a nonzero duration, so the 25-minute
      fallback is never used for one of them. */
  lemma StoredDurationIsUsed(db: Database, id: int, actual: Option<int>)
    requires db.Valid() && id in db.pomodoros.rows
    ensures !Truthy(actual) ==> DurationToAdd(actual, db.pomodoros.rows[id].duration) == db.pomodoros.rows[id].duration
  {
  }

  /** Only a work session with subtasks credits time to them. */
  predicate CreditsSubtasks(p: PomodoroRow) {
    p.mode == Pomodoro && p.subtaskIds != []
  }

  /** The subtasks table after crediting, and the error that ended the
      crediting early, if any. */
  datatype Propagation = Propagation(subtasks: Table<SubtaskRow>, stop: Option<Error>)

  /** The error a failed store write is answered with. */
  function WriteError(reply: Reply): Error
    requires reply != Written
  {
    if reply == NoRows then WriteFailed else Failure
  }

  /** The `i`-th listed subtask is stored and the store accepts its write;
      `writes(i)` is the store's answer to that write. */
  predicate Goes(keys: set<int>, ids: seq<int>, writes: nat -> Reply, i: nat) {
    i < |ids| && ids[i] in keys && writes(i) == Written
  }

  /** The index of the first listed subtask, from `from` on, that is missing
      or whose write fails; the length of the list when there is none. */
  function FirstStop(keys: set<int>, ids: seq<int>, writes: nat -> Reply, from: nat): (k: nat)
    requires from <= |ids|
    ensures from <= k <= |ids|
    ensures forall i :: from <= i < k ==> Goes(keys, ids, writes, i)
    ensures k < |ids| ==> !Goes(keys, ids, writes, k)
    decreases |ids| - from
  {
    if from == |ids| || !Goes(keys, ids, writes, from) then from
    else FirstStop(keys, ids, writes, from + 1)
  }

  /** One subtask credited with `d` seconds; nothing else changes. */
  function Credit(t: Table<SubtaskRow>, sid: int, d: int): (r: Table<SubtaskRow>)
    requires SubtasksKeyed(t) && sid in t.rows
    ensures SubtasksKeyed(r) && r.rows.Keys == t.rows.Keys
    ensures r.order == t.order && r.nextId == t.nextId
    ensures r.rows == t.rows[sid := t.rows[sid].(timeSpent := t.rows[sid].timeSpent + d)]
  {
    t.Put(sid, t.rows[sid].(timeSpent := t.rows[sid].timeSpent + d))
  }

  /** Crediting the listed subtasks in order, stopping at the first id that
      is not stored (NotFound) or whose write the store does not accept
      (WriteFailed or Failure); the subtasks credited before it stay
      credited. */
  function Propagate(t: Table<SubtaskRow>, ids: seq<int>, writes: nat -> Reply, d: int): (r: Propagation)
    requires SubtasksKeyed(t)
    ensures SubtasksKeyed(r.subtasks) && r.subtasks.rows.Keys == t.rows.Keys
    ensures r.subtasks.order == t.order && r.subtasks.nextId == t.nextId
  {
    if ids == [] then Propagation(t, None)
    else
      var n := |ids| - 1;
      var before := Propagate(t, ids[..n], writes, d);
      if before.stop.Some? then before
      else if ids[n] !in before.subtasks.rows then Propagation(before.subtasks, Some(NotFound))
      else if writes(n) != Written then Propagation(before.subtasks, Some(WriteError(writes(n))))
      else Propagation(Credit(before.subtasks, ids[n], d), None)
  }

  /** Crediting goes through exactly when every listed id is stored and
      every write is accepted. */
  lemma {:induction false} PropagateCompletes(t: Table<SubtaskRow>, ids: seq<int>, writes: nat -> Reply, d: int)
    requires SubtasksKeyed(t)
    ensures Propagate(t, ids, writes, d).stop.None? <==>
      forall i :: 0 <= i < |ids| ==> Goes(t.rows.Keys, ids, writes, i)
  {
    if ids != [] {
      var n := |ids| - 1;
      var init := ids[..n];
      PropagateCompletes(t, init, writes, d);
      assert forall i :: 0 <= i < |init| ==> (Goes(t.rows.Keys, init, writes, i) <==> Goes(t.rows.Keys, ids, writes, i));
      var before := Propagate(t, init, writes, d);
      assert before.stop.None? ==>
        (Propagate(t, ids, writes, d).stop.None? <==> Goes(t.rows.Keys, ids, writes, n));
    }
  }

  /** When crediting stops, it stops at the first listed id that is missing
      or whose write fails: the ids before it were all credited, and the
      error names what went wrong with it. */
  lemma PropagateStopsAt(t: Table<SubtaskRow>, ids: seq<int>, writes: nat -> Reply, d: int)
    requires SubtasksKeyed(t)
    ensures var k := FirstStop(t.rows.Keys, ids, writes, 0);
      k < |ids| ==>
        && Propagate(t, ids[..k], writes, d).stop.None?
        && Propagate(t, ids, writes, d) ==
             Propagation(Propagate(t, ids[..k], writes, d).subtasks,
                         Some(if ids[k] in t.rows then WriteError(writes(k)) else NotFound))
  {
    var k := FirstStop(t.rows.Keys, ids, writes, 0);
    if k < |ids| {
      var prefix := ids[..k];
      assert forall i :: 0 <= i < |prefix| ==> (Goes(t.rows.Keys, prefix, writes, i) <==> Goes(t.rows.Keys, ids, writes, i));
      PropagateCompletes(t, prefix, writes, d);
      PropagateHalts(t, ids, writes, k, d, Propagate(t, prefix, writes, d).subtasks);
    }
  }

  /** When crediting goes through, each subtask gains `d` once per listing
      of its id, and nothing else about any subtask changes. */
  lemma {:induction false} PropagateCredits(t: Table<SubtaskRow>, ids: seq<int>, writes: nat -> Reply, d: int, sid: int)
    requires SubtasksKeyed(t) && sid in t.rows
    requires Propagate(t, ids, writes, d).stop.None?
    ensures Propagate(t, ids, writes, d).subtasks.rows[sid]
      == t.rows[sid].(timeSpent := t.rows[sid].timeSpent + d * Occurrences(ids, sid))
  {
    if ids != [] {
      var init, last := ids[..|ids| - 1], ids[|ids| - 1];
      var before := Propagate(t, init, writes, d);
      PropagateLast(t, ids, writes, d);
      PropagateCredits(t, init, writes, d, sid);
      var n := Occurrences(init, sid);
      var m := n + (if last == sid then 1 else 0);
      assert Occurrences(ids, sid) == m;
      CreditOne(before.subtasks, last, d, sid, t.rows[sid], n, m);
    } else {
      ScaleNext(d, 0);
    }
  }

  /** The last listed id is credited on top of the ones before it. */
  lemma PropagateLast(t: Table<SubtaskRow>, ids: seq<int>, writes: nat -> Reply, d: int)
    requires SubtasksKeyed(t) && ids != [] && Propagate(t, ids, writes, d).stop.None?
    ensures var before := Propagate(t, ids[..|ids| - 1], writes, d);
      && before.stop.None? && ids[|ids| - 1] in before.subtasks.rows
      && Propagate(t, ids, writes, d).subtasks == Credit(before.subtasks, ids[|ids| - 1], d)
  {
  }

  /** Crediting `last` to a table where `sid` already carries `n` credits
      adds one more credit to `sid` exactly when it is `last`. */
  lemma CreditOne(u: Table<SubtaskRow>, last: int, d: int, sid: int, row: SubtaskRow, n: nat, m: nat)
    requires SubtasksKeyed(u) && last in u.rows && sid in u.rows
    requires u.rows[sid] == row.(timeSpent := row.timeSpent + d * n)
    requires m == n + if last == sid then 1 else 0
    ensures Credit(u, last, d).rows[sid] == row.(timeSpent := row.timeSpent + d * m)
  {
    ScaleNext(d, n);
  }

  /** One more listing adds one more `d`. */
  lemma ScaleNext(d: int, n: int)
    ensures d * (n + 1) == d * n + d && d * 0 == 0
  {
  }

  /** Once crediting has stopped, later ids change nothing. */
  lemma {:induction false} PropagateStopped(t: Table<SubtaskRow>, ids: seq<int>, writes: nat -> Reply, k: nat, d: int)
    requires SubtasksKeyed(t) && k <= |ids|
    requires Propagate(t, ids[..k], writes, d).stop.Some?
    ensures Propagate(t, ids, writes, d) == Propagate(t, ids[..k], writes, d)
    decreases |ids| - k
  {
    if k < |ids| {
      assert ids[..|ids| - 1][..k] == ids[..k];
      PropagateStopped(t, ids[..|ids| - 1], writes, k, d);
    } else {
      assert ids[..k] == ids;
    }
  }

  /** One more id of the list credited. */
  lemma PropagateExtend(t: Table<SubtaskRow>, ids: seq<int>, writes: nat -> Reply, i: nat, d: int, cur: Table<SubtaskRow>)
    requires SubtasksKeyed(t) && i < |ids|
    requires Propagate(t, ids[..i], writes, d) == Propagation(cur, None)
    requires ids[i] in cur.rows && writes(i) == Written
    ensures Propagate(t, ids[..i + 1], writes, d) == Propagation(Credit(cur, ids[i], d), None)
  {
    assert ids[..i + 1][..i] == ids[..i];
  }

  /** A missing id or a refused write ends the crediting where it stands. */
  lemma PropagateHalts(t: Table<SubtaskRow>, ids: seq<int>, writes: nat -> Reply, i: nat, d: int, cur: Table<SubtaskRow>)
    requires SubtasksKeyed(t) && i < |ids|
    requires Propagate(t, ids[..i], writes, d) == Propagation(cur, None)
    requires !(ids[i] in cur.rows && writes(i) == Written)
    ensures Propagate(t, ids, writes, d)
      == Propagation(cur, Some(if ids[i] in cur.rows then WriteError(writes(i)) else NotFound))
  {
    assert ids[..i + 1][..i] == ids[..i];
    PropagateStopped(t, ids, writes, i + 1, d);
  }

  /** The pomodoro marked complete at `now`; a truthy actual duration
      replaces the stored one. Nothing else about it changes. */
  function MarkCompleted(p: PomodoroRow, actual: Option<int>, now: int): (r: PomodoroRow)
    ensures r.completed && r.completedAt == Some(now)
    ensures r.duration == if Truthy(actual) then actual.value else p.duration
    ensures p.duration != 0 ==> r.duration != 0
    ensures r.id == p.id && r.mode == p.mode && r.objective == p.objective && r.taskId == p.taskId
    ensures r.subtaskIds == p.subtaskIds && r.startedAt == p.startedAt && r.userId == p.userId
  {
    p.(completed := true, completedAt := Some(now),
       duration := if Truthy(actual) then actual.value else p.duration)
  }

  /** What completing a pomodoro leaves in the two tables it touches, and
      what it answers. */
  datatype Completion = Completion(subtasks: Table<SubtaskRow>, pomodoros: Table<PomodoroRow>, result: Result<PomodoroRow>)

  /** The final write of a completion, once the subtasks are credited. */
  function FinishCompletion(pomodoros: Table<PomodoroRow>, subtasks: Table<SubtaskRow>,
                            c: PomodoroComplete, now: int, reply: Reply): (out: Completion)
    requires PomodorosKeyed(pomodoros) && c.pomodoroId in pomodoros.rows
    ensures out.subtasks == subtasks
    ensures reply == Written <==> out.result.Ok?
    ensures reply == Written ==>
      && out.result.value == MarkCompleted(pomodoros.rows[c.pomodoroId], c.actualDuration, now)
      && out.pomodoros == pomodoros.Put(c.pomodoroId, out.result.value)
    ensures reply != Written ==> out.pomodoros == pomodoros
    ensures reply == NoRows ==> out.result == Err(WriteFailed)
    ensures reply == Raised ==> out.result == Err(Failure)
  {
    match reply
    case Raised => Completion(subtasks, pomodoros, Err(Failure))
    case NoRows => Completion(subtasks, pomodoros, Err(WriteFailed))
    case Written =>
      var row := MarkCompleted(pomodoros.rows[c.pomodoroId], c.actualDuration, now);
      Completion(subtasks, pomodoros.Put(c.pomodoroId, row), Ok(row))
  }

  /** `complete_pomodoro` as evidently intended: each subtask of a work
      session is credited through the subtask update operation, then the
      pomodoro is marked complete. `writes(i)` is the store's answer to the
      write of the `i`-th listed subtask, `reply` its answer to the final
      write. */
  function CompleteSpec(pomodoros: Table<PomodoroRow>, subtasks: Table<SubtaskRow>,
                        c: PomodoroComplete, now: int, writes: nat -> Reply, reply: Reply): (out: Completion)
    requires PomodorosKeyed(pomodoros) && SubtasksKeyed(subtasks)
    ensures SubtasksKeyed(out.subtasks) && out.subtasks.rows.Keys == subtasks.rows.Keys
  {
    if c.pomodoroId !in pomodoros.rows then Completion(subtasks, pomodoros, Err(NotFound))
    else
      var p := pomodoros.rows[c.pomodoroId];
      var prop :=
        if CreditsSubtasks(p) then Propagate(subtasks, p.subtaskIds, writes, DurationToAdd(c.actualDuration, p.duration))
        else Propagation(subtasks, None);
      if prop.stop.Some? then Completion(prop.subtasks, pomodoros, Err(prop.stop.value))
      else FinishCompletion(pomodoros, prop.subtasks, c, now, reply)
  }

  /** The outcome of a completion. An absent pomodoro answers NotFound and
      changes nothing. A work session whose crediting stops at its `k`-th
      listed subtask answers NotFound when that subtask is absent, and the
      error of its refused write otherwise; the pomodoro stays open and the
      subtasks listed before the `k`-th stay credited. Otherwise the final
      write decides, and the call succeeds exactly when it goes through. */
  lemma CompleteOutcome(pomodoros: Table<PomodoroRow>, subtasks: Table<SubtaskRow>,
                        c: PomodoroComplete, now: int, writes: nat -> Reply, reply: Reply)
    requires PomodorosKeyed(pomodoros) && SubtasksKeyed(subtasks)
    ensures c.pomodoroId !in pomodoros.rows ==>
      CompleteSpec(pomodoros, subtasks, c, now, writes, reply) == Completion(subtasks, pomodoros, Err(NotFound))
    ensures c.pomodoroId in pomodoros.rows ==>
      var p := pomodoros.rows[c.pomodoroId];
      var d := DurationToAdd(c.actualDuration, p.duration);
      var k := FirstStop(subtasks.rows.Keys, p.subtaskIds, writes, 0);
      var out := CompleteSpec(pomodoros, subtasks, c, now, writes, reply);
      && (CreditsSubtasks(p) && k < |p.subtaskIds| ==>
            && out.result == Err(if p.subtaskIds[k] in subtasks.rows then WriteError(writes(k)) else NotFound)
            && out.pomodoros == pomodoros
            && out.subtasks == Propagate(subtasks, p.subtaskIds[..k], writes, d).subtasks
            && Propagate(subtasks, p.subtaskIds[..k], writes, d).stop.None?)
      && (!(CreditsSubtasks(p) && k < |p.subtaskIds|) ==>
            && out.subtasks == (if CreditsSubtasks(p) then Propagate(subtasks, p.subtaskIds, writes, d).subtasks else subtasks)
            && out == FinishCompletion(pomodoros, out.subtasks, c, now, reply)
            && (out.result.Ok? <==> reply == Written))
  {
    if c.pomodoroId in pomodoros.rows {
      var p := pomodoros.rows[c.pomodoroId];
      var d := DurationToAdd(c.actualDuration, p.duration);
      PropagateStopsAt(subtasks, p.subtaskIds, writes, d);
      PropagateCompletes(subtasks, p.subtaskIds, writes, d);
    }
  }

  /** A work session whose crediting stops at its `k`-th listed subtask
      leaves each subtask credited once per listing before the `k`-th, and
      nothing else about it changed. */
  lemma CompleteStoppedCredits(pomodoros: Table<PomodoroRow>, subtasks: Table<SubtaskRow>,
                               c: PomodoroComplete, now: int, writes: nat -> Reply, reply: Reply, sid: int)
    requires PomodorosKeyed(pomodoros) && SubtasksKeyed(subtasks) && sid in subtasks.rows
    requires c.pomodoroId in pomodoros.rows && CreditsSubtasks(pomodoros.rows[c.pomodoroId])
    requires FirstStop(subtasks.rows.Keys, pomodoros.rows[c.pomodoroId].subtaskIds, writes, 0)
               < |pomodoros.rows[c.pomodoroId].subtaskIds|
    ensures var p := pomodoros.rows[c.pomodoroId];
      var k := FirstStop(subtasks.rows.Keys, p.subtaskIds, writes, 0);
      var out := CompleteSpec(pomodoros, subtasks, c, now, writes, reply);
      && out.result.Err?
      && out.subtasks.rows[sid] == subtasks.rows[sid].(timeSpent :=
           subtasks.rows[sid].timeSpent + DurationToAdd(c.actualDuration, p.duration) * Occurrences(p.subtaskIds[..k], sid))
  {
    var p := pomodoros.rows[c.pomodoroId];
    var d := DurationToAdd(c.actualDuration, p.duration);
    var k := FirstStop(subtasks.rows.Keys, p.subtaskIds, writes, 0);
    CompleteOutcome(pomodoros, subtasks, c, now, writes, reply);
    PropagateCredits(subtasks, p.subtaskIds[..k], writes, d, sid);
  }

  /** A successful completion credits every subtask of a work session with
      the duration to add once per listing, leaves every subtask of a break
      untouched, and marks the pomodoro completed. */
  lemma {:induction false} CompleteCredits(pomodoros: Table<PomodoroRow>, subtasks: Table<SubtaskRow>,
                                           c: PomodoroComplete, now: int, writes: nat -> Reply, sid: int)
    requires PomodorosKeyed(pomodoros) && SubtasksKeyed(subtasks)
    requires CompleteSpec(pomodoros, subtasks, c, now, writes, Written).result.Ok?
    requires sid in subtasks.rows
    ensures c.pomodoroId in pomodoros.rows
    ensures var p := pomodoros.rows[c.pomodoroId];
      var out := CompleteSpec(pomodoros, subtasks, c, now, writes, Written);
      && out.subtasks.rows[sid].timeSpent ==
           subtasks.rows[sid].timeSpent
           + (if p.mode == Pomodoro then DurationToAdd(c.actualDuration, p.duration) * Occurrences(p.subtaskIds, sid) else 0)
      && out.subtasks.rows[sid].title == subtasks.rows[sid].title
      && out.subtasks.rows[sid].completed == subtasks.rows[sid].completed
      && out.pomodoros.rows[c.pomodoroId].completed
      && out.pomodoros.rows[c.pomodoroId].completedAt == Some(now)
  {
    var p := pomodoros.rows[c.pomodoroId];
    if CreditsSubtasks(p) {
      PropagateCredits(subtasks, p.subtaskIds, writes, DurationToAdd(c.actualDuration, p.duration), sid);
    }
  }

  /** The subtask update the crediting loop sends is exactly one credit. */
  lemma CreditUpdate(row: SubtaskRow, d: int)
    ensures !IsEmptySubtaskUpdate(SubtaskUpdate(timeSpent := Some(row.timeSpent + d)))
    ensures SubtaskService.ApplySubtaskUpdate(row, SubtaskUpdate(timeSpent := Some(row.timeSpent + d)))
      == row.(timeSpent := row.timeSpent + d)
  {
  }

  /** One pass of the loop of `complete_pomodoro`: fetch the subtask and
      write its time plus `d` through the subtask update operation, whose
      write the store answers with `reply`. The answer is the error that
      ends the loop, if any. */
  method CreditSubtask(db: Database, sid: int, d: int, reply: Reply) returns (stop: Option<Error>)
    requires db.Valid()
    modifies db
    ensures db.Valid()
    ensures sid !in old(db.subtasks.rows) ==> stop == Some(NotFound) && db.subtasks == old(db.subtasks)
    ensures sid in old(db.subtasks.rows) && reply != Written ==>
      stop == Some(WriteError(reply)) && db.subtasks == old(db.subtasks)
    ensures sid in old(db.subtasks.rows) && reply == Written ==>
      stop == None && db.subtasks == Credit(old(db.subtasks), sid, d)
    ensures db.tasks == old(db.tasks) && db.pomodoros == old(db.pomodoros)
    ensures db.distractions == old(db.distractions)
  {
    var current := SubtaskService.GetSubtaskById(db, sid);
    if current.Err? {
      return Some(current.error);
    }
    var row := current.value;
    CreditUpdate(row, d);
    var written := SubtaskService.UpdateSubtask(db, sid, SubtaskUpdate(timeSpent := Some(row.timeSpent + d)), reply);
    if written.Err? {
      return Some(written.error);
    }
    return None;
  }

  /** The loop of `complete_pomodoro`: credit each listed subtask in order,
      stopping at the first id that is not stored or whose write fails. */
  method CreditSubtasks(db: Database, ids: seq<int>, writes: nat -> Reply, d: int) returns (stop: Option<Error>)
    requires db.Valid()
    modifies db
    ensures db.Valid()
    ensures Propagation(db.subtasks, stop) == Propagate(old(db.subtasks), ids, writes, d)
    ensures db.tasks == old(db.tasks) && db.pomodoros == old(db.pomodoros)
    ensures db.distractions == old(db.distractions)
  {
    var i := 0;
    while i < |ids|
      invariant 0 <= i <= |ids|
      invariant db.Valid()
      invariant Propagate(old(db.subtasks), ids[..i], writes, d) == Propagation(db.subtasks, None)
      invariant db.tasks == old(db.tasks) && db.pomodoros == old(db.pomodoros)
      invariant db.distractions == old(db.distractions)
    {
      ghost var before := db.subtasks;
      var failed := CreditSubtask(db, ids[i], d, writes(i));
      if failed.Some? {
        PropagateHalts(old(db.subtasks), ids, writes, i, d, before);
        return failed;
      }
      PropagateExtend(old(db.subtasks), ids, writes, i, d, before);
      i := i + 1;
    }
    assert ids[..|ids|] == ids;
    return None;
  }

  /** `complete_pomodoro`: credit the subtasks of a work session, then mark
      the pomodoro complete. A missing subtask or a refused subtask write
      ends the call with its error, leaves the pomodoro open and leaves the
      subtasks credited before it credited. Tasks are never touched: a
      task's own time is not updated here. */
  method CompletePomodoro(db: Database, c: PomodoroComplete, now: int, writes: nat -> Reply, reply: Reply)
    returns (r: Result<PomodoroRow>)
    requires db.Valid()
    modifies db
    ensures db.Valid()
    ensures var out := CompleteSpec(old(db.pomodoros), old(db.subtasks), c, now, writes, reply);
      db.subtasks == out.subtasks && db.pomodoros == out.pomodoros && r == out.result
    ensures db.tasks == old(db.tasks) && db.distractions == old(db.distractions)
  {
    var found := GetPomodoroById(db, c.pomodoroId);
    if found.Err? {
      return Err(found.error);
    }
    var p := found.value;
    if CreditsSubtasks(p) {
      var stop := CreditSubtasks(db, p.subtaskIds, writes, DurationToAdd(c.actualDuration, p.duration));
      if stop.Some? {
        return Err(stop.value);
      }
    }
    r := WriteCompletion(db, c, now, reply);
  }

  /** The final write of `complete_pomodoro`: mark the pomodoro completed. */
  method WriteCompletion(db: Database, c: PomodoroComplete, now: int, reply: Reply) returns (r: Result<PomodoroRow>)
    requires db.Valid() && c.pomodoroId in db.pomodoros.rows
    modifies db
    ensures db.Valid()
    ensures var out := FinishCompletion(old(db.pomodoros), old(db.subtasks), c, now, reply);
      db.subtasks == out.subtasks && db.pomodoros == out.pomodoros && r == out.result
    ensures db.tasks == old(db.tasks) && db.distractions == old(db.distractions)
  {
    match reply {
      case Raised => r := Err(Failure);
      case NoRows => r := Err(WriteFailed);
      case Written =>
        var row := MarkCompleted(db.pomodoros.rows[c.pomodoroId], c.actualDuration, now);
        db.pomodoros := db.pomodoros.Put(c.pomodoroId, row);
        r := Ok(row);
    }
  }

  /** Every subtask write accepted by the store. */
  function EveryWriteGoes(i: nat): Reply {
    Written
  }

  /** `complete_pomodoro` as written: the subtask update operation is handed
      a plain dictionary, and reading it as an update payload raises before
      anything is written. So a work session with subtasks never completes:
      the first listed subtask's lookup answers NotFound when it is absent,
      and otherwise the call fails. Other pomodoros complete as intended,
      whatever the store would answer to subtask writes. */
  function CompleteAsWritten(pomodoros: Table<PomodoroRow>, subtasks: Table<SubtaskRow>,
                             c: PomodoroComplete, now: int, reply: Reply): (out: Completion)
    requires PomodorosKeyed(pomodoros) && SubtasksKeyed(subtasks)
    ensures out.subtasks == subtasks
    ensures c.pomodoroId in pomodoros.rows && CreditsSubtasks(pomodoros.rows[c.pomodoroId]) ==>
      out.result.Err? && out.pomodoros == pomodoros
    ensures !(c.pomodoroId in pomodoros.rows && CreditsSubtasks(pomodoros.rows[c.pomodoroId])) ==>
      out == CompleteSpec(pomodoros, subtasks, c, now, EveryWriteGoes, reply)
  {
    if c.pomodoroId !in pomodoros.rows then Completion(subtasks, pomodoros, Err(NotFound))
    else
      var p := pomodoros.rows[c.pomodoroId];
      if !CreditsSubtasks(p) then FinishCompletion(pomodoros, subtasks, c, now, reply)
      else if p.subtaskIds[0] !in subtasks.rows then Completion(subtasks, pomodoros, Err(NotFound))
      else Completion(subtasks, pomodoros, Err(Failure))
  }

  /** A work session with one existing subtask: as written the completion
      fails and credits nothing; as intended, with every write accepted, it
      succeeds and credits the subtask with the session's 1500 seconds. */
  lemma CompleteAsWrittenFails()
    ensures var sub := SubtaskRow(1, 1, "write tests", false, 0);
      var pom := PomodoroRow(1, Pomodoro, None, Some(1), [1], 1500, false, None, None, None);
      var subtasks := Table(map[1 := sub], [1], 2);
      var pomodoros := Table(map[1 := pom], [1], 2);
      var c := PomodoroComplete(1);
      && CompleteAsWritten(pomodoros, subtasks, c, 0, Written).result == Err(Failure)
      && CompleteAsWritten(pomodoros, subtasks, c, 0, Written).subtasks.rows[1].timeSpent == 0
      && CompleteSpec(pomodoros, subtasks, c, 0, EveryWriteGoes, Written).result.Ok?
      && CompleteSpec(pomodoros, subtasks, c, 0, EveryWriteGoes, Written).subtasks.rows[1].timeSpent == 1500
  {
    var sub := SubtaskRow(1, 1, "write tests", false, 0);
    var pom := PomodoroRow(1, Pomodoro, None, Some(1), [1], 1500, false, None, None, None);
    var subtasks := Table(map[1 := sub], [1], 2);
    var pomodoros := Table(map[1 := pom], [1], 2);
    var c := PomodoroComplete(1);
    assert [1][..0] == [];
    assert Goes(subtasks.rows.Keys, [1], EveryWriteGoes, 0);
    PropagateCompletes(subtasks, [1], EveryWriteGoes, 1500);
    PropagateCredits(subtasks, [1], EveryWriteGoes, 1500, 1);
  }

  // ---------------------------------------------------------------- count

  /** A completed work session, optionally of one owner. */
  predicate CountedSession(p: PomodoroRow, userId: Option<string>) {
    p.completed && p.mode == Pomodoro && (TaskService.Given(userId) ==> p.userId == userId)
  }

  /** `get_pomodoro_count` on its main path: the number of completed work
      sessions (of the owner, when one is given). */
  function GetPomodoroCount(db: Database, userId: Option<string>): (n: nat)
    reads db
    requires db.Valid()
    ensures n <= |db.pomodoros.order|
  {
    CompletedWorkSessions(db.pomodoros, userId)
  }

  /** The number of stored completed work sessions (of the owner, when one is
      given). */
  function CompletedWorkSessions(t: Table<PomodoroRow>, userId: Option<string>): (n: nat)
    requires t.Valid()
    ensures n <= |t.order|
  {
    Count(t.Rows(), (p: PomodoroRow) => CountedSession(p, userId))
  }

  /** `get_pomodoro_count` on its fallback path: list the completed
      pomodoros and count the work sessions among them. */
  function FallbackPomodoroCount(db: Database, userId: Option<string>): (n: nat)
    reads db
    requires db.Valid()
    ensures n <= |GetAllPomodoros(db, userId, Some(true))|
  {
    Count(GetAllPomodoros(db, userId, Some(true)), (p: PomodoroRow) => p.mode == Pomodoro)
  }

  /** Both paths of the count agree. */
  lemma {:induction false} CountPathsAgree(db: Database, userId: Option<string>)
    requires db.Valid()
    ensures FallbackPomodoroCount(db, userId) == GetPomodoroCount(db, userId)
  {
    var rows := db.pomodoros.Rows();
    var listed := (x: PomodoroRow) => PomodoroMatches(x, userId, Some(true));
    var work := (p: PomodoroRow) => p.mode == Pomodoro;
    var counted := (p: PomodoroRow) => CountedSession(p, userId);
    CountReverse(Filter(rows, listed), work);
    FilterFilter(rows, listed, work, counted);
  }

  /** Completing a work session raises its owner's count by one. */
  lemma {:induction false} CompletingCounts(pomodoros: Table<PomodoroRow>, id: int, now: int, actual: Option<int>, userId: Option<string>)
    requires PomodorosKeyed(pomodoros) && id in pomodoros.rows
    requires pomodoros.rows[id].mode == Pomodoro && !pomodoros.rows[id].completed
    requires TaskService.Given(userId) ==> pomodoros.rows[id].userId == userId
    ensures CompletedWorkSessions(pomodoros.Put(id, MarkCompleted(pomodoros.rows[id], actual, now)), userId)
      == CompletedWorkSessions(pomodoros, userId) + 1
  {
    var after := pomodoros.Put(id, MarkCompleted(pomodoros.rows[id], actual, now));
    var k :| 0 <= k < |pomodoros.order| && pomodoros.order[k] == id;
    var counted := (p: PomodoroRow) => CountedSession(p, userId);
    CountChangedAt(pomodoros.Rows(), after.Rows(), k, counted);
  }

  /** Two lists that differ only at index `k`, where the condition goes from
      false to true, differ by one in their counts. */
  lemma {:induction false} CountChangedAt<T>(a: seq<T>, b: seq<T>, k: nat, p: T -> bool)
    requires |a| == |b| && k < |a|
    requires forall i :: 0 <= i < |a| && i != k ==> a[i] == b[i]
    requires !p(a[k]) && p(b[k])
    ensures Count(b, p) == Count(a, p) + 1
    decreases |a|
  {
    var n := |a| - 1;
    assert a == a[..n] + [a[n]] && b == b[..n] + [b[n]];
    FilterAppend(a[..n], a[n], p);
    FilterAppend(b[..n], b[n], p);
    if k < n {
      CountChangedAt(a[..n], b[..n], k, p);
    } else {
      assert a[..n] == b[..n];
    }
  }
}

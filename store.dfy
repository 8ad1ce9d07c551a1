/** The hosted store, as in-memory tables. Every table is a map from id to
    row plus the ids in creation order. The store hands out serial ids, so
    creation order is ascending id order; listings "ordered by created_at"
    are therefore ascending or descending id order. */
module Store {
  import opened Common
  import opened Schemas

  /** What the store answers to one write call: the rows written, an empty
      answer (nothing written), or an exception (nothing written). */
  datatype Reply = Written | NoRows | Raised

  /** Ids in `s` strictly increase. */
  ghost predicate Ascending(s: seq<int>) {
    forall i, j :: 0 <= i < j < |s| ==> s[i] < s[j]
  }

  datatype Table<R> = Table(rows: map<int, R>, order: seq<int>, nextId: int) {

    /** `order` lists exactly the stored ids, ascending; every id is positive
        and below the next id to hand out. */
    ghost predicate Valid() {
      && Ascending(order)
      && (forall id :: id in rows <==> id in order)
      && (forall i :: 0 <= i < |order| ==> order[i] in rows)
      && (forall id :: id in rows ==> 1 <= id < nextId)
      && nextId >= 1
    }

    /** The rows in creation order (a full-table select ordered by creation). */
    function Rows(): (r: seq<R>)
      requires Valid()
      ensures |r| == |order|
      ensures forall i :: 0 <= i < |order| ==> order[i] in rows && r[i] == rows[order[i]]
    {
      seq(|order|, i requires 0 <= i < |order| => rows[order[i]])
    }

    /** Insert one row under the next serial id. */
    function Insert(r: R): (t: Table<R>)
      requires Valid()
      ensures t.Valid()
      ensures t.rows == rows[nextId := r] && t.order == order + [nextId] && t.nextId == nextId + 1
    {
      Table(rows[nextId := r], order + [nextId], nextId + 1)
    }

    /** Overwrite the row stored under an existing id. */
    function Put(id: int, r: R): (t: Table<R>)
      requires Valid() && id in rows
      ensures t.Valid()
      ensures t.rows == rows[id := r] && t.order == order && t.nextId == nextId
    {
      Table(rows[id := r], order, nextId)
    }

    /** Delete the rows whose ids are in `ids`. */
    function RemoveAll(ids: set<int>): (t: Table<R>)
      requires Valid()
      ensures t.Valid()
      ensures t.rows == rows - ids && t.nextId == nextId
    {
      var o := Filter(order, id => id !in ids);
      FilterKeepsIncreasing(order, id => id !in ids, id => id);
      FilterMembers(order, id => id !in ids);
      Table(rows - ids, o, nextId)
    }
  }

  function EmptyTable<R>(): (t: Table<R>)
    ensures t.Valid() && t.rows == map[] && t.order == []
  {
    Table(map[], [], 1)
  }

  /** A table's rows come out in ascending id order when every row carries
      its own key as id. */
  lemma RowsAscending<R>(t: Table<R>, idOf: R -> int)
    requires t.Valid()
    requires forall id :: id in t.rows ==> idOf(t.rows[id]) == id
    ensures IncreasingBy(t.Rows(), idOf)
  {
  }

  /** Every stored row appears in the full listing. */
  lemma RowsComplete<R>(t: Table<R>, id: int)
    requires t.Valid() && id in t.rows
    ensures t.rows[id] in t.Rows()
  {
    var k :| 0 <= k < |t.order| && t.order[k] == id;
    assert t.Rows()[k] == t.rows[id];
  }

  /** Every stored row appears in the full listing, and everything listed is
      stored under its own id. */
  lemma RowsStored<R>(t: Table<R>, idOf: R -> int, x: R)
    requires t.Valid()
    requires forall id :: id in t.rows ==> idOf(t.rows[id]) == id
    requires x in t.Rows()
    ensures idOf(x) in t.rows && t.rows[idOf(x)] == x
  {
    var k :| 0 <= k < |t.Rows()| && t.Rows()[k] == x;
    assert t.order[k] in t.rows;
  }

  /** A filtered select over a table: the rows satisfying `p`, ascending by
      id. It returns exactly the stored rows that satisfy `p`. */
  lemma SelectExact<R>(t: Table<R>, p: R -> bool, idOf: R -> int)
    requires t.Valid()
    requires forall id :: id in t.rows ==> idOf(t.rows[id]) == id
    ensures var r := Filter(t.Rows(), p);
      && (forall i :: 0 <= i < |r| ==> p(r[i]) && idOf(r[i]) in t.rows && t.rows[idOf(r[i])] == r[i])
      && (forall id :: id in t.rows && p(t.rows[id]) ==> t.rows[id] in r)
      && (forall i, j :: 0 <= i < j < |r| ==> idOf(r[i]) < idOf(r[j]))
      && ((forall id :: id in t.rows ==> !p(t.rows[id])) ==> r == [])
  {
    var r := Filter(t.Rows(), p);
    FilterMembers(t.Rows(), p);
    forall i | 0 <= i < |r| ensures idOf(r[i]) in t.rows && t.rows[idOf(r[i])] == r[i] {
      RowsStored(t, idOf, r[i]);
    }
    forall id | id in t.rows && p(t.rows[id]) ensures t.rows[id] in r {
      RowsComplete(t, id);
      var k :| 0 <= k < |t.Rows()| && t.Rows()[k] == t.rows[id];
    }
    RowsAscending(t, idOf);
    FilterKeepsIncreasing(t.Rows(), p, idOf);
  }

  /** The same select ordered newest first: exactly the stored rows that
      satisfy `p`, descending by id. */
  lemma SelectExactDescending<R>(t: Table<R>, p: R -> bool, idOf: R -> int)
    requires t.Valid()
    requires forall id :: id in t.rows ==> idOf(t.rows[id]) == id
    ensures forall i :: 0 <= i < |Reverse(Filter(t.Rows(), p))| ==>
      var x := Reverse(Filter(t.Rows(), p))[i]; p(x) && idOf(x) in t.rows && t.rows[idOf(x)] == x
    ensures forall id :: id in t.rows && p(t.rows[id]) ==> t.rows[id] in Reverse(Filter(t.Rows(), p))
    ensures forall i, j :: 0 <= i < j < |Reverse(Filter(t.Rows(), p))| ==>
      idOf(Reverse(Filter(t.Rows(), p))[i]) > idOf(Reverse(Filter(t.Rows(), p))[j])
  {
    SelectExact(t, p, idOf);
    SelectReversed(t.rows, Filter(t.Rows(), p), p, idOf);
  }

  /** Reversing a select keeps it exact and turns ascending ids into
      descending ones. */
  lemma SelectReversed<R>(rows: map<int, R>, f: seq<R>, p: R -> bool, idOf: R -> int)
    requires forall i :: 0 <= i < |f| ==> p(f[i]) && idOf(f[i]) in rows && rows[idOf(f[i])] == f[i]
    requires forall id :: id in rows && p(rows[id]) ==> rows[id] in f
    requires forall i, j :: 0 <= i < j < |f| ==> idOf(f[i]) < idOf(f[j])
    ensures forall i :: 0 <= i < |Reverse(f)| ==>
      p(Reverse(f)[i]) && idOf(Reverse(f)[i]) in rows && rows[idOf(Reverse(f)[i])] == Reverse(f)[i]
    ensures forall id :: id in rows && p(rows[id]) ==> rows[id] in Reverse(f)
    ensures forall i, j :: 0 <= i < j < |Reverse(f)| ==> idOf(Reverse(f)[i]) > idOf(Reverse(f)[j])
  {
    ReverseAll(f, (x: R) => p(x) && idOf(x) in rows && rows[idOf(x)] == x);
    ReverseMembers(f);
    ReverseDecreasing(f, idOf);
  }

  ghost predicate TasksKeyed(t: Table<TaskRow>) {
    t.Valid() && forall id :: id in t.rows ==> t.rows[id].id == id
  }

  ghost predicate SubtasksKeyed(t: Table<SubtaskRow>) {
    t.Valid() && forall id :: id in t.rows ==> t.rows[id].id == id
  }

  ghost predicate PomodorosKeyed(t: Table<PomodoroRow>) {
    t.Valid() && forall id :: id in t.rows ==> t.rows[id].id == id
  }

  ghost predicate DistractionsKeyed(t: Table<DistractionRow>) {
    t.Valid() && forall id :: id in t.rows ==> t.rows[id].id == id
  }

  /** Every subtask belongs to a stored task. */
  ghost predicate SubtasksBelong(tasks: Table<TaskRow>, subtasks: Table<SubtaskRow>) {
    forall id :: id in subtasks.rows ==> subtasks.rows[id].taskId in tasks.rows
  }

  /** The four tables of the application's database. */
  class Database {
    var tasks: Table<TaskRow>
    var subtasks: Table<SubtaskRow>
    var pomodoros: Table<PomodoroRow>
    var distractions: Table<DistractionRow>

    /** Tables are well formed, each row carries its key as id, every subtask
        belongs to a stored task (the store deletes subtasks with their task),
        and every stored pomodoro has a nonzero duration. */
    ghost predicate Valid()
      reads this
    {
      && TasksKeyed(tasks) && SubtasksKeyed(subtasks)
      && PomodorosKeyed(pomodoros) && DistractionsKeyed(distractions)
      && SubtasksBelong(tasks, subtasks)
      && (forall id :: id in pomodoros.rows ==> pomodoros.rows[id].duration != 0)
    }

    constructor ()
      ensures Valid()
      ensures tasks.rows == map[] && subtasks.rows == map[]
      ensures pomodoros.rows == map[] && distractions.rows == map[]
    {
      tasks := EmptyTable();
      subtasks := EmptyTable();
      pomodoros := EmptyTable();
      distractions := EmptyTable();
    }
  }
}

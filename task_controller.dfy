/**
 * The backend task controller: create, list, get, update and delete of tasks,
 * every lookup scoped to the authenticated user, and the rule that a task's
 * total duration is computed on its transition into "done".
 *
 * The ORM table is a map from task id to row; the clock (`new Date().getTime()`)
 * is the parameter `nowMs`.
 */
module TaskController {
  import opened Wrappers
  import opened Js

  /** The statuses the task model's enum admits. */
  datatype Status = ToDo | InProgress | Done

  function StatusName(st: Status): string
  {
    match st
    case ToDo => "to-do"
    case InProgress => "in-progress"
    case Done => "done"
  }

  /** The stored status a request field names, or None when the enum (or `allowNull: false`) refuses it. */
  function ParseStatus(f: Field): (r: Option<Status>)
    ensures r.Some? <==> f.Str? && f.s in {"to-do", "in-progress", "done"}
    ensures r.Some? ==> f == Str(StatusName(r.value))
  {
    if f == Str("to-do") then Some(ToDo)
    else if f == Str("in-progress") then Some(InProgress)
    else if f == Str("done") then Some(Done)
    else None
  }

  /** Every status survives being written out and read back. */
  lemma ParseStatusName(st: Status)
    ensures ParseStatus(Str(StatusName(st))) == Some(st)
  {
  }

  /** A completion duration as hours, minutes and seconds. */
  datatype Duration = Duration(hours: int, minutes: int, seconds: int)

  /** The fixed three-hour offset the controller subtracts from every elapsed time. */
  const OffsetMs: int := 10800000

  /** `Math.floor(durationMs / 1000)` with `durationMs = (now - created) - 10800000`. */
  function TotalSeconds(createdAtMs: int, nowMs: int): int
  {
    FloorDiv(nowMs - createdAtMs - OffsetMs, 1000)
  }

  /**
   * The controller's split of a second count into hours (`Math.floor(t / 3600)`),
   * minutes (`Math.floor((t % 3600) / 60)`) and seconds (`t % 60`), with JavaScript's `%`.
   */
  function Decompose(totalSeconds: int): (d: Duration)
    ensures totalSeconds >= 0 ==>
      d.hours >= 0 && 0 <= d.minutes < 60 && 0 <= d.seconds < 60
      && d.hours * 3600 + d.minutes * 60 + d.seconds == totalSeconds
    ensures totalSeconds < 0 ==> d.hours < 0 && -60 <= d.minutes <= 0 && -60 < d.seconds <= 0
  {
    var h := FloorDiv(totalSeconds, 3600);
    var r := TruncRem(totalSeconds, 3600);
    var m := FloorDiv(r, 60);
    var s := TruncRem(totalSeconds, 60);
    if totalSeconds >= 0 then
      DecomposeSum(totalSeconds);
      Duration(h, m, s)
    else
      assert h < 0 by { assert h * 3600 <= totalSeconds; }
      assert -60 <= m <= 0 by { assert m * 60 <= r < m * 60 + 60; }
      Duration(h, m, s)
  }

  lemma DecomposeSum(t: nat)
    ensures (t / 3600) * 3600 + ((t % 3600) / 60) * 60 + t % 60 == t
  {
    var h, r := t / 3600, t % 3600;
    var m, s := r / 60, r % 60;
    assert t == h * 3600 + r;
    assert r == m * 60 + s;
    assert t % 60 == s by {
      assert t == (h * 60 + m) * 60 + s;
    }
  }

  /** Writing a well-formed duration as seconds and decomposing it gives the same duration back. */
  lemma DecomposeCompose(d: Duration)
    requires d.hours >= 0 && 0 <= d.minutes < 60 && 0 <= d.seconds < 60
    ensures Decompose(d.hours * 3600 + d.minutes * 60 + d.seconds) == d
  {
    var t := d.hours * 3600 + d.minutes * 60 + d.seconds;
    var r := d.minutes * 60 + d.seconds;
    assert 0 <= r < 3600;
    assert t / 3600 == d.hours && t % 3600 == r by {
      assert t == d.hours * 3600 + r;
    }
    assert r / 60 == d.minutes && r % 60 == d.seconds by {
      assert r == d.minutes * 60 + d.seconds;
    }
    assert t % 60 == d.seconds by {
      assert t == (d.hours * 60 + d.minutes) * 60 + d.seconds;
    }
  }

  /** A task completed less than three hours after its creation gets a negative hour count. */
  lemma EarlyCompletionIsNegative(createdAtMs: int, nowMs: int)
    requires nowMs - createdAtMs < OffsetMs
    ensures Decompose(TotalSeconds(createdAtMs, nowMs)).hours < 0
  {
  }

  /** A task row. `description` is nullable; `totalDuration` is null until completion. */
  datatype Task = Task(
    id: nat,
    userId: nat,
    title: string,
    description: Option<string>,
    status: Status,
    totalDuration: Option<Duration>,
    createdAtMs: int)

  /** The fields of a create or update request body. */
  datatype TaskBody = TaskBody(title: Field, description: Field, status: Field)

  /** A nullable text column written from a request field. */
  function Nullable(f: Field): Option<string>
  {
    if f.Str? then Some(f.s) else None
  }

  /** The controller's answers (HTTP status and JSON body). */
  datatype Response =
    | Created(task: Task)                       // 201
    | Ok(task: Task)                            // 200, one task
    | OkList(tasks: set<Task>)                  // 200, the caller's tasks
    | NoContent                                 // 204
    | BadRequest(message: string)               // 400
    | NotFound(message: string)                 // 404
    | InternalError(error: string)              // 500

  const TitleRequired := "Title is required."
  const TaskNotFound := "Task not found."
  const ServerError := "Internal server error."

  /**
   * What `createTask` does with a request for user `userId`, given the id and the
   * creation time the table assigns.
   */
  function CreateOutcome(id: nat, userId: nat, body: TaskBody, nowMs: int): (r: Response)
    ensures r.BadRequest? <==> !body.title.Truthy()
    ensures r.BadRequest? ==> r.message == TitleRequired
    ensures r.InternalError? <==>
      body.title.Truthy() && body.status.Truthy() && body.status.s !in {"to-do", "in-progress", "done"}
    ensures r.Created? ==>
      && r.task.id == id && r.task.userId == userId && r.task.createdAtMs == nowMs
      && r.task.title == body.title.s && r.task.description == Nullable(body.description)
      && (body.status.Truthy() ==> StatusName(r.task.status) == body.status.s)
      && (!body.status.Truthy() ==> r.task.status == ToDo)
      && (r.task.status == Done ==> r.task.totalDuration == Some(Duration(0, 0, 0)))
      && (r.task.status != Done ==> r.task.totalDuration == None)
    ensures r.BadRequest? || r.InternalError? || r.Created?
  {
    if !body.title.Truthy() then BadRequest(TitleRequired)
    else
      var totalDuration := if body.status == Str("done") then Some(Duration(0, 0, 0)) else None;
      match ParseStatus(Str(body.status.Or("to-do")))
      case None => InternalError(ServerError)
      case Some(st) =>
        Created(Task(id, userId, body.title.s, Nullable(body.description), st, totalDuration, nowMs))
  }

  /** The row with this id, provided the caller owns it (`where: { id, user_id }`). */
  function FindOwned(rows: map<nat, Task>, id: nat, userId: nat): (r: Option<Task>)
    ensures r.Some? <==> id in rows && rows[id].userId == userId
    ensures r.Some? ==> r.value == rows[id]
  {
    if id in rows && rows[id].userId == userId then Some(rows[id]) else None
  }

  /** Another user's task is indistinguishable from an id that does not exist. */
  lemma ForeignTaskLooksMissing(rows: map<nat, Task>, id: nat, missing: nat, userId: nat)
    requires id in rows && rows[id].userId != userId
    requires missing !in rows
    ensures FindOwned(rows, id, userId) == FindOwned(rows, missing, userId) == None
  {
  }

  /**
   * The row `updateTask` saves for task `t`, or None when `save()` refuses it
   * because the status written is null, undefined or outside the enum.
   */
  function UpdatedTask(t: Task, body: TaskBody, nowMs: int): (r: Option<Task>)
    ensures r.Some? <==> ParseStatus(body.status).Some?
    ensures r.Some? ==> r.value.id == t.id && r.value.userId == t.userId && r.value.createdAtMs == t.createdAtMs
    ensures r.Some? ==> (body.title.Str? ==> r.value.title == body.title.s) && (!body.title.Str? ==> r.value.title == t.title)
    ensures r.Some? ==>
      (body.description.Str? ==> r.value.description == Some(body.description.s))
      && (!body.description.Str? ==> r.value.description == t.description)
    ensures r.Some? ==> Some(r.value.status) == ParseStatus(body.status)
    ensures r.Some? && r.value.status == Done && t.status != Done ==>
      r.value.totalDuration == Some(Decompose(TotalSeconds(t.createdAtMs, nowMs)))
    ensures r.Some? && !(r.value.status == Done && t.status != Done) ==> r.value.totalDuration == t.totalDuration
  {
    match ParseStatus(body.status)
    case None => None
    case Some(st) =>
      var duration :=
        if st == Done && t.status != Done then Some(Decompose(TotalSeconds(t.createdAtMs, nowMs)))
        else t.totalDuration;
      Some(t.(title := body.title.Coalesce(t.title),
              description := if body.description.Str? then Some(body.description.s) else t.description,
              totalDuration := duration,
              status := st))
  }

  /** The server does not lock a completed task: its status can be moved back. */
  lemma DoneIsNotLocked(t: Task, nowMs: int)
    requires t.status == Done
    ensures UpdatedTask(t, TaskBody(Undefined, Undefined, Str("to-do")), nowMs) == Some(t.(status := ToDo))
  {
  }

  /** Marking a task done a second time keeps the duration of the first completion. */
  lemma SecondCompletionKeepsDuration(t: Task, first: TaskBody, second: TaskBody, now1: int, now2: int)
    requires first.status == Str("done") && second.status == Str("done")
    ensures UpdatedTask(t, first, now1).Some?
    ensures UpdatedTask(UpdatedTask(t, first, now1).value, second, now2).Some?
    ensures UpdatedTask(UpdatedTask(t, first, now1).value, second, now2).value.totalDuration
         == UpdatedTask(t, first, now1).value.totalDuration
  {
    var u := UpdatedTask(t, first, now1);
    assert ParseStatus(first.status) == Some(Done);
    assert u.value.status == Done;
  }

  /** The task table, one map from id to row, with the id sequence behind it. */
  class TaskStore {
    var rows: map<nat, Task>
    var nextId: nat

    /** Rows are stored under their own id, and every id in use came from the sequence. */
    ghost predicate Valid()
      reads this
    {
      forall id :: id in rows ==> rows[id].id == id && id < nextId
    }

    constructor ()
      ensures Valid() && rows == map[] && nextId == 1
    {
      rows := map[];
      nextId := 1;
    }

    /** `createTask`: insert the row `CreateOutcome` describes, or answer 400 / 500 and insert nothing. */
    method CreateTask(userId: nat, body: TaskBody, nowMs: int) returns (r: Response)
      requires Valid()
      modifies this
      ensures Valid()
      ensures r == CreateOutcome(old(nextId), userId, body, nowMs)
      ensures r.Created? ==> old(nextId) !in old(rows) && rows == old(rows)[old(nextId) := r.task] && nextId == old(nextId) + 1
      ensures !r.Created? ==> rows == old(rows) && nextId == old(nextId)
    {
      r := CreateOutcome(nextId, userId, body, nowMs);
      if r.Created? {
        rows := rows[nextId := r.task];
        nextId := nextId + 1;
      }
    }

    /** `getTasks`: every row owned by the caller, and no other. */
    method GetTasks(userId: nat) returns (r: Response)
      ensures r.OkList?
      ensures forall t :: t in r.tasks <==> t in rows.Values && t.userId == userId
    {
      r := OkList(set t | t in rows.Values && t.userId == userId);
    }

    /** `getTaskById`: the caller's task with this id, or 404. */
    method GetTaskById(id: nat, userId: nat) returns (r: Response)
      ensures r.Ok? <==> FindOwned(rows, id, userId).Some?
      ensures r.Ok? ==> r.task == rows[id] && r.task.userId == userId
      ensures !r.Ok? ==> r == NotFound(TaskNotFound)
    {
      var found := FindOwned(rows, id, userId);
      if found.None? {
        return NotFound(TaskNotFound);
      }
      r := Ok(found.value);
    }

    /**
     * `updateTask`: merge the request into the caller's task field by field, compute
     * the duration on a transition into "done", overwrite the status, and save.
     */
    method UpdateTask(id: nat, userId: nat, body: TaskBody, nowMs: int) returns (r: Response)
      requires Valid()
      modifies this
      ensures Valid() && nextId == old(nextId)
      ensures FindOwned(old(rows), id, userId).None? ==> r == NotFound(TaskNotFound) && rows == old(rows)
      ensures FindOwned(old(rows), id, userId).Some? && UpdatedTask(old(rows)[id], body, nowMs).None? ==>
        r == InternalError(ServerError) && rows == old(rows)
      ensures FindOwned(old(rows), id, userId).Some? && UpdatedTask(old(rows)[id], body, nowMs).Some? ==>
        var u := UpdatedTask(old(rows)[id], body, nowMs).value;
        r == Ok(u) && rows == old(rows)[id := u]
    {
      var found := FindOwned(rows, id, userId);
      if found.None? {
        return NotFound(TaskNotFound);
      }
      var task := found.value;
      task := task.(title := body.title.Coalesce(task.title));
      task := task.(description := if body.description.Str? then Some(body.description.s) else task.description);
      if body.status == Str("done") && task.status != Done {
        var durationMs := (nowMs - task.createdAtMs) - OffsetMs;
        var totalSeconds := FloorDiv(durationMs, 1000);
        var hours := FloorDiv(totalSeconds, 3600);
        var minutes := FloorDiv(TruncRem(totalSeconds, 3600), 60);
        var seconds := TruncRem(totalSeconds, 60);
        task := task.(totalDuration := Some(Duration(hours, minutes, seconds)));
      }
      // `task.status = status` followed by `save()`: a status the column refuses aborts the save.
      var st := ParseStatus(body.status);
      if st.None? {
        return InternalError(ServerError);
      }
      task := task.(status := st.value);
      rows := rows[id := task];
      r := Ok(task);
    }

    /** `deleteTask`: destroy the rows matching both id and owner; 404 when none matched. */
    method DeleteTask(id: nat, userId: nat) returns (r: Response)
      requires Valid()
      modifies this
      ensures Valid() && nextId == old(nextId)
      ensures r == NoContent <==> FindOwned(old(rows), id, userId).Some?
      ensures r == NoContent ==> rows == old(rows) - {id}
      ensures r != NoContent ==> r == NotFound(TaskNotFound) && rows == old(rows)
    {
      var removed := set k | k in rows && k == id && rows[k].userId == userId;
      assert removed == {} || removed == {id};
      rows := rows - removed;
      if |removed| == 0 {
        return NotFound(TaskNotFound);
      }
      r := NoContent;
    }
  }
}

/**
 * The frontend's mock API: an in-memory task list with its id counter and a
 * user table keyed by e-mail, the login, register and task handlers over them,
 * and the test utilities that reset, copy, extend and clear the task list.
 *
 * The Authorization header (`req.headers.get`, so absent is None), the `:id`
 * route parameter after `parseInt` (NaN is None), the request body fields and the
 * clock (`new Date().toISOString()` and `Date.now()`) are parameters.
 */
module MockHandlers {
  import opened Wrappers
  import opened Js

  /** A task as the mock stores it; title, description and status are whatever the bodies supplied. */
  datatype MockTask = MockTask(
    id: int,
    title: Field,
    description: Field,
    status: Field,
    userId: int,
    createdAt: string,
    updatedAt: string)

  datatype MockUser = MockUser(id: int, username: string, email: string, password: string, token: string)

  /** The JSON body of a mock response. */
  datatype Body =
    | ErrorBody(error: string)
    | LoginBody(message: string, token: string, username: string)
    | RegisteredBody(message: string, id: int, username: string)
    | TasksBody(tasks: seq<MockTask>)
    | TaskBody(task: MockTask)
    | MessageBody(message: string)

  datatype Reply = Reply(status: int, body: Body)

  /** `req.body`'s task fields. */
  datatype TaskFields = TaskFields(title: Field, description: Field, status: Field)

  /** The object handed to `addTask`; an absent key is None (or Undefined). */
  datatype TaskPatch = TaskPatch(
    id: Option<int>,
    title: Field,
    description: Field,
    status: Field,
    userId: Option<int>,
    createdAt: Option<string>,
    updatedAt: Option<string>)

  const InvalidCredentials := "Invalid email or password"
  const LoginSuccessful := "Login successful"
  const UserExists := "User already exists"
  const UserRegistered := "User registered successfully"
  const MissingToken := "Missing or invalid token"
  const TaskNotFound := "Task not found"
  const TitleRequired := "Title is required"
  const TaskDeleted := "Task deleted successfully"
  const TokenPrefix := "fake-jwt-token-"

  const Unauthorized := Reply(401, ErrorBody(MissingToken))
  const NotFound := Reply(404, ErrorBody(TaskNotFound))

  /** The two tasks the store starts with and `resetTasks` restores. */
  const SeedTasks: seq<MockTask> := [
    MockTask(1, Str("Complete MSW setup"), Str("Set up Mock Service Worker for API testing"), Str("to-do"), 1,
             "2025-08-10T10:00:00Z", "2025-08-10T10:00:00Z"),
    MockTask(2, Str("Write unit tests"), Str("Create comprehensive test coverage"), Str("in-progress"), 1,
             "2025-08-10T09:00:00Z", "2025-08-10T11:00:00Z")]

  const SeedEmail := "testuser@example.com"
  const SeedUser := MockUser(1, "testuser", SeedEmail, "password123", "fake-jwt-token")

  /** `!authHeader || !authHeader.startsWith('Bearer ')`, negated: the header the task handlers accept. */
  predicate Authorized(header: Option<string>)
  {
    header.Some? && StartsWith(header.value, "Bearer ")
  }

  /** A header is accepted iff it is present and its first seven characters are "Bearer ". */
  lemma AuthorizedIff(header: Option<string>)
    ensures Authorized(header) <==> header.Some? && |header.value| >= 7 && header.value[..7] == "Bearer "
  {
  }

  /** `mockTasks.findIndex(t => t.id === taskId)`: the first index with that id, or -1; NaN matches nothing. */
  function FindIndex(tasks: seq<MockTask>, id: Option<int>): (i: int)
    ensures -1 <= i < |tasks|
    ensures i == -1 <==> id.None? || forall k :: 0 <= k < |tasks| ==> tasks[k].id != id.value
    ensures i >= 0 ==> id.Some? && tasks[i].id == id.value && forall k :: 0 <= k < i ==> tasks[k].id != id.value
  {
    if id.None? || tasks == [] then -1
    else if tasks[0].id == id.value then 0
    else
      var j := FindIndex(tasks[1..], id);
      assert forall k :: 1 <= k < |tasks| ==> tasks[1..][k - 1] == tasks[k];
      if j == -1 then -1 else j + 1
  }

  /** The login handler's answer for a user table. */
  function LoginReply(users: map<string, MockUser>, email: string, password: string): (r: Reply)
    ensures r.status == 200 <==> email in users && users[email].password == password
    ensures r.status == 200 ==> r.body == LoginBody(LoginSuccessful, users[email].token, users[email].username)
    ensures r.status != 200 ==> r == Reply(401, ErrorBody(InvalidCredentials))
  {
    if email !in users || users[email].password != password then Reply(401, ErrorBody(InvalidCredentials))
    else Reply(200, LoginBody(LoginSuccessful, users[email].token, users[email].username))
  }

  /** The user the register handler stores: numbered one past the table's size, with a clock-stamped token. */
  function NewUser(users: map<string, MockUser>, username: string, email: string, password: string, nowMs: nat): (u: MockUser)
    ensures u.id == |users| + 1 && u.email == email && u.username == username && u.password == password
    ensures StartsWith(u.token, TokenPrefix) && u.token[|TokenPrefix|..] == DecimalString(nowMs)
  {
    var token := TokenPrefix + DecimalString(nowMs);
    assert token[..|TokenPrefix|] == TokenPrefix;
    MockUser(|users| + 1, username, email, password, token)
  }

  /** After registering a new e-mail, logging in with the same password succeeds and returns the new token. */
  lemma RegisterThenLogin(users: map<string, MockUser>, username: string, email: string, password: string, nowMs: nat)
    requires email !in users
    ensures var u := NewUser(users, username, email, password, nowMs);
      LoginReply(users[email := u], email, password) == Reply(200, LoginBody(LoginSuccessful, u.token, username))
  {
  }

  /** Logging in with any other password after registering fails. */
  lemma RegisteredWrongPassword(users: map<string, MockUser>, username: string, email: string, password: string,
                                other: string, nowMs: nat)
    requires email !in users && other != password
    ensures LoginReply(users[email := NewUser(users, username, email, password, nowMs)], email, other).status == 401
  {
  }

  /** The task the create handler appends; the two timestamps are two separate reads of the clock. */
  function CreatedTask(id: int, body: TaskFields, createdIso: string, updatedIso: string): (t: MockTask)
    ensures t.id == id && t.title == body.title && t.userId == 1
    ensures t.description == Str(if body.description.Truthy() then body.description.s else "")
    ensures t.status == Str(if body.status.Truthy() then body.status.s else "to-do")
    ensures t.createdAt == createdIso && t.updatedAt == updatedIso
  {
    MockTask(id, body.title, Str(body.description.Or("")), Str(body.status.Or("to-do")), 1, createdIso, updatedIso)
  }

  /** `value !== undefined ? value : current`: a supplied field, even null, replaces the stored one. */
  function Replace(value: Field, current: Field): (r: Field)
    ensures value != Undefined ==> r == value
    ensures value == Undefined ==> r == current
  {
    if value != Undefined then value else current
  }

  /** The task the update handler writes back: supplied fields replaced, `updated_at` set, the rest kept. */
  function UpdatedTask(t: MockTask, body: TaskFields, nowIso: string): (r: MockTask)
    ensures r.id == t.id && r.userId == t.userId && r.createdAt == t.createdAt && r.updatedAt == nowIso
    ensures r.title == Replace(body.title, t.title)
    ensures r.description == Replace(body.description, t.description)
    ensures r.status == Replace(body.status, t.status)
  {
    t.(title := Replace(body.title, t.title),
       description := Replace(body.description, t.description),
       status := Replace(body.status, t.status),
       updatedAt := nowIso)
  }

  /** An update that supplies nothing changes only the timestamp. */
  lemma EmptyUpdateTouchesOnlyTimestamp(t: MockTask, nowIso: string)
    ensures UpdatedTask(t, TaskFields(Undefined, Undefined, Undefined), nowIso) == t.(updatedAt := nowIso)
  {
  }

  /** The task `addTask` appends: the defaults (two separate clock reads), each overridden by the patch's own key. */
  function AddedTask(id: int, patch: TaskPatch, createdIso: string, updatedIso: string): (t: MockTask)
    ensures t.id == (if patch.id.Some? then patch.id.value else id)
    ensures t.userId == (if patch.userId.Some? then patch.userId.value else 1)
    ensures t.createdAt == (if patch.createdAt.Some? then patch.createdAt.value else createdIso)
    ensures t.updatedAt == (if patch.updatedAt.Some? then patch.updatedAt.value else updatedIso)
    ensures t.title == patch.title && t.description == patch.description && t.status == patch.status
  {
    MockTask(
      match patch.id case Some(i) => i case None => id,
      patch.title, patch.description, patch.status,
      match patch.userId case Some(u) => u case None => 1,
      match patch.createdAt case Some(c) => c case None => createdIso,
      match patch.updatedAt case Some(u) => u case None => updatedIso)
  }

  /** `array.splice(i, 1)` as a value: the element at `i` removed, the rest in order. */
  function RemoveAt(tasks: seq<MockTask>, i: nat): (r: seq<MockTask>)
    requires i < |tasks|
    ensures |r| == |tasks| - 1
    ensures forall k :: 0 <= k < i ==> r[k] == tasks[k]
    ensures forall k :: i <= k < |r| ==> r[k] == tasks[k + 1]
    ensures multiset(r) + multiset{tasks[i]} == multiset(tasks)
  {
    assert tasks == tasks[..i] + [tasks[i]] + tasks[i + 1..];
    tasks[..i] + tasks[i + 1..]
  }

  /** The first index holding the id is what `FindIndex` returns. */
  lemma {:induction false} FindFirst(tasks: seq<MockTask>, id: int, i: nat)
    requires i < |tasks| && tasks[i].id == id
    requires forall k :: 0 <= k < i ==> tasks[k].id != id
    ensures FindIndex(tasks, Some(id)) == i
  {
    if i > 0 {
      FindFirst(tasks[1..], id, i - 1);
    }
  }

  /** A task appended under an id no stored task has is what get-by-id then finds. */
  lemma FindAppended(tasks: seq<MockTask>, t: MockTask)
    requires forall k :: 0 <= k < |tasks| ==> tasks[k].id != t.id
    ensures FindIndex(tasks + [t], Some(t.id)) == |tasks|
  {
    var all := tasks + [t];
    assert forall k :: 0 <= k < |tasks| ==> all[k] == tasks[k];
    FindFirst(all, t.id, |tasks|);
  }

  /** Rewriting the found task while keeping its id keeps it the one found. */
  lemma FindAfterUpdate(tasks: seq<MockTask>, id: Option<int>, t: MockTask)
    requires FindIndex(tasks, id) >= 0 && t.id == tasks[FindIndex(tasks, id)].id
    ensures FindIndex(tasks[FindIndex(tasks, id) := t], id) == FindIndex(tasks, id)
  {
    var i := FindIndex(tasks, id);
    FindFirst(tasks[i := t], id.value, i);
  }

  /** When ids are unique, a deleted id is no longer found. */
  lemma FindAfterDelete(tasks: seq<MockTask>, id: Option<int>)
    requires FindIndex(tasks, id) >= 0
    requires forall i, j :: 0 <= i < j < |tasks| ==> tasks[i].id != tasks[j].id
    ensures FindIndex(RemoveAt(tasks, FindIndex(tasks, id)), id) == -1
  {
    var i := FindIndex(tasks, id);
    var r := RemoveAt(tasks, i);
    forall k | 0 <= k < |r| ensures r[k].id != id.value {
      if k < i { assert r[k] == tasks[k]; } else { assert r[k] == tasks[k + 1]; }
    }
  }

  /** Ids strictly increase along the sequence. */
  predicate StrictlyIncreasing(ids: seq<int>)
  {
    forall i, j :: 0 <= i < j < |ids| ==> ids[i] < ids[j]
  }

  /** The module-level state of the mock API. */
  class MockApi {
    var tasks: seq<MockTask>
    var nextTaskId: int
    var users: map<string, MockUser>
    /** The ids `create` and `addTask` handed out since the last reset, in order. */
    ghost var issued: seq<int>

    /**
     * The counter is above every id handed out since the last reset, so those ids
     * strictly increase; each user is stored under its own e-mail with an id in
     * 1..|users|, and no two users share an id.
     */
    ghost predicate Valid()
      reads this
    {
      && StrictlyIncreasing(issued)
      && (forall k :: 0 <= k < |issued| ==> issued[k] < nextTaskId)
      && (forall e :: e in users ==> users[e].email == e && 1 <= users[e].id <= |users|)
      && (forall e, f :: e in users && f in users && e != f ==> users[e].id != users[f].id)
    }

    constructor ()
      ensures Valid()
      ensures tasks == SeedTasks && nextTaskId == 3 && users == map[SeedEmail := SeedUser] && issued == []
    {
      tasks := SeedTasks;
      nextTaskId := 3;
      users := map[SeedEmail := SeedUser];
      issued := [];
    }

    /** The login handler: a read of the user table. */
    method Login(email: string, password: string) returns (r: Reply)
      ensures r == LoginReply(users, email, password)
    {
      if email !in users || users[email].password != password {
        return Reply(401, ErrorBody(InvalidCredentials));
      }
      var user := users[email];
      r := Reply(200, LoginBody(LoginSuccessful, user.token, user.username));
    }

    /** The register handler: 400 for a known e-mail, else the new user is stored under it. */
    method Register(username: string, email: string, password: string, nowMs: nat) returns (r: Reply)
      requires Valid()
      modifies this
      ensures Valid()
      ensures tasks == old(tasks) && nextTaskId == old(nextTaskId) && issued == old(issued)
      ensures email in old(users) ==> r == Reply(400, ErrorBody(UserExists)) && users == old(users)
      ensures email !in old(users) ==>
        var u := NewUser(old(users), username, email, password, nowMs);
        && users == old(users)[email := u]
        && r == Reply(201, RegisteredBody(UserRegistered, u.id, username))
    {
      if email in users {
        return Reply(400, ErrorBody(UserExists));
      }
      var newUser := NewUser(users, username, email, password, nowMs);
      users := users[email := newUser];
      assert |users| == |old(users)| + 1;
      r := Reply(201, RegisteredBody(UserRegistered, newUser.id, newUser.username));
    }

    /** The list handler: every stored task, whoever asks. */
    method ListTasks(header: Option<string>) returns (r: Reply)
      ensures !Authorized(header) ==> r == Unauthorized
      ensures Authorized(header) ==> r == Reply(200, TasksBody(tasks))
    {
      if !Authorized(header) {
        return Unauthorized;
      }
      r := Reply(200, TasksBody(tasks));
    }

    /** The get-by-id handler: the first task with that id, or 404. */
    method GetTask(header: Option<string>, id: Option<int>) returns (r: Reply)
      ensures !Authorized(header) ==> r == Unauthorized
      ensures Authorized(header) && (id.None? || forall k :: 0 <= k < |tasks| ==> tasks[k].id != id.value) ==> r == NotFound
      ensures Authorized(header) && FindIndex(tasks, id) >= 0 ==> r == Reply(200, TaskBody(tasks[FindIndex(tasks, id)]))
      ensures Authorized(header) && r != NotFound ==> exists i :: (0 <= i < |tasks| && r == Reply(200, TaskBody(tasks[i]))
        && id == Some(tasks[i].id) && forall k :: 0 <= k < i ==> tasks[k].id != tasks[i].id)
    {
      if !Authorized(header) {
        return Unauthorized;
      }
      var i := FindIndex(tasks, id);
      if i == -1 {
        return NotFound;
      }
      r := Reply(200, TaskBody(tasks[i]));
    }

    /** The create handler: 401, 400 without a truthy title, else the new task is appended under the counter's id. */
    method CreateTask(header: Option<string>, body: TaskFields, createdIso: string, updatedIso: string) returns (r: Reply)
      requires Valid()
      modifies this
      ensures Valid()
      ensures users == old(users)
      ensures !Authorized(header) ==> r == Unauthorized && tasks == old(tasks) && nextTaskId == old(nextTaskId) && issued == old(issued)
      ensures Authorized(header) && !body.title.Truthy() ==>
        r == Reply(400, ErrorBody(TitleRequired)) && tasks == old(tasks) && nextTaskId == old(nextTaskId) && issued == old(issued)
      ensures Authorized(header) && body.title.Truthy() ==>
        var t := CreatedTask(old(nextTaskId), body, createdIso, updatedIso);
        && tasks == old(tasks) + [t] && nextTaskId == old(nextTaskId) + 1
        && r == Reply(201, TaskBody(t))
        && issued == old(issued) + [t.id]
        && forall k :: 0 <= k < |old(issued)| ==> old(issued)[k] < t.id
    {
      if !Authorized(header) {
        return Unauthorized;
      }
      if !body.title.Truthy() {
        return Reply(400, ErrorBody(TitleRequired));
      }
      var newTask := CreatedTask(nextTaskId, body, createdIso, updatedIso);
      issued := issued + [nextTaskId];
      nextTaskId := nextTaskId + 1;
      tasks := tasks + [newTask];
      r := Reply(201, TaskBody(newTask));
    }

    /** The update handler: 404 for an unknown id, else the first task with that id is rewritten in place. */
    method UpdateTask(header: Option<string>, id: Option<int>, body: TaskFields, nowIso: string) returns (r: Reply)
      modifies this
      ensures users == old(users) && nextTaskId == old(nextTaskId) && issued == old(issued)
      ensures !Authorized(header) ==> r == Unauthorized && tasks == old(tasks)
      ensures Authorized(header) && FindIndex(old(tasks), id) == -1 ==> r == NotFound && tasks == old(tasks)
      ensures Authorized(header) && FindIndex(old(tasks), id) >= 0 ==>
        var i := FindIndex(old(tasks), id);
        var t := UpdatedTask(old(tasks)[i], body, nowIso);
        && tasks == old(tasks)[i := t]
        && r == Reply(200, TaskBody(t))
    {
      if !Authorized(header) {
        return Unauthorized;
      }
      var taskIndex := FindIndex(tasks, id);
      if taskIndex == -1 {
        return NotFound;
      }
      var updated := UpdatedTask(tasks[taskIndex], body, nowIso);
      tasks := tasks[taskIndex := updated];
      r := Reply(200, TaskBody(updated));
    }

    /** The delete handler: 404 for an unknown id, else the first task with that id is spliced out. */
    method DeleteTask(header: Option<string>, id: Option<int>) returns (r: Reply)
      modifies this
      ensures users == old(users) && nextTaskId == old(nextTaskId) && issued == old(issued)
      ensures !Authorized(header) ==> r == Unauthorized && tasks == old(tasks)
      ensures Authorized(header) && FindIndex(old(tasks), id) == -1 ==> r == NotFound && tasks == old(tasks)
      ensures Authorized(header) && FindIndex(old(tasks), id) >= 0 ==>
        tasks == RemoveAt(old(tasks), FindIndex(old(tasks), id)) && r == Reply(200, MessageBody(TaskDeleted))
    {
      if !Authorized(header) {
        return Unauthorized;
      }
      var taskIndex := FindIndex(tasks, id);
      if taskIndex == -1 {
        return NotFound;
      }
      tasks := tasks[..taskIndex] + tasks[taskIndex + 1..];
      r := Reply(200, MessageBody(TaskDeleted));
    }

    /** `resetTasks`: the seed tasks and counter 3 again; the user table is not reset. */
    method ResetTasks()
      requires Valid()
      modifies this
      ensures Valid()
      ensures tasks == SeedTasks && nextTaskId == 3 && issued == [] && users == old(users)
    {
      tasks := SeedTasks;
      nextTaskId := 3;
      issued := [];
    }

    /** `getTasks`: a copy of the list. */
    method GetTasks() returns (copy: seq<MockTask>)
      ensures copy == tasks
    {
      copy := tasks;
    }

    /** `addTask`: appends the patched task and advances the counter even when the patch sets its own id. */
    method AddTask(patch: TaskPatch, createdIso: string, updatedIso: string) returns (t: MockTask)
      requires Valid()
      modifies this
      ensures Valid()
      ensures t == AddedTask(old(nextTaskId), patch, createdIso, updatedIso)
      ensures tasks == old(tasks) + [t] && nextTaskId == old(nextTaskId) + 1 && users == old(users)
      ensures issued == old(issued) + [old(nextTaskId)]
    {
      t := AddedTask(nextTaskId, patch, createdIso, updatedIso);
      issued := issued + [nextTaskId];
      nextTaskId := nextTaskId + 1;
      tasks := tasks + [t];
    }

    /** `clearTasks`: an empty list; the counter keeps counting. */
    method ClearTasks()
      modifies this
      ensures tasks == [] && nextTaskId == old(nextTaskId) && issued == old(issued) && users == old(users)
    {
      tasks := [];
    }
  }
}

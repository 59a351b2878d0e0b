# Task tracker core, modelled in Dafny

A Dafny model of a small task tracker: an Express backend that stores each user's tasks and
authenticates users with JWTs, and a React frontend with a form-validation hook, a mock API used
by its tests, and a task table. The model covers:

- **`TaskController`** (`task_controller.dfy`) — the backend task controller. It covers:
  - create with its title check and defaults;
  - list, get, update and delete, each restricted to the caller's own rows;
  - on update, the field-by-field merge and the duration computed when a task moves into "done";
  - the status enum of the task model.

  The task table is a `class TaskStore` over a map from id to row, with the id sequence beside it.
- **`AuthMiddleware`** (`auth_middleware.dfy`) — `verifyToken`. It takes the second space-separated field of the
  `authorization` header. Without one it answers 403; otherwise it hands the field to the verifier, then either
  stores the payload and calls `next`, or answers 401.
- **`AuthController`** (`auth_controller.dfy`) — the express-validator chains for register and login, and
  `checkValidation`'s first-message answer. It also covers `register`'s username-then-email conflict checks and
  `login`'s single "Invalid credentials." answer. The user table is a `class UserTable`.
- **`AuthValidation`** (`auth_validation.dfy`) — the frontend Zod login and signup schemas, written as data. It
  models the issues `parse` reports and the hook's error map as a `class FormValidation`. That class has
  `validateField`, `validateForm`, `clearErrors` and `clearFieldError`; `validateForm`'s `forEach` is a loop
  method.
- **`MockHandlers`** (`mock_handlers.dfy`) — the mock API as a `class MockApi`. Its fields are the task list, the
  id counter and the user table. Its methods are the login, register and task handlers, plus `resetTasks`,
  `getTasks`, `addTask` and `clearTasks`.
- **`TaskList`** (`task_list.dfy`) — the dashboard table: the status filter, the badge variant, and the rendered
  rows.
- **`Wrappers`**, **`Js`** and **`Patterns`** (`js.dfy`) — support modules:
  - `Wrappers`: `Option`;
  - `Js`: the JavaScript semantics the handlers rely on, i.e. request fields that are undefined, null or a string,
    `||` and `??`, `split` on one character, `trim`, `startsWith`, `Math.floor` on a quotient, the truncating `%`,
    and decimal printing;
  - `Patterns`: the two regular expressions both validators use.

Library calls and the environment are parameters:

- `jwt.verify` and `jwt.sign`;
- `bcrypt.hash` and `bcrypt.compare`;
- the e-mail checks of express-validator and Zod;
- the clock;
- the request's headers, route parameters and body.

Three behaviours of the code worth knowing:

- **Elapsed time on completion.** It is not clamped at zero. A fixed three-hour offset (10800000 ms) is
  subtracted, so a task completed within three hours of its creation gets a negative hour count.
  `TaskController.EarlyCompletionIsNegative` states this.
- **Completed tasks.** The server does not lock a completed task. An update to another status in the enum
  moves it out of "done", as `TaskController.DoneIsNotLocked` states for "to-do"; an update to "done" keeps it done
  with its first duration.
- **The middle status.** The token is `in-progress`, as the task model's enum spells it. The spelling
  `in progress` is an ordinary unknown status: the task model refuses to save it, and the dashboard shows it with
  the default badge. The database migration spells the enum `in progress` instead; the model settles this drift
  on the task model's spelling.

## Model

| member | source | states |
|---|---|---|
| Js.Split | backend/src/api/middleware/auth.middleware.js:7 | `split(" ")` yields at least one piece and no piece holds the separator |
| Js.JoinSplit | backend/src/api/middleware/auth.middleware.js:7 | joining the pieces of a split restores the header text |
| Js.SplitJoin | backend/src/api/middleware/auth.middleware.js:7 | splitting a join of separator-free words gives those words back |
| Js.SplitPrefix | backend/src/api/middleware/auth.middleware.js:7 | a separator-free word before the first space is the first piece, the rest splits on its own |
| Js.SplitTwoWords | backend/src/api/middleware/auth.middleware.js:7 | "scheme token" splits into exactly the two words |
| Js.SplitFree | backend/src/api/middleware/auth.middleware.js:7 | a header without a space splits into itself alone |
| Js.Trim | backend/src/api/controllers/auth.controller.js:16-17 | `trim` returns a slice of the input with only white space cut from either side, leaves no white space at either end, and is empty iff the input is all white space |
| Js.TrimIdempotent | backend/src/api/controllers/auth.controller.js:41-42 | trimming an already trimmed value changes nothing |
| Js.TrimOfTrimmed | backend/src/api/controllers/auth.controller.js:41-42 | a value with no white space at its ends is its own trim |
| Js.FloorDiv | backend/src/api/controllers/task.controller.js:93 | `Math.floor(a / b)` is the quotient q with q·b ≤ a < q·b + b |
| Js.TruncRem | backend/src/api/controllers/task.controller.js:95-96 | JavaScript `%` keeps the sign of the dividend: the Euclidean remainder for a ≥ 0, its negation on −a for a < 0 |
| Js.DecimalString | frontend/src/mocks/handlers.js:81 | a non-negative number prints as a non-empty run of decimal digits without a leading zero that denotes exactly that number |
| Js.LeadingSpace | backend/src/api/controllers/auth.controller.js:17 | the count of leading white-space characters, followed by a non-space |
| Js.TrailingSpace | backend/src/api/controllers/auth.controller.js:17 | the count of trailing white-space characters, preceded by a non-space |
| TaskController.ParseStatus | backend/src/models/task.model.js:19-23 | a status is stored iff it is one of the three enum strings; null and undefined are refused |
| TaskController.ParseStatusName | backend/src/models/task.model.js:20 | each enum value reads back as itself |
| TaskController.Decompose | backend/src/api/controllers/task.controller.js:93-96 | for t ≥ 0: hours ≥ 0, minutes and seconds in 0..59, and h·3600 + m·60 + s = t; for t < 0: hours < 0, minutes in −60..0, seconds in −59..0 |
| TaskController.DecomposeSum | backend/src/api/controllers/task.controller.js:94-96 | the three parts of a non-negative count add back up to it |
| TaskController.DecomposeCompose | backend/src/api/controllers/task.controller.js:94-96 | decomposing the seconds of a well-formed duration returns that duration |
| TaskController.EarlyCompletionIsNegative | backend/src/api/controllers/task.controller.js:90-94 | completing within three hours of creation yields a negative hour count |
| TaskController.CreateOutcome | backend/src/api/controllers/task.controller.js:9-28 | 400 iff the title is falsy; 500 iff the supplied status is outside the enum; otherwise the row has the caller, the title, a nullable description, status defaulting to to-do, and duration 0:0:0 exactly when created done |
| TaskController.FindOwned | backend/src/api/controllers/task.controller.js:54 | a row is found iff it has the id and belongs to the caller |
| TaskController.ForeignTaskLooksMissing | backend/src/api/controllers/task.controller.js:54-58 | another user's task and a missing id get the same not-found result |
| TaskController.UpdatedTask | backend/src/api/controllers/task.controller.js:81-106 | save succeeds iff the status is in the enum; title and description are replaced iff given a string; id, owner and creation time are kept; the duration is computed only on a move into done, otherwise kept |
| TaskController.DoneIsNotLocked | backend/src/api/controllers/task.controller.js:85-105 | a done task set to to-do becomes to-do with nothing else changed |
| TaskController.SecondCompletionKeepsDuration | backend/src/api/controllers/task.controller.js:85 | marking a done task done again keeps its first duration |
| TaskController.TaskStore.CreateTask | backend/src/api/controllers/task.controller.js:21-30 | the answer is the create outcome; on 201 exactly the new row is inserted under a fresh id, otherwise nothing changes |
| TaskController.TaskStore.GetTasks | backend/src/api/controllers/task.controller.js:37-42 | returns exactly the caller's rows |
| TaskController.TaskStore.GetTaskById | backend/src/api/controllers/task.controller.js:49-60 | 200 with the row iff the caller owns that id, else 404 "Task not found." |
| TaskController.TaskStore.UpdateTask | backend/src/api/controllers/task.controller.js:67-108 | 404 with no change when not owned; 500 with no change when the status is refused; else only that row becomes the updated task |
| TaskController.TaskStore.DeleteTask | backend/src/api/controllers/task.controller.js:115-126 | 204 iff the caller owned the id, removing exactly that row; else 404 and no change |
| AuthMiddleware.BearerToken | backend/src/api/middleware/auth.middleware.js:6-7 | a token exists only for a present header, is the non-empty second field of its split, and has no space; conversely a non-empty second field is always the token |
| AuthMiddleware.ExtraWordsIgnored | backend/src/api/middleware/auth.middleware.js:7 | in "scheme token more" the token is still the second word; later words are ignored |
| AuthMiddleware.TokenIsSecondWord | backend/src/api/middleware/auth.middleware.js:7 | for "scheme token" the token is the second word, whatever the scheme, lower-case "bearer" included |
| AuthMiddleware.NoTokenWithoutSpace | backend/src/api/middleware/auth.middleware.js:7-9 | a header without a space carries no token |
| AuthMiddleware.NoTokenAfterEmptyField | backend/src/api/middleware/auth.middleware.js:7-9 | a first space followed by nothing or by another space gives no token |
| AuthMiddleware.BearerExample | backend/src/api/middleware/auth.middleware.js:6-7 | "Bearer abc" yields "abc" |
| AuthMiddleware.BasicSchemeExample | backend/src/api/middleware/auth.middleware.js:6-7 | a Basic credential is passed on as a token |
| AuthMiddleware.NoTokenExamples | backend/src/api/middleware/auth.middleware.js:6-9 | absent, empty, "Bearer", "Bearer " and space-free headers, and a capitalised key, give no token |
| AuthMiddleware.VerifyToken | backend/src/api/middleware/auth.middleware.js:5-24 | 403 and the token-required message without a token; payload stored and `next` called when it verifies; 401 and the invalid-token message otherwise, with `req.user` untouched |
| AuthMiddleware.ExactlyOneOutcome | backend/src/api/middleware/auth.middleware.js:9-23 | every request ends in exactly one of `next` or a status plus body; 403 iff there is no token, and then the verifier is never called |
| AuthController.Failing | backend/src/api/controllers/auth.controller.js:15-48 | the chain reports nothing iff every check passes, and each message belongs to a failing check |
| AuthController.FailingAppend | backend/src/api/controllers/auth.controller.js:15-37 | the fields' chains report their messages one after the other |
| AuthController.UsernameAccepted | backend/src/api/controllers/auth.controller.js:16-23 | a username passes iff, once trimmed, it has 3–20 characters from `[A-Za-z0-9_]` |
| AuthController.ValidatorLength | backend/src/api/controllers/auth.controller.js:20 | `isLength`'s count is at most the character count, and equal to it when the value holds no variation selector |
| AuthController.SelectorNotCounted | backend/src/api/controllers/auth.controller.js:20 | "ab" followed by U+FE0F has length 2 for `isLength` |
| AuthController.SelectorUsernameTooShort | backend/src/api/controllers/auth.controller.js:20-23 | for that username the first reported message is the length message |
| AuthController.PasswordAccepted | backend/src/api/controllers/auth.controller.js:30-36 | a password passes iff it has 6–255 characters, only letters and digits, and at least one of each |
| AuthController.RegisterErrors | backend/src/api/controllers/auth.controller.js:15-37 | the recorded messages are the username chain's, then the e-mail chain's, then the password chain's |
| AuthController.LoginErrors | backend/src/api/controllers/auth.controller.js:39-47 | the recorded messages are the e-mail chain's, then "Password is required." exactly when the password is empty |
| AuthController.LoginValidIff | backend/src/api/controllers/auth.controller.js:39-47 | a login validates iff the trimmed e-mail is non-empty and well-formed and the password is non-empty |
| AuthController.RegisterValidIff | backend/src/api/controllers/auth.controller.js:15-37 | a registration validates iff the trimmed username, the trimmed e-mail and the untrimmed password each do |
| AuthController.FirstError | backend/src/api/controllers/auth.controller.js:51-57 | no answer iff there are no errors, else the first recorded message |
| AuthController.FindByEmail | backend/src/models/user.model.js:86-87 | a user is found iff one has the e-mail, and the result carries that e-mail |
| AuthController.RegisterDecision | backend/src/api/controllers/auth.controller.js:60-77 | 400 with the first message; 409 for a taken username before a taken e-mail; otherwise a new user with the trimmed names and the hashed password |
| AuthController.RegisterKeepsUnique | backend/src/api/controllers/auth.controller.js:67-77 | an accepted registration keeps ids, usernames and e-mails unique |
| AuthController.Login | backend/src/api/controllers/auth.controller.js:90-116 | 400 with the first message; a token over id, username and e-mail iff the e-mail is known and the password matches; otherwise 401 "Invalid credentials." |
| AuthController.NoAccountLeak | backend/src/api/controllers/auth.controller.js:97-100 | an unknown e-mail and a wrong password get the same answer |
| AuthController.RegisterThenLogin | backend/src/api/controllers/auth.controller.js:60-116 | right after registering, logging in with the same e-mail and password succeeds with the new user's token |
| AuthController.FindLast | backend/src/models/user.model.js:87 | a user appended with a fresh e-mail is what a lookup of that e-mail finds |
| AuthController.UserTable.Register | backend/src/api/controllers/auth.controller.js:60-83 | answers as the decision says, appending only an accepted user and keeping the table unique |
| AuthValidation.FailingMessages | frontend/src/hooks/useAuthValidation.js:5-33 | a string chain reports nothing iff every one of its checks passes |
| AuthValidation.FailingMessagesAppend | frontend/src/hooks/useAuthValidation.js:5-33 | the messages of two chains run in sequence are the first's followed by the second's |
| AuthValidation.FailingMessagesSingle | frontend/src/hooks/useAuthValidation.js:5-33 | one check reports its own message exactly when it fails |
| AuthValidation.FailingMessagesFromFailures | frontend/src/hooks/useAuthValidation.js:5-33 | every reported message is the message of a failing check |
| AuthValidation.LastMessageIsLastFailure | frontend/src/hooks/useAuthValidation.js:71-75 | the last reported message is the message of the latest failing check |
| AuthValidation.FirstMessageIsFirstFailure | frontend/src/hooks/useAuthValidation.js:53-56 | the first reported message is the message of the earliest failing check |
| AuthValidation.EmailRule | frontend/src/hooks/useAuthValidation.js:6-9 | an e-mail passes iff it is non-empty and has the e-mail format |
| AuthValidation.LoginPasswordRule | frontend/src/hooks/useAuthValidation.js:10-13 | a login password passes iff it has at least six characters |
| AuthValidation.SignupUsernameRule | frontend/src/hooks/useAuthValidation.js:17-22 | a signup username passes iff it has 3–20 characters from `[A-Za-z0-9_]`, untrimmed |
| AuthValidation.SignupPasswordRule | frontend/src/hooks/useAuthValidation.js:27-32 | a signup password passes iff it has 6–255 characters, only letters and digits, and at least one of each |
| AuthValidation.UntrimmedUsernameRejected | frontend/src/hooks/useAuthValidation.js:17-22 | a username with a leading space is rejected, unlike on the backend |
| AuthValidation.RuleOf | frontend/src/hooks/useAuthValidation.js:43-44 | the rule found is the schema's rule of that name; none iff no field has it |
| AuthValidation.FieldIssues | frontend/src/hooks/useAuthValidation.js:64 | every issue's path is the field name; no issues iff the field is present and passes its chain; a missing key gives the single issue "Required"; a present value gives one issue per failing check, carrying that check's message, in chain order |
| AuthValidation.SchemaIssues | frontend/src/hooks/useAuthValidation.js:64 | every issue names a schema field; no issues iff every field is present and passes |
| AuthValidation.SignupFormValid | frontend/src/hooks/useAuthValidation.js:16-33 | a signup form is valid iff username, e-mail and password are each present and pass their rules |
| AuthValidation.EmptyPasswordMessages | frontend/src/hooks/useAuthValidation.js:10-13 | an empty login password fails both checks, required first |
| AuthValidation.FieldShowsFirstFormShowsLast | frontend/src/hooks/useAuthValidation.js:53-76 | for an empty password `validateField` stores the required message while `validateForm` keeps the length message |
| AuthValidation.FieldErrorsAfter | frontend/src/hooks/useAuthValidation.js:40-60 | an unknown field changes nothing; an accepted value removes the field's entry; a rejected one stores the earliest failing message, or "Invalid field" when it is empty; other entries are untouched |
| AuthValidation.WithoutField | frontend/src/hooks/useAuthValidation.js:90-96 | exactly the named key is removed |
| AuthValidation.CollectFieldErrors | frontend/src/hooks/useAuthValidation.js:70-76 | each field holds the message of its last issue, and only fields some issue names appear |
| AuthValidation.LastMessageNamesIssueField | frontend/src/hooks/useAuthValidation.js:71-74 | a collected field is the first path element of some issue |
| AuthValidation.LastMessageAppend | frontend/src/hooks/useAuthValidation.js:71-75 | over two runs of issues, a later run's write for a field overrides an earlier one's |
| AuthValidation.LastMessageAbsent | frontend/src/hooks/useAuthValidation.js:71-75 | issues that never name a field write nothing for it |
| AuthValidation.FormMessageForField | frontend/src/hooks/useAuthValidation.js:64-75 | for a field declared once, `validateForm` keeps "Required" when its key is missing, nothing when it passes, else the message of its last failing check, whatever the other fields hold |
| AuthValidation.FormValidation.constructor | frontend/src/hooks/useAuthValidation.js:36-38 | a form starts with no errors and not valid |
| AuthValidation.FormValidation.ValidateField | frontend/src/hooks/useAuthValidation.js:40-60 | the stored errors become the updated map and `isValid` is untouched |
| AuthValidation.FormValidation.ValidateForm | frontend/src/hooks/useAuthValidation.js:62-83 | valid iff the schema reports no issues, and then no errors are kept; otherwise a non-empty map keyed by schema fields; a field is a key iff some issue names it, and holds its last issue's message; stored as the new state |
| AuthValidation.FormValidation.ClearErrors | frontend/src/hooks/useAuthValidation.js:85-88 | an empty map and `isValid` false |
| AuthValidation.FormValidation.ClearFieldError | frontend/src/hooks/useAuthValidation.js:90-96 | the field's entry is removed and nothing else changes |
| MockHandlers.AuthorizedIff | frontend/src/mocks/handlers.js:102 | a request is let through iff its Authorization header is present and starts with "Bearer " |
| MockHandlers.FindIndex | frontend/src/mocks/handlers.js:193 | −1 iff no task has the id (always for NaN), else the first index holding it |
| MockHandlers.FindFirst | frontend/src/mocks/handlers.js:127-128 | the earliest index holding an id is the one found |
| MockHandlers.LoginReply | frontend/src/mocks/handlers.js:45-60 | 200 with the user's token and name iff the e-mail is known and the password equal, else 401 |
| MockHandlers.NewUser | frontend/src/mocks/handlers.js:76-82 | the new user is numbered one past the table size and gets a token "fake-jwt-token-" plus the clock's digits |
| MockHandlers.RegisterThenLogin | frontend/src/mocks/handlers.js:45-84 | after registering a new e-mail, logging in with its password returns the new token |
| MockHandlers.RegisteredWrongPassword | frontend/src/mocks/handlers.js:46 | after registering, any other password is refused |
| MockHandlers.CreatedTask | frontend/src/mocks/handlers.js:163-171 | the counter's id, the title given, description defaulting to '' and status to 'to-do' for falsy values, user 1, the creation and update timestamps from two separate clock reads |
| MockHandlers.Replace | frontend/src/mocks/handlers.js:207-209 | a supplied field, null included, replaces the stored one; only undefined keeps it |
| MockHandlers.UpdatedTask | frontend/src/mocks/handlers.js:205-211 | id, user and creation time are kept; each supplied field is replaced; `updated_at` is now |
| MockHandlers.EmptyUpdateTouchesOnlyTimestamp | frontend/src/mocks/handlers.js:205-211 | an update that supplies nothing changes only `updated_at` |
| MockHandlers.AddedTask | frontend/src/mocks/handlers.js:284-290 | the defaults (counter id, user 1, and two separate clock reads for the timestamps) each yield to the patch's own key |
| MockHandlers.RemoveAt | frontend/src/mocks/handlers.js:243 | one element fewer, the others in their order, and the removed one accounts for the difference |
| MockHandlers.FindAppended | frontend/src/mocks/handlers.js:164-173 | a task appended under an unused id is what get-by-id finds |
| MockHandlers.FindAfterUpdate | frontend/src/mocks/handlers.js:193-213 | an update keeps the task findable at the same index |
| MockHandlers.FindAfterDelete | frontend/src/mocks/handlers.js:233-243 | with unique ids, a deleted id is no longer found |
| MockHandlers.MockApi.constructor | frontend/src/mocks/handlers.js:4-36 | the two seed tasks, counter 3 and the one seed user |
| MockHandlers.MockApi.Login | frontend/src/mocks/handlers.js:42-61 | answers as `LoginReply` over the current users |
| MockHandlers.MockApi.Register | frontend/src/mocks/handlers.js:64-94 | 400 with no change for a known e-mail; else the new user is stored under its e-mail and ids stay distinct and within 1..size |
| MockHandlers.MockApi.ListTasks | frontend/src/mocks/handlers.js:99-114 | 401 without a Bearer header, else every stored task |
| MockHandlers.MockApi.GetTask | frontend/src/mocks/handlers.js:117-141 | 401 without a Bearer header; 404 when no task has the id; 200 with the first task holding it whenever one does |
| MockHandlers.MockApi.CreateTask | frontend/src/mocks/handlers.js:144-179 | 401 or 400 with no change; else one task appended with the counter's id, the counter advanced, and the id above every id issued since the last reset |
| MockHandlers.MockApi.UpdateTask | frontend/src/mocks/handlers.js:182-219 | 401 or 404 with no change; else only the found index is rewritten, the length kept |
| MockHandlers.MockApi.DeleteTask | frontend/src/mocks/handlers.js:222-249 | 401 or 404 with no change; else exactly the found element is spliced out |
| MockHandlers.MockApi.ResetTasks | frontend/src/mocks/handlers.js:255-277 | the seed tasks and counter 3 are restored; users are kept |
| MockHandlers.MockApi.GetTasks | frontend/src/mocks/handlers.js:280 | returns the current list |
| MockHandlers.MockApi.AddTask | frontend/src/mocks/handlers.js:283-293 | appends the patched task and advances the counter even when the patch sets its own id |
| MockHandlers.MockApi.ClearTasks | frontend/src/mocks/handlers.js:296-298 | empties the list and keeps the counter |
| TaskList.WithStatus | frontend/src/components/dashboard/TaskList.js:13 | exactly the tasks of that status, each as often as in the input, as a subsequence of it |
| TaskList.WithStatusOfUniform | frontend/src/components/dashboard/TaskList.js:13 | a list all of one status is its own filter |
| TaskList.Filtered | frontend/src/components/dashboard/TaskList.js:9-14 | "" or "all" shows every task; any other value filters by status |
| TaskList.FilterIdempotent | frontend/src/components/dashboard/TaskList.js:9-14 | filtering twice by the same choice is filtering once |
| TaskList.FilterKeepsExactlyMatching | frontend/src/components/dashboard/TaskList.js:13 | a task is shown iff it is in the list with the chosen status |
| TaskList.BadgeVariant | frontend/src/components/dashboard/TaskList.js:16-22 | done→success, in-progress→warning, to-do→secondary, anything else→primary |
| TaskList.UnknownStatusIsPrimary | frontend/src/components/dashboard/TaskList.js:17-22 | "in progress", "Done" and "" get the primary badge |
| TaskList.Rows | frontend/src/components/dashboard/TaskList.js:52-66 | an empty list renders one "No tasks found." row spanning five columns, otherwise one row per task in order with its id, title, description, total duration, creation date and badge |
| TaskList.FilteredRowsShowStatus | frontend/src/components/dashboard/TaskList.js:52-59 | under a status filter every badge shows that status |

## Left out

- HTTP framing, logging (`logger.info` / `logger.error`), and the server's route wiring and bootstrap are not
  modelled. Answers are values carrying a status and a body. The task routes refer to a handler name
  (`getAllTasks`) that the controller does not export; that wiring is not part of this model.
- Database failures are not modelled: a failing `create`, `findAll`, `findOne`, `save` or `destroy`, and the
  500 answers of the `catch` blocks. The one exception is the task model refusing a status outside its enum,
  which the model does capture.
- The model does not re-check the task model's column constraints on create, such as the title length bound. It
  also does not model the user model's own `isEmail` check on the e-mail column.
- `jwt.sign`, `jwt.verify` (including the 30-minute expiry and the secret), `bcrypt.hash`, `bcrypt.compare`,
  express-validator's `isEmail` and Zod's `.email()` are parameters, not reimplemented.
- Task ids from `req.params` are taken as already-parsed numbers. The ORM's coercion of the id string and the
  mock's `parseInt` parsing are not modelled: a NaN id is `None`.
- TaskController.TaskStore.GetTasks: returns a set of rows, so the database's row order is not modelled.
- TaskController.TaskStore.CreateTask: ids come from a counter that advances only on a successful insert. The
  gap a failed insert leaves in a database sequence is not modelled.
- TaskController.UpdatedTask: the duration is stored as an (hours, minutes, seconds) triple. The controller
  writes the text `h:m:s` into a column the model declares as a big integer, and on create with "done" writes
  the number 0. The model stores `(0, 0, 0)` for the latter and does not model the column's conversion of either.
- AuthValidation: string lengths count Unicode code points, whereas Zod's `.min` and `.max` count UTF-16 code
  units. The two differ only for characters outside the Basic Multilingual Plane. The backend's `isLength` is
  modelled exactly by `AuthController.ValidatorLength`.
- Request bodies whose fields are numbers, objects or arrays are not modelled. Backend fields are undefined,
  null or a string; the validators see strings (a missing field is validated as the empty string); the mock's
  login and register fields are strings.
- MockHandlers: a user-table key that names an `Object.prototype` property, such as `constructor`, is not
  modelled. Such a key resolves to an inherited value in JavaScript.
- TaskList: a status that names an `Object.prototype` property is looked up in `variants` as a plain key, so the
  inherited value JavaScript would find is not modelled.
- MockHandlers.AddedTask: a patch that sets `id`, `user_id`, `created_at` or `updated_at` explicitly to
  `undefined` is treated as not setting it.
- AuthValidation.FormValidation.ValidateForm: the fallback for a non-Zod exception (`{ isValid: false,
  errors: {} }`, line 82) is not modelled, since every issue here comes from the schema.
- AuthValidation.FormValidation.ValidateField: the `formData` argument, which the hook ignores, is not modelled.
- React state plumbing is not modelled: the model updates the fields in place, where React uses `useState`
  setters and memoisation with `useCallback` and `useMemo`. Rendering details beyond the rows are also left out:
  the filter menu and the date formatting of `created_at`.

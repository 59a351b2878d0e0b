/**
 * The backend's registration and login controller: the express-validator chains
 * for both requests, `checkValidation`'s "first failing message" answer, the
 * username-then-email conflict checks of `register`, and `login`'s single
 * "Invalid credentials." answer for every failed lookup.
 *
 * Library calls are parameters: `isEmail` (the validator's e-mail check),
 * `hash` (bcrypt's hash, applied by the model's create hook), `matches`
 * (bcrypt's compare of a plain password against a stored hash) and `sign`
 * (jwt.sign with the server's secret). The clock is `nowMs`.
 */
module AuthController {
  import opened Wrappers
  import opened Js
  import opened Patterns

  // ---------------------------------------------------------------- validation chains

  /** The messages of a chain's failing checks, in chain order (no check bails out early). */
  function Failing(checks: seq<(bool, string)>): (msgs: seq<string>)
    ensures msgs == [] <==> forall i :: 0 <= i < |checks| ==> checks[i].0
    ensures forall m :: m in msgs ==> exists i :: 0 <= i < |checks| && !checks[i].0 && checks[i].1 == m
  {
    if checks == [] then []
    else (if checks[0].0 then [] else [checks[0].1]) + Failing(checks[1..])
  }

  const UsernameRequired := "Username is required."
  const UsernameLength := "Username must be 3\U{2013}20 characters long."
  const UsernameChars := "Username can only contain letters, numbers, or underscores."
  const EmailRequired := "Email is required."
  const EmailInvalid := "Invalid email format."
  const PasswordRequired := "Password is required."
  const PasswordLength := "Password must be at least 6 and at most 255 characters long."
  const PasswordChars := "Password must contain both letters and numbers."

  /** The variation selectors U+FE0E and U+FE0F, which validator.js's `isLength` does not count. */
  predicate IsPresentationSelector(ch: char) { ch == '\U{FE0E}' || ch == '\U{FE0F}' }

  /**
   * The length validator.js's `isLength` compares: a character outside the Basic
   * Multilingual Plane counts once (it is one `char` here), and variation selectors not at all.
   */
  function ValidatorLength(s: string): (n: nat)
    ensures n <= |s|
    ensures (forall k :: 0 <= k < |s| ==> !IsPresentationSelector(s[k])) ==> n == |s|
  {
    if s == [] then 0 else ValidatorLength(s[1..]) + (if IsPresentationSelector(s[0]) then 0 else 1)
  }

  /** A trailing variation selector does not count towards the length. */
  lemma SelectorNotCounted()
    ensures ValidatorLength("ab\U{FE0F}") == 2
  {
    var s := "ab\U{FE0F}";
    assert s[1..] == "b\U{FE0F}" && s[1..][1..] == "\U{FE0F}" && s[1..][1..][1..] == [];
  }

  /** `body("username").trim().notEmpty().isLength({min: 3, max: 20}).matches(...)`, on the trimmed value. */
  function UsernameChecks(u: string): seq<(bool, string)>
  {
    [(u != "", UsernameRequired), (3 <= ValidatorLength(u) <= 20, UsernameLength), (IsUsernameWord(u), UsernameChars)]
  }

  /** `body("email").trim().notEmpty().isEmail()`, on the trimmed value. */
  function EmailChecks(e: string, isEmail: string -> bool): seq<(bool, string)>
  {
    [(e != "", EmailRequired), (isEmail(e), EmailInvalid)]
  }

  /** `body("password").notEmpty().isLength({min: 6, max: 255}).matches(...)`, untrimmed. */
  function RegisterPasswordChecks(p: string): seq<(bool, string)>
  {
    [(p != "", PasswordRequired), (6 <= ValidatorLength(p) <= 255, PasswordLength), (IsLettersAndDigits(p), PasswordChars)]
  }

  /** A registration request body; a missing field is validated as the empty string. */
  datatype RegisterBody = RegisterBody(username: string, email: string, password: string)

  /** A login request body. */
  datatype LoginBody = LoginBody(email: string, password: string)

  /** Every message `validateRegister` records, in order: username, then email, then password. */
  function RegisterErrors(body: RegisterBody, isEmail: string -> bool): (r: seq<string>)
    ensures r == Failing(UsernameChecks(Trim(body.username))) + Failing(EmailChecks(Trim(body.email), isEmail))
      + Failing(RegisterPasswordChecks(body.password))
  {
    var u, e, p := UsernameChecks(Trim(body.username)), EmailChecks(Trim(body.email), isEmail), RegisterPasswordChecks(body.password);
    FailingAppend(u + e, p);
    FailingAppend(u, e);
    Failing(u + e + p)
  }

  /** Every message `validateLogin` records, in order: the e-mail's, then "Password is required." for an empty password. */
  function LoginErrors(body: LoginBody, isEmail: string -> bool): (r: seq<string>)
    ensures r == Failing(EmailChecks(Trim(body.email), isEmail)) + (if body.password == "" then [PasswordRequired] else [])
  {
    var e, p := EmailChecks(Trim(body.email), isEmail), [(body.password != "", PasswordRequired)];
    FailingAppend(e, p);
    assert p[1..] == [];
    Failing(e + p)
  }

  /** A login passes validation iff the trimmed e-mail is non-empty and well-formed and the password is non-empty. */
  lemma LoginValidIff(body: LoginBody, isEmail: string -> bool)
    ensures LoginErrors(body, isEmail) == [] <==> Trim(body.email) != "" && isEmail(Trim(body.email)) && body.password != ""
  {
    var e := EmailChecks(Trim(body.email), isEmail);
    assert Failing(e) == [] <==> e[0].0 && e[1].0 by {
      assert e[0].0 && e[1].0 ==> forall i :: 0 <= i < |e| ==> e[i].0;
    }
  }

  /** A registration username is accepted iff, trimmed, it has 3 to 20 characters, all in `[A-Za-z0-9_]`. */
  lemma UsernameAccepted(u: string)
    ensures Failing(UsernameChecks(Trim(u))) == [] <==>
      3 <= |Trim(u)| <= 20 && forall k :: 0 <= k < |Trim(u)| ==> IsAsciiLetter(Trim(u)[k]) || IsDigit(Trim(u)[k]) || Trim(u)[k] == '_'
  {
    var checks := UsernameChecks(Trim(u));
    if IsUsernameWord(Trim(u)) {
      assert forall k :: 0 <= k < |Trim(u)| ==> !IsPresentationSelector(Trim(u)[k]);
    }
    assert checks[0].0 && checks[1].0 && checks[2].0 ==> forall i :: 0 <= i < |checks| ==> checks[i].0;
  }

  /** "ab" plus a variation selector is two characters long for the backend, so the length message comes first. */
  lemma SelectorUsernameTooShort()
    ensures FirstError(Failing(UsernameChecks("ab\U{FE0F}"))) == Some(UsernameLength)
  {
    SelectorNotCounted();
    var checks := UsernameChecks("ab\U{FE0F}");
    assert checks[0].0 && !checks[1].0;
    assert Failing(checks) == Failing(checks[1..]) && Failing(checks[1..])[0] == UsernameLength;
  }

  /** A registration password is accepted iff it has 6 to 255 characters, only letters and digits, at least one of each. */
  lemma PasswordAccepted(p: string)
    ensures Failing(RegisterPasswordChecks(p)) == [] <==> 6 <= |p| <= 255 && IsLettersAndDigits(p)
  {
    var checks := RegisterPasswordChecks(p);
    if IsLettersAndDigits(p) {
      assert forall k :: 0 <= k < |p| ==> !IsPresentationSelector(p[k]);
    }
    assert checks[0].0 && checks[1].0 && checks[2].0 ==> forall i :: 0 <= i < |checks| ==> checks[i].0;
  }

  /** The failing messages of two chains run one after the other. */
  lemma {:induction false} FailingAppend(a: seq<(bool, string)>, b: seq<(bool, string)>)
    ensures Failing(a + b) == Failing(a) + Failing(b)
  {
    if a == [] {
      assert a + b == b;
    } else {
      assert (a + b)[0] == a[0] && (a + b)[1..] == a[1..] + b;
      FailingAppend(a[1..], b);
    }
  }

  /** A registration passes validation iff each of its three fields does. */
  lemma RegisterValidIff(body: RegisterBody, isEmail: string -> bool)
    ensures RegisterErrors(body, isEmail) == [] <==>
      && Failing(UsernameChecks(Trim(body.username))) == []
      && Trim(body.email) != "" && isEmail(Trim(body.email))
      && 6 <= |body.password| <= 255 && IsLettersAndDigits(body.password)
  {
    var u, e, p := UsernameChecks(Trim(body.username)), EmailChecks(Trim(body.email), isEmail), RegisterPasswordChecks(body.password);
    FailingAppend(u + e, p);
    FailingAppend(u, e);
    PasswordAccepted(body.password);
    assert Failing(e) == [] <==> e[0].0 && e[1].0 by {
      assert e[0].0 && e[1].0 ==> forall i :: 0 <= i < |e| ==> e[i].0;
    }
  }

  /** `checkValidation`: the first recorded message, if any. */
  function FirstError(errors: seq<string>): (r: Option<string>)
    ensures r.None? <==> errors == []
    ensures r.Some? ==> r.value == errors[0]
  {
    if errors == [] then None else Some(errors[0])
  }

  // ---------------------------------------------------------------- users and answers

  /** A stored user; the password column holds the bcrypt hash. */
  datatype User = User(id: nat, username: string, email: string, passwordHash: string, createdAtMs: int)

  /** The claims a login token carries. */
  datatype TokenPayload = TokenPayload(id: nat, username: string, email: string)

  /** The controller's answers (HTTP status and JSON body). The registration answer has no password field. */
  datatype AuthResponse =
    | Registered(id: nat, username: string, email: string, createdAtMs: int)   // 201
    | LoggedIn(message: string, username: string, token: string)               // 200
    | BadRequest(error: string)                                                // 400
    | Conflict(error: string)                                                  // 409
    | Unauthorized(error: string)                                              // 401

  const UsernameTaken := "Username already exists."
  const EmailTaken := "Email already used before."
  const InvalidCredentials := "Invalid credentials."
  const LoginSuccessful := "Login successful."

  /** `findOneByUsername` / `findOneByEmail`: whether some stored user has that value. */
  predicate HasUsername(users: seq<User>, username: string) { exists i :: 0 <= i < |users| && users[i].username == username }
  predicate HasEmail(users: seq<User>, email: string) { exists i :: 0 <= i < |users| && users[i].email == email }

  /** `User.findOne({ where: { email } })`: the first user with that e-mail. */
  function FindByEmail(users: seq<User>, email: string): (r: Option<User>)
    ensures r.Some? <==> HasEmail(users, email)
    ensures r.Some? ==> r.value in users && r.value.email == email
  {
    if users == [] then None
    else if users[0].email == email then Some(users[0])
    else
      var r := FindByEmail(users[1..], email);
      assert r.Some? ==> r.value == users[1..][0] || r.value in users[1..];
      assert HasEmail(users[1..], email) ==> HasEmail(users, email) by {
        if HasEmail(users[1..], email) {
          var i :| 0 <= i < |users[1..]| && users[1..][i].email == email;
          assert users[i + 1].email == email;
        }
      }
      r
  }

  /** What `register` decides: an answer without writing, or the user `create` inserts. */
  datatype Registration = Rejected(response: AuthResponse) | Accepted(user: User)

  /**
   * `register` over the current users, given the id and the time `create` assigns.
   * The sanitized (trimmed) username and e-mail are what is looked up and stored.
   */
  function RegisterDecision(users: seq<User>, id: nat, body: RegisterBody, isEmail: string -> bool, hash: string -> string, nowMs: int): (r: Registration)
    ensures RegisterErrors(body, isEmail) != [] ==> r == Rejected(BadRequest(RegisterErrors(body, isEmail)[0]))
    ensures RegisterErrors(body, isEmail) == [] && HasUsername(users, Trim(body.username)) ==>
      r == Rejected(Conflict(UsernameTaken))
    ensures RegisterErrors(body, isEmail) == [] && !HasUsername(users, Trim(body.username)) && HasEmail(users, Trim(body.email)) ==>
      r == Rejected(Conflict(EmailTaken))
    ensures r.Accepted? <==>
      RegisterErrors(body, isEmail) == [] && !HasUsername(users, Trim(body.username)) && !HasEmail(users, Trim(body.email))
    ensures r.Accepted? ==> r.user == User(id, Trim(body.username), Trim(body.email), hash(body.password), nowMs)
  {
    match FirstError(RegisterErrors(body, isEmail))
    case Some(msg) => Rejected(BadRequest(msg))
    case None =>
      var username, email := Trim(body.username), Trim(body.email);
      if HasUsername(users, username) then Rejected(Conflict(UsernameTaken))
      else if HasEmail(users, email) then Rejected(Conflict(EmailTaken))
      else Accepted(User(id, username, email, hash(body.password), nowMs))
  }

  /** The answer `register` sends for an accepted user: id, username, e-mail and creation time, nothing else. */
  function RegisteredResponse(u: User): AuthResponse
  {
    Registered(u.id, u.username, u.email, u.createdAtMs)
  }

  /** No two users share an id, a username or an e-mail. */
  ghost predicate Unique(users: seq<User>)
  {
    forall i, j :: 0 <= i < j < |users| ==>
      users[i].id != users[j].id && users[i].username != users[j].username && users[i].email != users[j].email
  }

  /** Adding an accepted user with a fresh id keeps usernames, e-mails and ids unique. */
  lemma RegisterKeepsUnique(users: seq<User>, id: nat, body: RegisterBody, isEmail: string -> bool, hash: string -> string, nowMs: int)
    requires Unique(users)
    requires forall i :: 0 <= i < |users| ==> users[i].id != id
    requires RegisterDecision(users, id, body, isEmail, hash, nowMs).Accepted?
    ensures Unique(users + [RegisterDecision(users, id, body, isEmail, hash, nowMs).user])
  {
    var u := RegisterDecision(users, id, body, isEmail, hash, nowMs).user;
    var s := users + [u];
    forall i, j | 0 <= i < j < |s|
      ensures s[i].id != s[j].id && s[i].username != s[j].username && s[i].email != s[j].email
    {
      if j == |users| {
        assert s[j] == u && s[i] == users[i];
      }
    }
  }

  /**
   * `login`: validation, then `getUser` (lookup by the trimmed e-mail, then the
   * password compared against the stored hash), then a token over exactly the
   * user's id, username and e-mail.
   */
  function Login(users: seq<User>, body: LoginBody, isEmail: string -> bool,
                 matches: (string, string) -> bool, sign: TokenPayload -> string): (r: AuthResponse)
    ensures LoginErrors(body, isEmail) != [] ==> r == BadRequest(LoginErrors(body, isEmail)[0])
    ensures LoginErrors(body, isEmail) == [] && !HasEmail(users, Trim(body.email)) ==> r == Unauthorized(InvalidCredentials)
    ensures r.LoggedIn? <==>
      LoginErrors(body, isEmail) == [] && FindByEmail(users, Trim(body.email)).Some?
      && matches(body.password, FindByEmail(users, Trim(body.email)).value.passwordHash)
    ensures r.LoggedIn? ==>
      var u := FindByEmail(users, Trim(body.email)).value;
      r == LoggedIn(LoginSuccessful, u.username, sign(TokenPayload(u.id, u.username, u.email)))
    ensures !r.LoggedIn? && LoginErrors(body, isEmail) == [] ==> r == Unauthorized(InvalidCredentials)
  {
    match FirstError(LoginErrors(body, isEmail))
    case Some(msg) => BadRequest(msg)
    case None =>
      match FindByEmail(users, Trim(body.email))
      case None => Unauthorized(InvalidCredentials)
      case Some(u) =>
        if !matches(body.password, u.passwordHash) then Unauthorized(InvalidCredentials)
        else LoggedIn(LoginSuccessful, u.username, sign(TokenPayload(u.id, u.username, u.email)))
  }

  /** An unknown e-mail and a wrong password get the very same answer. */
  lemma NoAccountLeak(users: seq<User>, unknown: LoginBody, wrong: LoginBody, isEmail: string -> bool,
                      matches: (string, string) -> bool, sign: TokenPayload -> string)
    requires LoginErrors(unknown, isEmail) == [] && !HasEmail(users, Trim(unknown.email))
    requires LoginErrors(wrong, isEmail) == [] && HasEmail(users, Trim(wrong.email))
    requires !matches(wrong.password, FindByEmail(users, Trim(wrong.email)).value.passwordHash)
    ensures Login(users, unknown, isEmail, matches, sign) == Login(users, wrong, isEmail, matches, sign) == Unauthorized(InvalidCredentials)
  {
  }

  /**
   * A user who has just registered can log in with the same e-mail and password,
   * provided the hash compare accepts a password against its own hash.
   */
  lemma RegisterThenLogin(users: seq<User>, id: nat, body: RegisterBody, isEmail: string -> bool, hash: string -> string,
                          nowMs: int, matches: (string, string) -> bool, sign: TokenPayload -> string)
    requires Unique(users)
    requires forall i :: 0 <= i < |users| ==> users[i].id != id
    requires RegisterDecision(users, id, body, isEmail, hash, nowMs).Accepted?
    requires matches(body.password, hash(body.password))
    ensures Login(users + [RegisterDecision(users, id, body, isEmail, hash, nowMs).user], LoginBody(body.email, body.password), isEmail, matches, sign)
         == LoggedIn(LoginSuccessful, Trim(body.username), sign(TokenPayload(id, Trim(body.username), Trim(body.email))))
  {
    var u := RegisterDecision(users, id, body, isEmail, hash, nowMs).user;
    var s := users + [u];
    var login := LoginBody(body.email, body.password);
    RegisterValidIff(body, isEmail);
    TrimIdempotent(body.email);
    var e := EmailChecks(Trim(body.email), isEmail);
    FailingAppend(e, [(body.password != "", PasswordRequired)]);
    assert Failing(e) == [] by {
      assert forall i :: 0 <= i < |e| ==> e[i].0;
    }
    assert LoginErrors(login, isEmail) == [];
    FindLast(users, u);
  }

  /** A user whose e-mail nobody else has is what a lookup of that e-mail finds once appended. */
  lemma {:induction false} FindLast(users: seq<User>, u: User)
    requires !HasEmail(users, u.email)
    ensures FindByEmail(users + [u], u.email) == Some(u)
  {
    if users != [] {
      assert (users + [u])[1..] == users[1..] + [u];
      forall i | 0 <= i < |users[1..]| ensures users[1..][i].email != u.email {
        assert users[1..][i] == users[i + 1];
      }
      FindLast(users[1..], u);
    } else {
      assert users + [u] == [u];
    }
  }

  /** The user table, whose only mutation is `create`. */
  class UserTable {
    var users: seq<User>
    var nextId: nat

    ghost predicate Valid()
      reads this
    {
      Unique(users) && forall i :: 0 <= i < |users| ==> users[i].id < nextId
    }

    constructor ()
      ensures Valid() && users == [] && nextId == 1
    {
      users := [];
      nextId := 1;
    }

    /** `register`: answer as `Register` decides, appending the accepted user and never touching the others. */
    method Register(body: RegisterBody, isEmail: string -> bool, hash: string -> string, nowMs: int) returns (r: AuthResponse)
      requires Valid()
      modifies this
      ensures Valid()
      ensures match RegisterDecision(old(users), old(nextId), body, isEmail, hash, nowMs)
        case Rejected(response) => r == response && users == old(users) && nextId == old(nextId)
        case Accepted(u) => r == RegisteredResponse(u) && users == old(users) + [u] && nextId == old(nextId) + 1
    {
      var decision := RegisterDecision(users, nextId, body, isEmail, hash, nowMs);
      match decision
      case Rejected(response) =>
        r := response;
      case Accepted(u) =>
        RegisterKeepsUnique(users, nextId, body, isEmail, hash, nowMs);
        users := users + [u];
        nextId := nextId + 1;
        r := RegisteredResponse(u);
    }
  }
}

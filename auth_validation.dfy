/**
 * The frontend's form-validation hook: the Zod login and signup schemas, and the
 * error map that `validateField`, `validateForm`, `clearErrors` and
 * `clearFieldError` keep. The e-mail format check is the parameter `isEmail`.
 */
module AuthValidation {
  import opened Wrappers
  import opened Patterns

  /** One check of a Zod string chain, with the message it reports when it fails. */
  datatype Check =
    | MinLength(n: nat, message: string)
    | MaxLength(n: nat, message: string)
    | UsernamePattern(message: string)
    | PasswordPattern(message: string)
    | EmailFormat(message: string)

  /** `z.string()` followed by these checks, under the field name `name`. */
  datatype FieldRule = FieldRule(name: string, checks: seq<Check>)

  /** `z.object({...})`: its fields in declaration order. */
  type Schema = seq<FieldRule>

  predicate Passes(c: Check, v: string, isEmail: string -> bool)
  {
    match c
    case MinLength(n, _) => |v| >= n
    case MaxLength(n, _) => |v| <= n
    case UsernamePattern(_) => IsUsernameWord(v)
    case PasswordPattern(_) => IsLettersAndDigits(v)
    case EmailFormat(_) => isEmail(v)
  }

  /** The value passes every check of the chain. */
  predicate Accepts(checks: seq<Check>, v: string, isEmail: string -> bool)
  {
    forall i :: 0 <= i < |checks| ==> Passes(checks[i], v, isEmail)
  }

  /** The messages of the failing checks, in chain order: Zod runs every check of a string. */
  function FailingMessages(checks: seq<Check>, v: string, isEmail: string -> bool): (msgs: seq<string>)
    ensures msgs == [] <==> Accepts(checks, v, isEmail)
  {
    if checks == [] then []
    else
      var rest := FailingMessages(checks[1..], v, isEmail);
      if Passes(checks[0], v, isEmail) then
        assert forall j :: 1 <= j < |checks| ==> checks[1..][j - 1] == checks[j];
        rest
      else [checks[0].message] + rest
  }

  /** The first message reported is that of the first check that fails. */
  lemma {:induction false} FirstMessageIsFirstFailure(checks: seq<Check>, v: string, isEmail: string -> bool)
    requires FailingMessages(checks, v, isEmail) != []
    ensures exists i :: (0 <= i < |checks| && !Passes(checks[i], v, isEmail)
      && FailingMessages(checks, v, isEmail)[0] == checks[i].message
      && forall j :: 0 <= j < i ==> Passes(checks[j], v, isEmail))
  {
    if Passes(checks[0], v, isEmail) {
      FirstMessageIsFirstFailure(checks[1..], v, isEmail);
      var i :| 0 <= i < |checks[1..]| && !Passes(checks[1..][i], v, isEmail)
        && FailingMessages(checks[1..], v, isEmail)[0] == checks[1..][i].message
        && forall j :: 0 <= j < i ==> Passes(checks[1..][j], v, isEmail);
      assert forall j :: 1 <= j < i + 1 ==> checks[j] == checks[1..][j - 1];
      assert !Passes(checks[i + 1], v, isEmail);
    } else {
      assert !Passes(checks[0], v, isEmail);
    }
  }

  /** The failing messages of two chains run one after the other. */
  lemma {:induction false} FailingMessagesAppend(a: seq<Check>, b: seq<Check>, v: string, isEmail: string -> bool)
    ensures FailingMessages(a + b, v, isEmail) == FailingMessages(a, v, isEmail) + FailingMessages(b, v, isEmail)
  {
    if a == [] {
      assert a + b == b;
    } else {
      assert (a + b)[0] == a[0] && (a + b)[1..] == a[1..] + b;
      FailingMessagesAppend(a[1..], b, v, isEmail);
    }
  }

  /** A single check reports its own message exactly when it fails. */
  lemma FailingMessagesSingle(c: Check, v: string, isEmail: string -> bool)
    ensures FailingMessages([c], v, isEmail) == if Passes(c, v, isEmail) then [] else [c.message]
  {
    assert [c][1..] == [];
  }

  /** Every reported message is the message of a failing check. */
  lemma {:induction false} FailingMessagesFromFailures(checks: seq<Check>, v: string, isEmail: string -> bool, m: string)
    requires m in FailingMessages(checks, v, isEmail)
    ensures exists i :: 0 <= i < |checks| && !Passes(checks[i], v, isEmail) && checks[i].message == m
  {
    if !Passes(checks[0], v, isEmail) && m == checks[0].message {
      assert !Passes(checks[0], v, isEmail);
    } else {
      FailingMessagesFromFailures(checks[1..], v, isEmail, m);
      var i :| 0 <= i < |checks[1..]| && !Passes(checks[1..][i], v, isEmail) && checks[1..][i].message == m;
      assert checks[i + 1] == checks[1..][i];
    }
  }

  /** The last message reported is that of the last check that fails. */
  lemma {:induction false} LastMessageIsLastFailure(checks: seq<Check>, v: string, isEmail: string -> bool)
    requires FailingMessages(checks, v, isEmail) != []
    ensures var msgs := FailingMessages(checks, v, isEmail);
      exists i :: (0 <= i < |checks| && !Passes(checks[i], v, isEmail)
        && msgs[|msgs| - 1] == checks[i].message
        && forall j :: i < j < |checks| ==> Passes(checks[j], v, isEmail))
  {
    var n := |checks|;
    var prefix := checks[..n - 1];
    assert checks == prefix + [checks[n - 1]];
    FailingMessagesAppend(prefix, [checks[n - 1]], v, isEmail);
    FailingMessagesSingle(checks[n - 1], v, isEmail);
    if Passes(checks[n - 1], v, isEmail) {
      LastMessageIsLastFailure(prefix, v, isEmail);
      var i :| 0 <= i < |prefix| && !Passes(prefix[i], v, isEmail)
        && FailingMessages(prefix, v, isEmail)[|FailingMessages(prefix, v, isEmail)| - 1] == prefix[i].message
        && forall j :: i < j < |prefix| ==> Passes(prefix[j], v, isEmail);
      assert forall j :: i < j < n - 1 ==> checks[j] == prefix[j];
      assert checks[i] == prefix[i];
    } else {
      assert !Passes(checks[n - 1], v, isEmail);
    }
  }

  const EmailRequired := "Email is required"
  const InvalidEmail := "Invalid email format"
  const PasswordRequired := "Password is required"
  const PasswordTooShort := "Password must be at least 6 characters long"
  const PasswordTooLong := "Password must be at most 255 characters long"
  const PasswordMix := "Password must contain both letters and numbers"
  const UsernameRequired := "Username is required"
  const UsernameTooShort := "Username must be at least 3 characters long"
  const UsernameTooLong := "Username must be at most 20 characters long"
  const UsernameCharacters := "Username can only contain letters, numbers, or underscores"

  const EmailChecks: seq<Check> := [MinLength(1, EmailRequired), EmailFormat(InvalidEmail)]
  const LoginPasswordChecks: seq<Check> := [MinLength(1, PasswordRequired), MinLength(6, PasswordTooShort)]
  const SignupUsernameChecks: seq<Check> := [
    MinLength(1, UsernameRequired), MinLength(3, UsernameTooShort),
    MaxLength(20, UsernameTooLong), UsernamePattern(UsernameCharacters)]
  const SignupPasswordChecks: seq<Check> := [
    MinLength(1, PasswordRequired), MinLength(6, PasswordTooShort),
    MaxLength(255, PasswordTooLong), PasswordPattern(PasswordMix)]

  const LoginSchema: Schema := [FieldRule("email", EmailChecks), FieldRule("password", LoginPasswordChecks)]

  const SignupSchema: Schema := [
    FieldRule("username", SignupUsernameChecks),
    FieldRule("email", EmailChecks),
    FieldRule("password", SignupPasswordChecks)]

  /** An e-mail is accepted iff it is non-empty and has the e-mail format. */
  lemma EmailRule(e: string, isEmail: string -> bool)
    ensures Accepts(EmailChecks, e, isEmail) <==> |e| >= 1 && isEmail(e)
  {
    assert EmailChecks[0] == MinLength(1, EmailRequired) && EmailChecks[1] == EmailFormat(InvalidEmail);
  }

  /** A login password is accepted iff it has at least six characters. */
  lemma LoginPasswordRule(p: string, isEmail: string -> bool)
    ensures Accepts(LoginPasswordChecks, p, isEmail) <==> |p| >= 6
  {
    assert LoginPasswordChecks[1] == MinLength(6, PasswordTooShort);
  }

  /** A signup username is accepted iff it has 3 to 20 characters, all in `[A-Za-z0-9_]`; it is not trimmed. */
  lemma SignupUsernameRule(u: string, isEmail: string -> bool)
    ensures Accepts(SignupUsernameChecks, u, isEmail) <==> 3 <= |u| <= 20 && IsUsernameWord(u)
  {
    assert SignupUsernameChecks[1] == MinLength(3, UsernameTooShort);
    assert SignupUsernameChecks[2] == MaxLength(20, UsernameTooLong);
    assert SignupUsernameChecks[3] == UsernamePattern(UsernameCharacters);
  }

  /** A signup password is accepted iff it has 6 to 255 characters, only letters and digits, at least one of each. */
  lemma SignupPasswordRule(p: string, isEmail: string -> bool)
    ensures Accepts(SignupPasswordChecks, p, isEmail) <==> 6 <= |p| <= 255 && IsLettersAndDigits(p)
  {
    assert SignupPasswordChecks[1] == MinLength(6, PasswordTooShort);
    assert SignupPasswordChecks[2] == MaxLength(255, PasswordTooLong);
    assert SignupPasswordChecks[3] == PasswordPattern(PasswordMix);
  }

  /** `schema.shape[fieldName]`: the rule declared under that name. */
  function RuleOf(schema: Schema, name: string): (r: Option<FieldRule>)
    ensures r.Some? ==> r.value in schema && r.value.name == name
    ensures r.None? ==> forall i :: 0 <= i < |schema| ==> schema[i].name != name
  {
    if schema == [] then None
    else if schema[0].name == name then Some(schema[0])
    else RuleOf(schema[1..], name)
  }

  function Names(schema: Schema): set<string>
  {
    set i | 0 <= i < |schema| :: schema[i].name
  }

  /** One entry of a ZodError's `errors` list. */
  datatype Issue = Issue(path: seq<string>, message: string)

  /** The issues one field contributes: "Required" when the key is missing, else one per failing check. */
  function FieldIssues(rule: FieldRule, value: Option<string>, isEmail: string -> bool): (r: seq<Issue>)
    ensures forall i :: 0 <= i < |r| ==> r[i].path == [rule.name]
    ensures r == [] <==> value.Some? && Accepts(rule.checks, value.value, isEmail)
    ensures value.None? ==> r == [Issue([rule.name], "Required")]
    ensures value.Some? ==> var msgs := FailingMessages(rule.checks, value.value, isEmail);
      |r| == |msgs| && forall i :: 0 <= i < |r| ==> r[i].message == msgs[i]
  {
    match value
    case None => [Issue([rule.name], "Required")]
    case Some(v) =>
      var msgs := FailingMessages(rule.checks, v, isEmail);
      seq(|msgs|, i requires 0 <= i < |msgs| => Issue([rule.name], msgs[i]))
  }

  /** The value `formData` holds under a field name; a missing key is None. */
  function FieldValue(data: map<string, string>, name: string): Option<string>
  {
    if name in data then Some(data[name]) else None
  }

  /** `schema.parse(formData)`'s issues, field by field in declaration order. */
  function SchemaIssues(schema: Schema, data: map<string, string>, isEmail: string -> bool): (r: seq<Issue>)
    ensures forall i :: 0 <= i < |r| ==> |r[i].path| == 1 && r[i].path[0] in Names(schema)
    ensures r == [] <==> forall j :: 0 <= j < |schema| ==>
      schema[j].name in data && Accepts(schema[j].checks, data[schema[j].name], isEmail)
  {
    if schema == [] then []
    else
      var head := FieldIssues(schema[0], FieldValue(data, schema[0].name), isEmail);
      var tail := SchemaIssues(schema[1..], data, isEmail);
      assert Names(schema[1..]) <= Names(schema) by {
        forall n | n in Names(schema[1..]) ensures n in Names(schema) {
          var i :| 0 <= i < |schema[1..]| && schema[1..][i].name == n;
          assert schema[i + 1].name == n;
        }
      }
      assert schema[0].name in Names(schema);
      head + tail
  }

  /** A signup form passes iff every field is present and valid by its own rule. */
  lemma SignupFormValid(data: map<string, string>, isEmail: string -> bool)
    ensures SchemaIssues(SignupSchema, data, isEmail) == [] <==>
      && "username" in data && 3 <= |data["username"]| <= 20 && IsUsernameWord(data["username"])
      && "email" in data && |data["email"]| >= 1 && isEmail(data["email"])
      && "password" in data && 6 <= |data["password"]| <= 255 && IsLettersAndDigits(data["password"])
  {
    if "username" in data { SignupUsernameRule(data["username"], isEmail); }
    if "email" in data { EmailRule(data["email"], isEmail); }
    if "password" in data { SignupPasswordRule(data["password"], isEmail); }
    assert SignupSchema[0].name == "username" && SignupSchema[1].name == "email" && SignupSchema[2].name == "password";
  }

  // ---------------------------------------------------------------- the error map

  const InvalidField := "Invalid field"

  /** The message `validateField` stores for a failing value: the first issue's, or "Invalid field" when that is empty. */
  function FieldMessage(msgs: seq<string>): string
    requires msgs != []
  {
    if msgs[0] != "" then msgs[0] else InvalidField
  }

  /**
   * `validateField(fieldName, value)`'s updater: a field outside the schema leaves the map
   * alone; an accepted value removes the field's entry; a rejected one sets it to the
   * message of the first check that fails. No other entry changes.
   */
  function FieldErrorsAfter(errors: map<string, string>, schema: Schema, name: string, value: string,
                            isEmail: string -> bool): (r: map<string, string>)
    ensures RuleOf(schema, name).None? ==> r == errors
    ensures forall k :: k != name ==> (k in r <==> k in errors) && (k in r ==> r[k] == errors[k])
    ensures RuleOf(schema, name).Some? ==> (name in r <==> !Accepts(RuleOf(schema, name).value.checks, value, isEmail))
    ensures RuleOf(schema, name).Some? && name in r ==>
      var checks := RuleOf(schema, name).value.checks;
      exists i :: (0 <= i < |checks| && !Passes(checks[i], value, isEmail)
        && (forall j :: 0 <= j < i ==> Passes(checks[j], value, isEmail))
        && r[name] == (if checks[i].message != "" then checks[i].message else InvalidField))
  {
    match RuleOf(schema, name)
    case None => errors
    case Some(rule) =>
      var msgs := FailingMessages(rule.checks, value, isEmail);
      if msgs == [] then errors - {name}
      else
        FirstMessageIsFirstFailure(rule.checks, value, isEmail);
        errors[name := FieldMessage(msgs)]
  }

  /** `clearFieldError(fieldName)`'s updater: exactly that key goes, every other entry stays. */
  function WithoutField(errors: map<string, string>, name: string): (r: map<string, string>)
    ensures name !in r
    ensures forall k :: k != name ==> (k in r <==> k in errors) && (k in r ==> r[k] == errors[k])
  {
    errors - {name}
  }

  /** The message of the last issue whose path starts with `field`. */
  function LastMessageFor(issues: seq<Issue>, field: string): Option<string>
  {
    if issues == [] then None
    else
      var last := issues[|issues| - 1];
      if |last.path| > 0 && last.path[0] == field then Some(last.message)
      else LastMessageFor(issues[..|issues| - 1], field)
  }

  /**
   * `validateForm`'s `forEach`: each issue with a non-empty path writes its message
   * under `path[0]`, so a later issue for the same field overwrites an earlier one.
   */
  method CollectFieldErrors(issues: seq<Issue>) returns (fieldErrors: map<string, string>)
    ensures forall k :: k in fieldErrors <==> LastMessageFor(issues, k).Some?
    ensures forall k :: k in fieldErrors ==> Some(fieldErrors[k]) == LastMessageFor(issues, k)
  {
    fieldErrors := map[];
    var i := 0;
    while i < |issues|
      invariant 0 <= i <= |issues|
      invariant forall k :: k in fieldErrors <==> LastMessageFor(issues[..i], k).Some?
      invariant forall k :: k in fieldErrors ==> Some(fieldErrors[k]) == LastMessageFor(issues[..i], k)
    {
      var err := issues[i];
      assert issues[..i + 1][..i] == issues[..i];
      if |err.path| > 0 {
        fieldErrors := fieldErrors[err.path[0] := err.message];
      }
      i := i + 1;
    }
    assert issues[..i] == issues;
  }

  /** The last message for a field in two runs of issues comes from the second run if it names the field. */
  lemma {:induction false} LastMessageAppend(a: seq<Issue>, b: seq<Issue>, field: string)
    ensures LastMessageFor(a + b, field) ==
      if LastMessageFor(b, field).Some? then LastMessageFor(b, field) else LastMessageFor(a, field)
  {
    if b == [] {
      assert a + b == a;
    } else {
      var ab := a + b;
      assert ab[|ab| - 1] == b[|b| - 1];
      assert ab[..|ab| - 1] == a + b[..|b| - 1];
      LastMessageAppend(a, b[..|b| - 1], field);
    }
  }

  /** Issues that never name the field give it no message. */
  lemma LastMessageAbsent(issues: seq<Issue>, field: string)
    requires forall i :: 0 <= i < |issues| ==> !(|issues[i].path| > 0 && issues[i].path[0] == field)
    ensures LastMessageFor(issues, field).None?
  {
    if LastMessageFor(issues, field).Some? {
      LastMessageNamesIssueField(issues, field);
    }
  }

  /**
   * The message `validateForm` keeps for a field declared once in the schema: "Required"
   * when the key is missing, nothing when the value passes, else the message of its last
   * failing check; the other fields' issues do not affect it.
   */
  lemma {:induction false} FormMessageForField(schema: Schema, data: map<string, string>, isEmail: string -> bool, j: nat)
    requires j < |schema|
    requires forall i :: 0 <= i < |schema| && i != j ==> schema[i].name != schema[j].name
    ensures var name := schema[j].name;
      && (name !in data ==> LastMessageFor(SchemaIssues(schema, data, isEmail), name) == Some("Required"))
      && (name in data ==> var msgs := FailingMessages(schema[j].checks, data[name], isEmail);
           LastMessageFor(SchemaIssues(schema, data, isEmail), name) == if msgs == [] then None else Some(msgs[|msgs| - 1]))
  {
    var name := schema[j].name;
    var head := FieldIssues(schema[0], FieldValue(data, schema[0].name), isEmail);
    var tail := SchemaIssues(schema[1..], data, isEmail);
    assert SchemaIssues(schema, data, isEmail) == head + tail;
    LastMessageAppend(head, tail, name);
    if j == 0 {
      forall m | 0 <= m < |schema[1..]| ensures schema[1..][m].name != name {
        assert schema[1..][m] == schema[m + 1];
      }
      assert name !in Names(schema[1..]);
      LastMessageAbsent(tail, name);
      if head != [] {
        assert head[|head| - 1].path == [name];
      }
    } else {
      forall i | 0 <= i < |schema[1..]| && i != j - 1 ensures schema[1..][i].name != schema[1..][j - 1].name {
        assert schema[1..][i] == schema[i + 1];
      }
      FormMessageForField(schema[1..], data, isEmail, j - 1);
      assert schema[1..][j - 1] == schema[j];
      assert schema[0].name != name;
      LastMessageAbsent(head, name);
    }
  }

  /** Every field the collected errors name is one some issue names. */
  lemma {:induction false} LastMessageNamesIssueField(issues: seq<Issue>, field: string)
    requires LastMessageFor(issues, field).Some?
    ensures exists i :: 0 <= i < |issues| && |issues[i].path| > 0 && issues[i].path[0] == field
  {
    var last := issues[|issues| - 1];
    if !(|last.path| > 0 && last.path[0] == field) {
      var prefix := issues[..|issues| - 1];
      LastMessageNamesIssueField(prefix, field);
      var i :| 0 <= i < |prefix| && |prefix[i].path| > 0 && prefix[i].path[0] == field;
      assert issues[i] == prefix[i];
    }
  }

  /** An empty login password fails both of its checks, in chain order. */
  lemma EmptyPasswordMessages(isEmail: string -> bool)
    ensures FailingMessages(LoginPasswordChecks, "", isEmail) == [PasswordRequired, PasswordTooShort]
  {
    var c := LoginPasswordChecks;
    assert c[1..] == [MinLength(6, PasswordTooShort)] && c[1..][1..] == [];
  }

  /**
   * For an empty login password, `validateField` shows the first message and
   * `validateForm` the last, whatever the e-mail field holds.
   */
  lemma FieldShowsFirstFormShowsLast(email: string, isEmail: string -> bool)
    ensures var r := FieldErrorsAfter(map[], LoginSchema, "password", "", isEmail);
      "password" in r && r["password"] == PasswordRequired
    ensures LastMessageFor(SchemaIssues(LoginSchema, map["email" := email, "password" := ""], isEmail), "password")
      == Some(PasswordTooShort)
  {
    EmptyPasswordMessages(isEmail);
    assert LoginSchema[1..] == [FieldRule("password", LoginPasswordChecks)];
    assert RuleOf(LoginSchema, "password") == Some(LoginSchema[1]);
    var data := map["email" := email, "password" := ""];
    var tail := SchemaIssues(LoginSchema[1..], data, isEmail);
    assert LoginSchema[1..][1..] == [];
    assert tail == FieldIssues(LoginSchema[1], Some(""), isEmail) + [];
    assert tail[|tail| - 1] == Issue(["password"], PasswordTooShort);
    var all := SchemaIssues(LoginSchema, data, isEmail);
    assert all[|all| - 1] == tail[|tail| - 1];
  }

  /** The signup form does not trim: a username with a leading space is rejected. */
  lemma UntrimmedUsernameRejected(u: string, isEmail: string -> bool)
    requires |u| > 0 && u[0] == ' '
    ensures !Accepts(SignupUsernameChecks, u, isEmail)
  {
    SignupUsernameRule(u, isEmail);
  }

  /** The error state of one form that uses the hook with a given schema. */
  class FormValidation {
    const schema: Schema
    var errors: map<string, string>
    var isValid: bool

    constructor (schema: Schema)
      ensures this.schema == schema && errors == map[] && !isValid
    {
      this.schema := schema;
      errors := map[];
      isValid := false;
    }

    /** `validateField`: apply `FieldErrorsAfter` to the stored errors; `isValid` is untouched. */
    method ValidateField(name: string, value: string, isEmail: string -> bool)
      modifies this
      ensures errors == FieldErrorsAfter(old(errors), schema, name, value, isEmail)
      ensures isValid == old(isValid)
    {
      errors := FieldErrorsAfter(errors, schema, name, value, isEmail);
    }

    /**
     * `validateForm`: on valid data, no errors and `isValid`; otherwise the collected
     * field errors, each under a schema field name, and not `isValid`. The result is
     * also the new state.
     */
    method ValidateForm(data: map<string, string>, isEmail: string -> bool) returns (valid: bool, fieldErrors: map<string, string>)
      modifies this
      ensures valid <==> SchemaIssues(schema, data, isEmail) == []
      ensures valid ==> fieldErrors == map[]
      ensures !valid ==> fieldErrors != map[] && forall k :: k in fieldErrors ==> k in Names(schema)
      ensures forall k :: k in fieldErrors <==> LastMessageFor(SchemaIssues(schema, data, isEmail), k).Some?
      ensures forall k :: k in fieldErrors ==> Some(fieldErrors[k]) == LastMessageFor(SchemaIssues(schema, data, isEmail), k)
      ensures errors == fieldErrors && isValid == valid
    {
      var issues := SchemaIssues(schema, data, isEmail);
      if issues == [] {
        errors, isValid := map[], true;
        return true, map[];
      }
      fieldErrors := CollectFieldErrors(issues);
      var lastIssue := issues[|issues| - 1];
      assert LastMessageFor(issues, lastIssue.path[0]).Some?;
      forall k | k in fieldErrors ensures k in Names(schema) {
        LastMessageNamesIssueField(issues, k);
      }
      errors, isValid := fieldErrors, false;
      valid := false;
    }

    /** `clearErrors`: an empty map and `isValid` false. */
    method ClearErrors()
      modifies this
      ensures errors == map[] && !isValid
    {
      errors, isValid := map[], false;
    }

    /** `clearFieldError`: apply `WithoutField` to the stored errors. */
    method ClearFieldError(name: string)
      modifies this
      ensures errors == WithoutField(old(errors), name) && isValid == old(isValid)
    {
      errors := WithoutField(errors, name);
    }
  }
}

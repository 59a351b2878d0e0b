/**
 * The backend's `verifyToken` middleware. It takes the second field of the
 * lower-case `authorization` header split on single spaces, answers 403 when
 * there is none, hands the token to the JWT verifier, and either stores the
 * decoded payload in `req.user` and calls `next`, or answers 401.
 *
 * The verifier (`jwt.verify` with the server's secret) is the parameter `verify`:
 * it returns the decoded payload, or None where it would throw.
 */
module AuthMiddleware {
  import opened Wrappers
  import opened Js

  const TokenRequired := "A token is required for authentication"
  const InvalidToken := "Invalid or expired token"

  /** What the middleware does to the outside world, in order. */
  datatype Call =
    | Verify(token: string)      // jwt.verify(token, secret)
    | Status(code: int)          // res.status(code)
    | Json(error: string)        // .json({ error })
    | Next                       // next()

  /** The calls made and the value `req.user` holds afterwards. */
  datatype Handled<P> = Handled(calls: seq<Call>, user: Option<P>)

  /**
   * `authHeader && authHeader.split(" ")[1]`, kept only when truthy. Headers that are
   * null or undefined are the same as absent keys of `headers`.
   */
  function BearerToken(headers: map<string, string>): (token: Option<string>)
    ensures token.Some? ==> "authorization" in headers && token.value != [] && ' ' !in token.value
    ensures token.Some? ==> |Split(headers["authorization"], ' ')| >= 2 && Split(headers["authorization"], ' ')[1] == token.value
    ensures "authorization" in headers && |Split(headers["authorization"], ' ')| >= 2 && Split(headers["authorization"], ' ')[1] != "" ==>
      token == Some(Split(headers["authorization"], ' ')[1])
  {
    if "authorization" !in headers || headers["authorization"] == "" then None
    else
      var fields := Split(headers["authorization"], ' ');
      if |fields| < 2 || fields[1] == "" then None else Some(fields[1])
  }

  /** The token is the word after the first space; the scheme word before it ("Bearer", "bearer", anything) is never looked at. */
  lemma TokenIsSecondWord(headers: map<string, string>, scheme: string, token: string)
    requires ' ' !in scheme && ' ' !in token && token != []
    requires "authorization" in headers && headers["authorization"] == scheme + " " + token
    ensures BearerToken(headers) == Some(token)
  {
    SplitTwoWords(scheme, token, ' ');
  }

  /** A header without any space carries no token. */
  lemma NoTokenWithoutSpace(headers: map<string, string>)
    requires "authorization" in headers && ' ' !in headers["authorization"]
    ensures BearerToken(headers) == None
  {
    SplitFree(headers["authorization"], ' ');
  }

  /** A header whose first space is followed by nothing, or by another space, carries no token. */
  lemma NoTokenAfterEmptyField(headers: map<string, string>, scheme: string, rest: string)
    requires ' ' !in scheme && (rest == [] || rest[0] == ' ')
    requires "authorization" in headers && headers["authorization"] == scheme + " " + rest
    ensures BearerToken(headers) == None
  {
    SplitPrefix(scheme, rest, ' ');
    if rest != [] {
      SplitPrefix([], rest[1..], ' ');
      assert [] + [' '] + rest[1..] == rest;
    }
  }

  /** The test header "Bearer valid-token-123" in its simplest form. */
  lemma BearerExample()
    ensures BearerToken(map["authorization" := "Bearer abc"]) == Some("abc")
  {
    TokenIsSecondWord(map["authorization" := "Bearer abc"], "Bearer", "abc");
  }

  /** Words after the token are ignored: "Bearer abc extra" still yields "abc". */
  lemma ExtraWordsIgnored(headers: map<string, string>, scheme: string, token: string, rest: string)
    requires ' ' !in scheme && ' ' !in token && token != []
    requires "authorization" in headers && headers["authorization"] == scheme + " " + token + " " + rest
    ensures BearerToken(headers) == Some(token)
  {
    assert scheme + " " + token + " " + rest == scheme + [' '] + (token + [' '] + rest);
    SplitPrefix(scheme, token + [' '] + rest, ' ');
    SplitPrefix(token, rest, ' ');
  }

  /** A Basic credential is handed to the verifier as if it were a token. */
  lemma BasicSchemeExample()
    ensures BearerToken(map["authorization" := "Basic username:password"]) == Some("username:password")
  {
    TokenIsSecondWord(map["authorization" := "Basic username:password"], "Basic", "username:password");
  }

  /** The headers of the middleware's tests that carry no token. */
  lemma NoTokenExamples()
    ensures BearerToken(map[]) == None
    ensures BearerToken(map["authorization" := ""]) == None
    ensures BearerToken(map["authorization" := "Bearer"]) == None
    ensures BearerToken(map["authorization" := "Bearer "]) == None
    ensures BearerToken(map["authorization" := "NoSpaceHere"]) == None
    ensures BearerToken(map["Authorization" := "Bearer valid-token"]) == None
  {
    NoTokenWithoutSpace(map["authorization" := "Bearer"]);
    NoTokenAfterEmptyField(map["authorization" := "Bearer "], "Bearer", "");
    NoTokenWithoutSpace(map["authorization" := "NoSpaceHere"]);
  }

  /**
   * `verifyToken(req, res, next)` on a request with these headers and prior `req.user`:
   * 403 without a token, `next` with the decoded payload, or 401 when verification fails.
   */
  function VerifyToken<P>(headers: map<string, string>, user: Option<P>, verify: string -> Option<P>): (r: Handled<P>)
    ensures BearerToken(headers).None? ==> r == Handled([Status(403), Json(TokenRequired)], user)
    ensures BearerToken(headers).Some? && verify(BearerToken(headers).value).Some? ==>
      r == Handled([Verify(BearerToken(headers).value), Next], verify(BearerToken(headers).value))
    ensures BearerToken(headers).Some? && verify(BearerToken(headers).value).None? ==>
      r == Handled([Verify(BearerToken(headers).value), Status(401), Json(InvalidToken)], user)
  {
    match BearerToken(headers)
    case None => Handled([Status(403), Json(TokenRequired)], user)
    case Some(token) =>
      match verify(token)
      case Some(decoded) => Handled([Verify(token), Next], Some(decoded))
      case None => Handled([Verify(token), Status(401), Json(InvalidToken)], user)
  }

  function CountNext(calls: seq<Call>): nat
  {
    if calls == [] then 0 else (if calls[0] == Next then 1 else 0) + CountNext(calls[1..])
  }

  function CountStatus(calls: seq<Call>): nat
  {
    if calls == [] then 0 else (if calls[0].Status? then 1 else 0) + CountStatus(calls[1..])
  }

  function CountJson(calls: seq<Call>): nat
  {
    if calls == [] then 0 else (if calls[0].Json? then 1 else 0) + CountJson(calls[1..])
  }

  /**
   * Every call ends one way: `next` exactly once and no response, or exactly one
   * status and one JSON body (403 or 401) and no `next`. `req.user` changes only on `next`.
   */
  lemma ExactlyOneOutcome<P>(headers: map<string, string>, user: Option<P>, verify: string -> Option<P>)
    ensures var r := VerifyToken(headers, user, verify);
      && CountNext(r.calls) + CountStatus(r.calls) == 1
      && CountJson(r.calls) == CountStatus(r.calls)
      && (CountNext(r.calls) == 0 ==> r.user == user)
      && (Status(403) in r.calls || Status(401) in r.calls || Next in r.calls)
      && (Status(403) in r.calls <==> BearerToken(headers).None?)
      && (Status(403) in r.calls ==> forall c :: c in r.calls ==> !c.Verify?)
  {
    var r := VerifyToken(headers, user, verify);
    match BearerToken(headers)
    case None =>
      var calls := [Status(403), Json(TokenRequired)];
      assert r.calls == calls;
      assert calls[1..] == [Json(TokenRequired)] && calls[1..][1..] == [];
      assert CountNext(calls[1..][1..]) == 0 && CountStatus(calls[1..][1..]) == 0 && CountJson(calls[1..][1..]) == 0;
      assert CountNext(calls[1..]) == 0 && CountStatus(calls[1..]) == 0 && CountJson(calls[1..]) == 1;
    case Some(token) =>
      if verify(token).Some? {
        var calls := [Verify(token), Next];
        assert r.calls == calls;
        assert calls[1..] == [Next] && calls[1..][1..] == [];
        assert CountNext(calls[1..][1..]) == 0 && CountStatus(calls[1..][1..]) == 0 && CountJson(calls[1..][1..]) == 0;
        assert CountNext(calls[1..]) == 1 && CountStatus(calls[1..]) == 0 && CountJson(calls[1..]) == 0;
      } else {
        var calls := [Verify(token), Status(401), Json(InvalidToken)];
        assert calls[1..] == [Status(401), Json(InvalidToken)];
        assert r.calls == calls;
        var t1 := calls[1..];
        var t2 := t1[1..];
        assert t2 == [Json(InvalidToken)] && t2[1..] == [];
        assert CountNext(t2[1..]) == 0 && CountStatus(t2[1..]) == 0 && CountJson(t2[1..]) == 0;
        assert CountNext(t2) == 0 && CountStatus(t2) == 0 && CountJson(t2) == 1;
        assert CountNext(t1) == 0 && CountStatus(t1) == 1 && CountJson(t1) == 1;
      }
  }
}

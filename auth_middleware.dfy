/**
 * The request gate of src/middleware/auth.middleware.js: `verifyToken` takes the
 * bearer token out of the Authorization header and hands it to the JWT verifier,
 * `requireRole(role)` compares the role claim of the verified user.
 *
 * The signature check itself is an opaque partial function, passed in as
 * `verify`: `None` stands for "jwt.verify threw".
 */
module AuthMiddleware {
  import opened Wrappers

  /** The decoded token payload that `verifyToken` stores in `req.user`. */
  datatype Claims = Claims(id: int, role: string)

  /** The parts of an Express request the gate reads and writes. */
  datatype Request = Request(authorization: Option<string>, user: Option<Claims>)

  /**
   * What a middleware does with a request: either it answers (and `next` is not
   * called), or it calls `next` exactly once with the request as it left it.
   */
  datatype Handled =
    | Respond(req: Request, status: nat, message: string)
    | Next(req: Request)

  /** `s.split(' ')` of JavaScript, rebuilt by `Join`. */
  function Split(s: string): (fields: seq<string>)
    ensures |fields| >= 1
    ensures forall i :: 0 <= i < |fields| ==> ' ' !in fields[i]
    ensures |fields| == 1 <==> ' ' !in s
    ensures Join(fields) == s
  {
    if s == [] then [""]
    else
      var rest := Split(s[1..]);
      if s[0] == ' ' then [""] + rest
      else [[s[0]] + rest[0]] + rest[1..]
  }

  /** `fields.join(' ')`. */
  function Join(fields: seq<string>): string
    requires |fields| >= 1
  {
    if |fields| == 1 then fields[0] else fields[0] + " " + Join(fields[1..])
  }

  /** Splitting a text that starts with a space-free field and one space. */
  lemma {:induction false} SplitAfterField(field: string, rest: string)
    requires ' ' !in field
    ensures Split(field + " " + rest) == [field] + Split(rest)
  {
    var s := field + " " + rest;
    if field == [] {
      assert s[0] == ' ' && s[1..] == rest;
    } else {
      assert s[0] == field[0] && s[0] != ' ';
      assert s[1..] == field[1..] + " " + rest;
      SplitAfterField(field[1..], rest);
      assert Split(s[1..])[0] == field[1..];
      assert [field[0]] + field[1..] == field;
    }
  }

  /** Joining space-free fields and splitting again gives the fields back. */
  lemma {:induction false} SplitJoin(fields: seq<string>)
    requires |fields| >= 1
    requires forall i :: 0 <= i < |fields| ==> ' ' !in fields[i]
    ensures Split(Join(fields)) == fields
  {
    if |fields| == 1 {
      assert Split(fields[0]) == [fields[0]];
    } else {
      SplitJoin(fields[1..]);
      SplitAfterField(fields[0], Join(fields[1..]));
      assert [fields[0]] + fields[1..] == fields;
    }
  }

  /**
   * `authHeader ? authHeader.split(' ')[1] : null`, followed by the falsy test
   * of `if (!token)`: an absent or empty header, a header without a space and
   * an empty second field all give no token.
   */
  function BearerToken(authorization: Option<string>): (token: Option<string>)
    ensures authorization.None? ==> token.None?
    ensures authorization.Some? && ' ' !in authorization.value ==> token.None?
    ensures token.Some? <==>
              authorization.Some? && |Split(authorization.value)| >= 2 && Split(authorization.value)[1] != ""
    ensures token.Some? ==> token.value == Split(authorization.value)[1]
    ensures token.Some? ==> token.value != "" && ' ' !in token.value
  {
    match authorization
    case None => None
    case Some(header) =>
      if header == "" then None
      else
        var fields := Split(header);
        if |fields| < 2 || fields[1] == "" then None else Some(fields[1])
  }

  /** A header written as `<scheme> <token>` gives that token back. */
  lemma BearerHeaderRoundTrip(scheme: string, token: string)
    requires ' ' !in scheme && ' ' !in token && token != ""
    ensures BearerToken(Some(scheme + " " + token)) == Some(token)
  {
    SplitJoin([scheme, token]);
    assert Join([scheme, token]) == scheme + " " + token;
  }

  /** Anything after a second space is ignored: `<scheme> <token> <more>`. */
  lemma BearerHeaderExtraFields(scheme: string, token: string, more: string)
    requires ' ' !in scheme && ' ' !in token && token != ""
    ensures BearerToken(Some(scheme + " " + token + " " + more)) == Some(token)
  {
    SplitAfterField(scheme, token + " " + more);
    SplitAfterField(token, more);
    assert scheme + " " + token + " " + more == scheme + " " + (token + " " + more);
  }

  /** `"Bearer "` (nothing after the space) has no token. */
  lemma TrailingSpaceHasNoToken(scheme: string)
    requires ' ' !in scheme
    ensures BearerToken(Some(scheme + " ")) == None
  {
    SplitAfterField(scheme, "");
    assert scheme + " " + "" == scheme + " ";
  }

  /** `"Bearer  x"` (two spaces) has an empty second field, hence no token. */
  lemma DoubleSpaceHasNoToken(scheme: string, rest: string)
    requires ' ' !in scheme
    ensures BearerToken(Some(scheme + "  " + rest)) == None
  {
    SplitAfterField(scheme, " " + rest);
    SplitAfterField("", rest);
    assert scheme + "  " + rest == scheme + " " + (" " + rest);
    assert "" + " " + rest == " " + rest;
  }

  /**
   * `verifyToken`: 401 "No token" without a token, 401 "Invalid token" when the
   * verifier rejects it, otherwise `req.user` is the decoded payload and `next`
   * is called.
   */
  function VerifyToken(req: Request, verify: string -> Option<Claims>): (r: Handled)
    ensures r.Next? <==>
              BearerToken(req.authorization).Some? && verify(BearerToken(req.authorization).value).Some?
    ensures r.Next? ==> r.req == req.(user := verify(BearerToken(req.authorization).value))
    ensures r.Respond? ==> r.req == req && r.status == 401
    ensures r.Respond? ==>
              (r.message == "No token" <==> BearerToken(req.authorization).None?) &&
              (r.message == "Invalid token" <==> BearerToken(req.authorization).Some?)
  {
    match BearerToken(req.authorization)
    case None => Respond(req, 401, "No token")
    case Some(token) =>
      match verify(token)
      case None => Respond(req, 401, "Invalid token")
      case Some(claims) => Next(req.(user := Some(claims)))
  }

  /**
   * `requireRole(role)`: 403 "Forbidden" unless the role claim equals `role`.
   * Reading `.role` of an unset `req.user` throws; Express hands the error to the
   * application's error handler, which answers 500 "Server error".
   */
  function RequireRole(role: string, req: Request): (r: Handled)
    ensures req.user.Some? ==> (r.Next? <==> req.user.value.role == role)
    ensures r.Next? ==> r.req == req
    ensures r.Respond? ==> r.req == req
    ensures req.user.Some? && r.Respond? ==> r.status == 403 && r.message == "Forbidden"
    ensures req.user.None? ==> r.Respond? && r.status == 500 && r.message == "Server error"
  {
    match req.user
    case None => Respond(req, 500, "Server error")
    case Some(claims) =>
      if claims.role != role then Respond(req, 403, "Forbidden") else Next(req)
  }

  /** Express running one middleware after another: the second only on `next`. */
  function Then(first: Handled, role: string): Handled
  {
    match first
    case Respond(_, _, _) => first
    case Next(req) => RequireRole(role, req)
  }

  /**
   * The admin routes put `verifyToken` before `requireRole(role)`: the pair lets a
   * request through exactly when its token verifies to claims with that role, and
   * the 500 path of `requireRole` is never taken.
   */
  lemma AdminGate(req: Request, verify: string -> Option<Claims>, role: string)
    ensures var r := Then(VerifyToken(req, verify), role);
      && (r.Next? <==>
            BearerToken(req.authorization).Some? &&
            verify(BearerToken(req.authorization).value).Some? &&
            verify(BearerToken(req.authorization).value).value.role == role)
      && (r.Respond? ==> r.status in {401, 403})
  {
  }
}

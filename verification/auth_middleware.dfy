/** The authentication middleware of the protected routes: it takes the
    bearer token from the `Authorization` header, verifies it, loads the user
    it names and either passes the request on with `req.user` set or answers
    401 or 403. Token verification is a parameter: the model does not decide
    signatures or expiry, only what the middleware makes of the outcome. */
module AuthMiddleware {
  import opened JsValue
  import opened JsText
  import opened Directory

  /** The second space-separated field of the header, as
      `authorization?.split(' ')[1]` yields it (absent when the header is, or
      when it has no space). */
  function BearerToken(header: Option<string>): (t: Option<string>)
    ensures header.None? ==> t.None?
    ensures header.Some? ==> (t.Some? <==> ' ' in header.value)
    ensures t.Some? ==> ' ' !in t.value
  {
    if header.None? then None
    else
      var parts := Split(header.value, ' ');
      assert |parts| >= 2 <==> ' ' in header.value by { SplitCount(header.value, ' '); }
      if |parts| >= 2 then Some(parts[1]) else None
  }

  /** A string splits into more than one field exactly when it holds the separator. */
  lemma {:induction false} SplitCount(s: string, c: char)
    ensures |Split(s, c)| >= 2 <==> c in s
    decreases |s|
  {
    if |s| > 0 {
      SplitCount(s[1..], c);
      assert c in s <==> s[0] == c || c in s[1..] by {
        assert s == [s[0]] + s[1..];
      }
    }
  }

  /** `Bearer <token>` gives back the token, whatever follows a second space. */
  lemma BearerTokenOfHeader(scheme: string, token: string, rest: seq<string>)
    requires ' ' !in scheme && ' ' !in token
    requires forall k :: 0 <= k < |rest| ==> ' ' !in rest[k]
    ensures BearerToken(Some(Join([scheme, token] + rest, ' '))) == Some(token)
  {
    var parts := [scheme, token] + rest;
    forall k | 0 <= k < |parts| ensures ' ' !in parts[k] {
      if k >= 2 { assert parts[k] == rest[k - 2]; }
    }
    SplitJoin(parts, ' ');
    var h := Join(parts, ' ');
    assert Split(h, ' ')[1] == token;
    SplitCount(h, ' ');
  }

  /** `jwt.verify`: a valid token carries the `id` claim it was signed with;
      `subject` is absent when that claim is not a well-formed user id. */
  datatype Verified = Valid(subject: Option<UserId>) | Expired | Invalid

  /** What the middleware puts in `req.user`. */
  datatype RequestUser = RequestUser(id: UserId, name: Option<string>, email: Option<string>)

  datatype AuthFailure = NoToken | TokenExpired | BadToken | UnknownUser

  datatype AuthOutcome = Reject(failure: AuthFailure) | Next(user: RequestUser)

  /** Only an invalid token is 403; every other failure is 401. */
  function FailureStatus(f: AuthFailure): (r: int)
    ensures r == 403 <==> f.BadToken?
    ensures r == 401 <==> !f.BadToken?
  {
    match f
    case NoToken => 401
    case TokenExpired => 401
    case BadToken => 403
    case UnknownUser => 401
  }

  /** The middleware. A missing or empty token is 401; an expired one 401; an
      invalid one 403, as is a valid one whose id claim the lookup cannot cast
      (the lookup throws into the same handler); a well-formed id naming no
      user 401. Otherwise the request goes on as that user. Blocked users are
      not turned away. */
  function Authenticate(users: seq<User>, header: Option<string>, verify: string -> Verified): (r: AuthOutcome)
    ensures r == Reject(NoToken) <==> !Truthy(BearerToken(header))
    ensures r == Reject(TokenExpired) <==> Truthy(BearerToken(header)) && verify(BearerToken(header).value) == Expired
    ensures r == Reject(BadToken) <==>
              Truthy(BearerToken(header)) &&
              (verify(BearerToken(header).value) == Invalid || verify(BearerToken(header).value) == Valid(None))
    ensures r == Reject(UnknownUser) <==>
              Truthy(BearerToken(header)) &&
              exists id :: verify(BearerToken(header).value) == Valid(Some(id)) && !HasId(users, id)
    ensures r.Next? ==>
              exists u :: u in users && verify(BearerToken(header).value) == Valid(Some(u.id)) &&
                r.user == RequestUser(u.id, u.name, u.email)
  {
    var token := BearerToken(header);
    if !Truthy(token) then Reject(NoToken)
    else
      match verify(token.value)
      case Expired => Reject(TokenExpired)
      case Invalid => Reject(BadToken)
      case Valid(None) => Reject(BadToken)
      case Valid(Some(id)) =>
        var u := FindById(users, id);
        if u.None? then Reject(UnknownUser)
        else Next(RequestUser(u.value.id, u.value.name, u.value.email))
  }

  /** Blocking a user does not stop their token from working. */
  lemma BlockedUserAuthenticates(users: seq<User>, k: int, header: Option<string>, verify: string -> Verified)
    requires 0 <= k < |users| && users[k].isBlocked
    requires Truthy(BearerToken(header)) && verify(BearerToken(header).value) == Valid(Some(users[k].id))
    ensures Authenticate(users, header, verify).Next?
  {
    assert HasId(users, users[k].id);
  }
}

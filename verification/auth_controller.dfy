/** The authentication controller: sign-up, log-in and the token check the
    chat page calls. Hashing, hash comparison, signing and verification are
    parameters. */
module AuthController {
  import opened JsValue
  import opened JsText
  import opened Directory
  import opened AuthMiddleware

  // ---------------------------------------------------------------------------
  // signup

  datatype SignupOutcome = SignupTaken | SignupError | SignedUp(store: Store)

  function SignupStatus(o: SignupOutcome): (r: int)
    ensures r == 201 <==> o.SignedUp?
    ensures r == 400 <==> o.SignupTaken?
    ensures r == 500 <==> o.SignupError?
  {
    match o
    case SignupTaken => 400
    case SignupError => 500
    case SignedUp(_) => 201
  }

  /** `signup`: 400 when a user already has the email or the mobile number;
      500 when there is no password to hash; otherwise the user is stored with
      the hash of the password. No field is checked for presence here. */
  function Signup(d: Store, name: Option<string>, email: Option<string>, mobileNo: Option<string>,
                  password: Option<string>, hash: string -> string): (r: SignupOutcome)
    requires Wf(d)
    ensures r.SignupTaken? <==> exists u :: u in d.users && SharesContact(u, email, mobileNo)
    ensures r.SignupError? <==> (forall u :: u in d.users ==> !SharesContact(u, email, mobileNo)) && password.None?
    ensures r.SignedUp? ==> Wf(r.store) && |r.store.users| == |d.users| + 1 && r.store.users[..|d.users|] == d.users
    ensures r.SignedUp? ==>
              r.store.users[|d.users|] == User(d.nextId, name, email, mobileNo, hash(password.value), false)
  {
    if FindByContact(d.users, email, mobileNo).Some? then SignupTaken
    else if password.None? then SignupError
    else
      var s := Create(d, name, email, mobileNo, hash(password.value));
      assert s.users[..|d.users|] == d.users;
      SignedUp(s)
  }

  /** Sign-up keeps emails and mobile numbers unique. */
  lemma SignupKeepsUniqueContacts(d: Store, name: Option<string>, email: Option<string>,
                                  mobileNo: Option<string>, password: Option<string>, hash: string -> string)
    requires Wf(d) && UniqueContacts(d.users)
    ensures var r := Signup(d, name, email, mobileNo, password, hash);
            r.SignedUp? ==> UniqueContacts(r.store.users)
  {
    if FindByContact(d.users, email, mobileNo).None? && password.Some? {
      CreateKeepsUniqueContacts(d, name, email, mobileNo, hash(password.value));
    }
  }

  // ---------------------------------------------------------------------------
  // login

  /** The user part of the log-in answer. */
  datatype Profile = Profile(id: UserId, name: Option<string>, email: Option<string>)

  datatype LoginOutcome = NoSuchUser | BadCredentials | LoginError | LoggedIn(token: string, profile: Profile)

  function LoginStatus(o: LoginOutcome): (r: int)
    ensures r == 200 <==> o.LoggedIn?
    ensures r == 400 <==> o.BadCredentials?
    ensures r == 404 <==> o.NoSuchUser?
    ensures r == 500 <==> o.LoginError?
  {
    match o
    case NoSuchUser => 404
    case BadCredentials => 400
    case LoginError => 500
    case LoggedIn(_, _) => 200
  }

  /** `login`: the first user with that email; 404 when there is none; 500
      when there is no password to compare; 400 when it does not match the
      stored hash; otherwise a token signed with the user's id. */
  function Login(users: seq<User>, email: Option<string>, password: Option<string>,
                 compare: (string, string) -> bool, sign: UserId -> string): (r: LoginOutcome)
    ensures r.NoSuchUser? <==> forall u :: u in users ==> u.email != email
    ensures !r.NoSuchUser? ==> (r.LoginError? <==> password.None?)
    ensures r.BadCredentials? ==> exists u :: u in users && u.email == email && !compare(password.value, u.password)
    ensures r.LoggedIn? ==>
              exists u :: u in users && u.email == email && compare(password.value, u.password) &&
                r.token == sign(u.id) && r.profile == Profile(u.id, u.name, u.email)
  {
    var found := FindByEmail(users, email);
    if found.None? then NoSuchUser
    else if password.None? then LoginError
    else
      var u := found.value;
      if !compare(password.value, u.password) then BadCredentials
      else LoggedIn(sign(u.id), Profile(u.id, u.name, u.email))
  }

  /** After signing up, logging in with the same email and password succeeds
      as the new user, provided the comparison accepts a password against its
      own hash. */
  lemma SignupThenLogin(d: Store, name: Option<string>, email: Option<string>, mobileNo: Option<string>,
                        password: string, hash: string -> string,
                        compare: (string, string) -> bool, sign: UserId -> string)
    requires Wf(d)
    requires forall p :: compare(p, hash(p))
    requires forall u :: u in d.users ==> !SharesContact(u, email, mobileNo)
    ensures var r := Signup(d, name, email, mobileNo, Some(password), hash);
            r.SignedUp? &&
            Login(r.store.users, email, Some(password), compare, sign) ==
              LoggedIn(sign(d.nextId), Profile(d.nextId, name, email))
  {
    var s := Signup(d, name, email, mobileNo, Some(password), hash).store.users;
    var u := s[|d.users|];
    assert s == d.users + [u];
    FindByEmailLast(d.users, u, email);
  }

  /** A user appended after users with other emails is the one found. */
  lemma {:induction false} FindByEmailLast(users: seq<User>, u: User, email: Option<string>)
    requires forall v :: v in users ==> v.email != email
    requires u.email == email
    ensures FindByEmail(users + [u], email) == Some(u)
    decreases |users|
  {
    if |users| > 0 {
      assert (users + [u])[1..] == users[1..] + [u];
      assert users[0] in users;
      forall v | v in users[1..] ensures v.email != email {
        assert v in users;
      }
      FindByEmailLast(users[1..], u, email);
    } else {
      assert [u][1..] == [];
    }
  }

  /** The token a log-in hands out, sent back as `Bearer <token>`, lets the
      same user through the middleware while it verifies as signed. */
  lemma LoginTokenAuthenticates(d: Store, email: Option<string>, password: Option<string>,
                                compare: (string, string) -> bool, sign: UserId -> string,
                                verify: string -> Verified)
    requires Wf(d)
    requires forall id :: sign(id) != "" && ' ' !in sign(id) && verify(sign(id)) == Valid(Some(id))
    requires Login(d.users, email, password, compare, sign).LoggedIn?
    ensures var r := Login(d.users, email, password, compare, sign);
            var header := Some("Bearer" + " " + r.token);
            Authenticate(d.users, header, verify) == Next(RequestUser(r.profile.id, r.profile.name, r.profile.email))
  {
    var r := Login(d.users, email, password, compare, sign);
    var header := "Bearer" + " " + r.token;
    assert Join(["Bearer", r.token] + [], ' ') == header by {
      assert ["Bearer", r.token] + [] == ["Bearer", r.token];
      assert ["Bearer", r.token][1..] == [r.token];
    }
    assert ' ' !in "Bearer";
    BearerTokenOfHeader("Bearer", r.token, []);
    var a := Authenticate(d.users, Some(header), verify);
    var u :| u in d.users && u.email == email && compare(password.value, u.password) &&
             r.token == sign(u.id) && r.profile == Profile(u.id, u.name, u.email);
    assert a.Next?;
    var w :| w in d.users && verify(r.token) == Valid(Some(w.id)) && a.user == RequestUser(w.id, w.name, w.email);
    var i :| 0 <= i < |d.users| && d.users[i] == u;
    var j :| 0 <= j < |d.users| && d.users[j] == w;
    assert i == j;
  }

  /** A user whose password was overwritten in plain text by an update can no
      longer log in with it, when the comparison only accepts hashes. */
  lemma PlainPasswordFailsLogin(users: seq<User>, k: int, compare: (string, string) -> bool, sign: UserId -> string)
    requires 0 <= k < |users| && forall j :: 0 <= j < k ==> users[j].email != users[k].email
    requires !compare(users[k].password, users[k].password)
    ensures Login(users, users[k].email, Some(users[k].password), compare, sign) == BadCredentials
  {
    FindByEmailPrefix(users, k);
  }

  lemma {:induction false} FindByEmailPrefix(users: seq<User>, k: int)
    requires 0 <= k < |users| && forall j :: 0 <= j < k ==> users[j].email != users[k].email
    ensures FindByEmail(users, users[k].email) == Some(users[k])
    decreases k
  {
    if k > 0 {
      FindByEmailPrefix(users[1..], k - 1);
    }
  }

  // ---------------------------------------------------------------------------
  // validateToken

  datatype ValidateOutcome = TokenMissing | TokenRefused | TokenValid(claims: Verified)

  function ValidateStatus(o: ValidateOutcome): (r: int)
    ensures r == 200 <==> o.TokenValid?
    ensures r == 401 <==> o.TokenMissing?
    ensures r == 403 <==> o.TokenRefused?
  {
    match o
    case TokenMissing => 401
    case TokenRefused => 403
    case TokenValid(_) => 200
  }

  /** `validateToken`: 401 without a token, 403 for an invalid or expired one,
      200 with the decoded claims otherwise. The user is not looked up. */
  function ValidateToken(header: Option<string>, verify: string -> Verified): (r: ValidateOutcome)
    ensures r.TokenMissing? <==> !Truthy(BearerToken(header))
    ensures r.TokenRefused? <==> Truthy(BearerToken(header)) && !verify(BearerToken(header).value).Valid?
    ensures r.TokenValid? ==> r.claims.Valid? && r.claims == verify(BearerToken(header).value)
  {
    var token := BearerToken(header);
    if !Truthy(token) then TokenMissing
    else
      var v := verify(token.value);
      if v.Valid? then TokenValid(v) else TokenRefused
  }

  /** An expired token is 401 for the middleware but 403 for the check. */
  lemma ExpiredTokenStatuses(users: seq<User>, header: Option<string>, verify: string -> Verified)
    requires Truthy(BearerToken(header)) && verify(BearerToken(header).value) == Expired
    ensures Authenticate(users, header, verify) == Reject(TokenExpired) && FailureStatus(TokenExpired) == 401
    ensures ValidateStatus(ValidateToken(header, verify)) == 403
  {
  }

  /** The check accepts the token of a deleted user, which the middleware
      refuses. */
  lemma DeletedUserTokenStillValid(users: seq<User>, header: Option<string>, verify: string -> Verified, id: UserId)
    requires Truthy(BearerToken(header)) && verify(BearerToken(header).value) == Valid(Some(id))
    requires !HasId(users, id)
    ensures ValidateToken(header, verify).TokenValid?
    ensures Authenticate(users, header, verify) == Reject(UnknownUser)
  {
  }
}

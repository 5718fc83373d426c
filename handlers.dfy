/** The read-only handlers (`POST /auth/login`, `GET /users`,
    `GET /users/:userId`) as functions of the account list, and what the
    registration handler stores and answers. */
module Handlers {
  import opened Builtins
  import opened Accounts
  import opened Validation

  /** The hardcoded signing secret. */
  const SECRET_KEY := "your-secret-key"

  const LOGIN_FAILED := Reply(401, "Login Failed", NoData)
  const USER_NOT_FOUND := Reply(404, "User not found", NoData)

  /** The record built from an accepted candidate: the password replaced by
      its digest, the other fields as submitted. */
  function NewRecord(id: int, c: Candidate, digest: string): (u: User)
    ensures u.id == id && u.password == digest
    ensures Some(u.fullName) == c.fullName || (c.fullName.None? && u.fullName == "")
    ensures Some(u.email) == c.email || (c.email.None? && u.email == "")
    ensures u.bio == c.bio && u.dob == c.dob
  {
    User(id, Text(c.fullName), Text(c.email), digest, c.bio, c.dob)
  }

  /** `users.find(user => user.email === email)` with the email possibly missing. */
  function LookupEmail(users: seq<User>, email: Option<string>): (r: Option<nat>)
    ensures r.Some? ==> email.Some? && r.value < |users| && users[r.value].email == email.value
    ensures r.Some? ==> forall j :: 0 <= j < r.value ==> users[j].email != email.value
    ensures r.None? <==> email.None? || forall j :: 0 <= j < |users| ==> users[j].email != email.value
  {
    match email
    case None => None
    case Some(e) => IndexOfEmail(users, e)
  }

  /** The login handler as written. bcrypt's `compare` rejects when the
      submitted password is missing, so a registered email without a password
      makes the handler throw rather than answer 401. */
  function LoginAsWritten(users: seq<User>, req: LoginRequest, lib: Library): (r: Response)
    ensures LookupEmail(users, req.email).None? ==> r == LOGIN_FAILED
    ensures r == Fault <==> LookupEmail(users, req.email).Some? && req.password.None?
  {
    match LookupEmail(users, req.email)
    case None => LOGIN_FAILED
    case Some(i) =>
      match req.password
      case None => Fault
      case Some(p) =>
        if !lib.compare(p, users[i].password) then LOGIN_FAILED
        else Reply(200, "Success", TokenData(lib.sign(Claims(users[i].id, users[i].email), SECRET_KEY)))
  }

  /** A request with a registered email and no password is told apart from
      one with an unknown email: the first throws, the second gets 401. */
  lemma MissingPasswordLeaks(lib: Library)
    ensures var users := [User(1, "Ann", "ann@x.com", "digest", None, None)];
      && LoginAsWritten(users, LoginRequest(Some("ann@x.com"), None), lib) == Fault
      && LoginAsWritten(users, LoginRequest(Some("bob@x.com"), None), lib) == LOGIN_FAILED
  {
    var users := [User(1, "Ann", "ann@x.com", "digest", None, None)];
    assert users[0].email != "bob@x.com";
  }

  /** The login handler with a missing password treated as a wrong one: every
      failure is the same 401, and success carries the token for the first
      account with that email. */
  function Login(users: seq<User>, req: LoginRequest, lib: Library): (r: Response)
    ensures r == LOGIN_FAILED || (r.Reply? && r.status == 200)
    ensures r.status == 200 <==>
      (exists i :: 0 <= i < |users| && LookupEmail(users, req.email) == Some(i)
        && req.password.Some? && lib.compare(req.password.value, users[i].password))
    ensures r.status == 200 ==>
      exists i :: 0 <= i < |users| && LookupEmail(users, req.email) == Some(i)
        && r == Reply(200, "Success", TokenData(lib.sign(Claims(users[i].id, users[i].email), SECRET_KEY)))
  {
    match LookupEmail(users, req.email)
    case None => LOGIN_FAILED
    case Some(i) =>
      if req.password.None? || !lib.compare(req.password.value, users[i].password) then LOGIN_FAILED
      else Reply(200, "Success", TokenData(lib.sign(Claims(users[i].id, users[i].email), SECRET_KEY)))
  }

  /** Login replaces the throw of `LoginAsWritten` by the 401 and otherwise agrees with it. */
  lemma LoginCorrectsOnlyTheFault(users: seq<User>, req: LoginRequest, lib: Library)
    ensures LoginAsWritten(users, req, lib) == Fault ==> Login(users, req, lib) == LOGIN_FAILED
    ensures LoginAsWritten(users, req, lib) != Fault ==> Login(users, req, lib) == LoginAsWritten(users, req, lib)
  {
  }

  /** With unique emails, login succeeds exactly when some account has that
      email and the password matches its digest; the token names that account. */
  lemma LoginSucceedsIff(users: seq<User>, email: string, password: string, lib: Library)
    requires EmailsUnique(users)
    ensures Login(users, LoginRequest(Some(email), Some(password)), lib).status == 200 <==>
      exists i :: 0 <= i < |users| && users[i].email == email && lib.compare(password, users[i].password)
    ensures forall i :: 0 <= i < |users| && users[i].email == email && lib.compare(password, users[i].password) ==>
      Login(users, LoginRequest(Some(email), Some(password)), lib)
        == Reply(200, "Success", TokenData(lib.sign(Claims(users[i].id, email), SECRET_KEY)))
  {
    var req := LoginRequest(Some(email), Some(password));
    match LookupEmail(users, req.email)
    case None =>
    case Some(k) =>
      assert forall i :: 0 <= i < |users| && users[i].email == email ==> i == k;
  }

  /** An unknown email and a wrong (or missing) password give the same reply. */
  lemma LoginFailuresAlike(users: seq<User>, unknown: LoginRequest, wrong: LoginRequest, lib: Library)
    requires unknown.email.Some? && forall i :: 0 <= i < |users| ==> users[i].email != unknown.email.value
    requires wrong.email.Some? && exists i :: 0 <= i < |users| && users[i].email == wrong.email.value
    requires forall i :: 0 <= i < |users| && users[i].email == wrong.email.value ==>
      wrong.password.None? || !lib.compare(wrong.password.value, users[i].password)
    ensures Login(users, unknown, lib) == Login(users, wrong, lib) == LOGIN_FAILED
  {
  }

  /** `GET /users`: 404 on an empty store, otherwise every account in insertion order. */
  function ListUsers(users: seq<User>): (r: Response)
    ensures r.Reply?
    ensures r.status == 404 <==> |users| == 0
    ensures r.status == 404 ==> r == USER_NOT_FOUND
    ensures r.status != 404 ==> r == Reply(200, "Success", UserList(users))
  {
    if |users| == 0 then USER_NOT_FOUND else Reply(200, "Success", UserList(users))
  }

  /** `GET /users/:userId`: the first account whose id equals the parsed id, or 404. */
  function GetUser(users: seq<User>, userId: string): (r: Response)
    ensures r == USER_NOT_FOUND || (r.Reply? && r.status == 200)
    ensures r.status == 200 <==>
      ParseInt(userId).Some? && exists i :: 0 <= i < |users| && users[i].id == ParseInt(userId).value
    ensures r.status == 200 ==> r.data.OneUser? && Some(r.data.user.id) == ParseInt(userId)
    ensures r.status == 200 ==>
      exists i :: 0 <= i < |users| && IndexOfId(users, ParseInt(userId).value) == Some(i)
        && r == Reply(200, "Success", OneUser(users[i]))
  {
    match ParseInt(userId)
    case None => USER_NOT_FOUND
    case Some(n) =>
      match IndexOfId(users, n)
      case None => USER_NOT_FOUND
      case Some(i) => Reply(200, "Success", OneUser(users[i]))
  }

  /** Every id handed out is found again, and finds exactly the account it was given to. */
  lemma GetAssigned(users: seq<User>, id: nat)
    requires IdsSequential(users)
    requires 1 <= id <= |users|
    ensures GetUser(users, Decimal(id)) == Reply(200, "Success", OneUser(users[id - 1]))
  {
  }

  /** An id that was never handed out is not found. */
  lemma GetNeverAssigned(users: seq<User>, userId: string)
    requires IdsSequential(users)
    requires ParseInt(userId).None? || ParseInt(userId).value < 1 || ParseInt(userId).value > |users|
    ensures GetUser(users, userId) == USER_NOT_FOUND
  {
  }

  /** After a successful registration, logging in with the same email and
      password succeeds and yields the token for the new account. */
  lemma LoginAfterRegister(users: seq<User>, c: Candidate, salt: string, lib: Library)
    requires Sound(lib)
    requires Validate(users, c, lib) == []
    ensures var added := NewRecord(|users| + 1, c, lib.hash(Text(c.password), salt));
      Login(users + [added], LoginRequest(c.email, c.password), lib)
        == Reply(200, "Success", TokenData(lib.sign(Claims(|users| + 1, c.email.value), SECRET_KEY)))
  {
    var added := NewRecord(|users| + 1, c, lib.hash(Text(c.password), salt));
    var after := users + [added];
    assert after[|users|] == added;
    assert LookupEmail(after, c.email) == Some(|users|) by {
      assert forall j :: 0 <= j < |users| ==> after[j] == users[j];
    }
  }

  /** Registering again with an email that a registration just stored is
      rejected, citing the email. */
  lemma SecondRegistrationRejected(users: seq<User>, first: Candidate, digest: string, second: Candidate, lib: Library)
    requires second.email == first.email && first.email.Some?
    ensures var after := users + [NewRecord(|users| + 1, first, digest)];
      FieldError("email", "Email is already registered") in Validate(after, second, lib)
  {
    var after := users + [NewRecord(|users| + 1, first, digest)];
    assert after[|users|].email == second.email.value;
  }
}

/**
 * The authentication controller: token issuance (createUserToken), the signup
 * and signin handlers, and the JWTAuth guard placed before every resource route.
 *
 * The handlers are modelled by the FIRST response they issue (a handler that
 * returns after responding). The code as written goes on running after some
 * responses; that behaviour is kept in the `...AsWritten` models at the end of
 * this module, with the lemmas that exhibit the difference.
 *
 * The clock, the bcrypt salt randomness, the JWT secret and store failures are
 * parameters: `now` is `new Date().getTime()`, and `storeError` is Some(message)
 * when the request's first query to the database fails with that message.
 */
module Authentication {
  import opened Wrappers
  import opened Strings
  import opened Bcrypt
  import opened Jwt
  import opened Validation
  import opened Store

  /** What a handler sends: a token, the validation errors, a status with an error message, or next(). */
  datatype Outcome = Token(token: string) | Errors(errors: seq<FieldError>) | Status(code: int, message: string) | Next

  const TakenMessage: string := "This username or email is already taken. Please check and try again."
  const NotFoundMessage: string := "Sorry we cannot find the user. Please check and try again."
  const MismatchMessage: string := "Unable to log in. Please check and try again."
  const ExpiredMessage: string := "Token expired"
  /** The guard's message for a token whose user no longer exists (the source builds none; see the findings). */
  const UnknownSubjectMessage: string := "Unauthorized"

  /** Sixty minutes, in milliseconds. */
  const ExpiryMs: int := 60 * (1000 * 60)

  /** The role tags signup gives every new user. */
  const SignupUsertype: int := 1
  const SignupAdmintype: int := 0

  // ---------------------------------------------------------------- createUserToken

  /** The payload createUserToken builds from a user row at time `now`. */
  function UserClaim(user: User, now: int): (c: Claim)
  {
    Claim(user.user_id, now, user.admintype, user.usertype)
  }

  /** createUserToken: the token decodes to the row's id, the issue time and the row's two role tags. */
  function CreateUserToken(user: User, now: int, secret: string): (t: string)
    ensures Decode(t, secret) == Ok(Claim(user.user_id, now, user.admintype, user.usertype))
  {
    EncodeDecode(UserClaim(user, now), secret);
    Encode(UserClaim(user, now), secret)
  }

  // ---------------------------------------------------------------- signup

  /** The row signup stores for a validated body: the hash of the password and the default role tags. */
  function SignupRow(id: int, body: Body, randomness: string): (row: User)
  {
    User(id, body.email, body.username, Hash(body.password, GenSalt(SignupRounds, randomness)),
         SignupUsertype, SignupAdmintype)
  }

  /**
   * signup, after checkBody. Validation errors are answered first, with the
   * whole list; a username or email already present is refused; otherwise
   * exactly one row is inserted and a token is issued for it.
   */
  method Signup(users: UserTable, req: Validated, randomness: string, now: int, secret: string,
                storeError: Option<string>)
    returns (o: Outcome)
    requires users.Valid()
    modifies users
    ensures users.Valid()
    ensures req.errors != [] ==> o == Errors(req.errors) && unchanged(users)
    ensures req.errors == [] && storeError.Some? ==> o == Status(500, storeError.value) && unchanged(users)
    ensures req.errors == [] && storeError.None? && Taken(old(users.rows), req.body.username, req.body.email) ==>
      o == Status(422, TakenMessage) && unchanged(users)
    ensures req.errors == [] && storeError.None? && !Taken(old(users.rows), req.body.username, req.body.email) ==>
      && users.rows == old(users.rows) + [SignupRow(old(users.nextId), req.body, randomness)]
      && users.nextId == old(users.nextId) + 1
      && o == Token(CreateUserToken(SignupRow(old(users.nextId), req.body, randomness), now, secret))
    ensures o.Token? ==> Decode(o.token, secret) == Ok(Claim(old(users.nextId), now, SignupAdmintype, SignupUsertype))
    ensures o.Token? ==> forall i :: 0 <= i < |old(users.rows)| ==> old(users.rows)[i].user_id != old(users.nextId)
    ensures UniqueIdentities(old(users.rows)) ==> UniqueIdentities(users.rows)
  {
    if req.errors != [] {
      return Errors(req.errors);
    }
    var email, username, password := req.body.email, req.body.username, req.body.password;
    var usertype, admintype := SignupUsertype, SignupAdmintype;
    var hashedPassword := Hash(password, GenSalt(SignupRounds, randomness));

    if storeError.Some? {
      return Status(500, storeError.value);
    }
    var existingUser := Select(users.rows, (u: User) => u.username == username || u.email == email);
    if existingUser != [] {
      return Status(422, TakenMessage);
    }

    if UniqueIdentities(users.rows) {
      AppendKeepsUnique(users.rows, SignupRow(users.nextId, req.body, randomness));
    }
    var newUser := users.Insert(email, username, hashedPassword, usertype, admintype);
    o := Token(CreateUserToken(newUser, now, secret));
  }

  // ---------------------------------------------------------------- signin

  /**
   * signin, after checkBody's sanitizers (its errors are not consulted): look the
   * username up, compare the password with the stored hash, and issue a token
   * from the stored row. A failed query is answered with its message and the
   * default status 200.
   */
  function Signin(rows: seq<User>, body: Body, now: int, secret: string, storeError: Option<string>): (o: Outcome)
    ensures storeError.Some? ==> o == Status(200, storeError.value)
    ensures storeError.None? && (forall i :: 0 <= i < |rows| ==> rows[i].username != body.username) ==>
      o == Status(422, NotFoundMessage)
    ensures storeError.None? && o == Status(422, NotFoundMessage) ==>
      forall i :: 0 <= i < |rows| ==> rows[i].username != body.username
    ensures o.Token? ==> exists i ::
      (0 <= i < |rows| && rows[i].username == body.username && Compare(body.password, rows[i].password) &&
       Decode(o.token, secret) == Ok(UserClaim(rows[i], now)))
    ensures o == Status(422, MismatchMessage) ==> exists i ::
      (0 <= i < |rows| && rows[i].username == body.username && !Compare(body.password, rows[i].password))
    ensures o.Token? || o == Status(422, NotFoundMessage) || o == Status(422, MismatchMessage) ||
      (storeError.Some? && o == Status(200, storeError.value))
  {
    if storeError.Some? then Status(200, storeError.value)
    else
      var user := Select(rows, (u: User) => u.username == body.username);
      if user == [] then Status(422, NotFoundMessage)
      else
        var confirmedUser := user[0];
        assert confirmedUser in user;
        if !Compare(body.password, confirmedUser.password) then Status(422, MismatchMessage)
        else Token(CreateUserToken(confirmedUser, now, secret))
  }

  /** With unique usernames, signin for a stored username succeeds exactly when the password matches that row. */
  lemma SigninByRow(rows: seq<User>, i: nat, body: Body, now: int, secret: string)
    requires UniqueUsernames(rows)
    requires i < |rows| && rows[i].username == body.username
    ensures Signin(rows, body, now, secret, None) ==
      if Compare(body.password, rows[i].password) then Token(CreateUserToken(rows[i], now, secret))
      else Status(422, MismatchMessage)
  {
    var user := Select(rows, (u: User) => u.username == body.username);
    assert rows[i] in user && user[0] in user;
    var k :| 0 <= k < |rows| && rows[k] == user[0];
    assert k == i;
  }

  /** A row appended with a new username is found by signin with the password it was hashed from. */
  lemma SigninFindsNewRow(rows: seq<User>, row: User, email: string, password: string, salt: Salt,
                          now: int, secret: string)
    requires forall i :: 0 <= i < |rows| ==> rows[i].username != row.username
    requires row.password == Hash(password, salt)
    ensures Signin(rows + [row], Body(email, row.username, password), now, secret, None) ==
      Token(CreateUserToken(row, now, secret))
  {
    var rows' := rows + [row];
    var user := Select(rows', (u: User) => u.username == row.username);
    assert rows'[|rows|] == row;
    assert row in user;
    CompareHash(password, password, salt);
  }

  /** After a signup stored `row`, signin with the same raw credentials, sanitized by checkBody, finds it. */
  lemma SigninAfterSignup(before: seq<User>, id: int, req: Validated, raw: Body, isEmail: string -> bool,
                          normalizeEmail: string -> string, randomness: string, now: int, secret: string)
    requires req == CheckBody(raw, isEmail, normalizeEmail)
    requires forall i :: 0 <= i < |before| ==> before[i].username != req.body.username
    ensures var signinReq := CheckBody(Body("", raw.username, raw.password), isEmail, normalizeEmail);
      var row := SignupRow(id, req.body, randomness);
      Signin(before + [row], signinReq.body, now, secret, None) == Token(CreateUserToken(row, now, secret))
  {
    var signinReq := CheckBody(Body("", raw.username, raw.password), isEmail, normalizeEmail);
    var row := SignupRow(id, req.body, randomness);
    assert signinReq.body == Body(normalizeEmail(""), row.username, req.body.password);
    SigninFindsNewRow(before, row, normalizeEmail(""), req.body.password, GenSalt(SignupRounds, randomness), now, secret);
  }

  /**
   * The scenario of a first signup followed by a signin with the same raw
   * credentials: both succeed, and both tokens name the new user's id.
   */
  method SignupThenSignin(users: UserTable, raw: Body, isEmail: string -> bool, normalizeEmail: string -> string,
                          randomness: string, t1: int, t2: int, secret: string)
    returns (o1: Outcome, o2: Outcome)
    requires users.Valid()
    requires CheckBody(raw, isEmail, normalizeEmail).errors == []
    requires !Taken(users.rows, Sanitize(raw.username), normalizeEmail(raw.email))
    modifies users
    ensures o1.Token? && o2.Token?
    ensures Decode(o1.token, secret) == Ok(Claim(old(users.nextId), t1, SignupAdmintype, SignupUsertype))
    ensures Decode(o2.token, secret) == Ok(Claim(old(users.nextId), t2, SignupAdmintype, SignupUsertype))
  {
    var req := CheckBody(raw, isEmail, normalizeEmail);
    SigninAfterSignup(users.rows, users.nextId, req, raw, isEmail, normalizeEmail, randomness, t2, secret);
    o1 := Signup(users, req, randomness, t1, secret, None);
    // the signin route runs checkBody too; a body without email reads it as ""
    var signinReq := CheckBody(Body("", raw.username, raw.password), isEmail, normalizeEmail);
    o2 := Signin(users.rows, signinReq.body, t2, secret, None);
  }

  // ---------------------------------------------------------------- JWTAuth

  const BearerPrefix: string := "bearer "

  /** The token string the guard decodes: the header with its first "bearer " removed, or "" without a header. */
  function BearerToken(authorization: Option<string>): (t: string)
    ensures authorization.None? ==> t == ""
    ensures authorization.Some? ==> t == RemoveFirst(authorization.value, BearerPrefix)
  {
    match authorization
    case None => ""
    case Some(h) => if h == "" then "" else RemoveFirst(h, BearerPrefix)
  }

  lemma BearerTokenOfPrefixed(token: string)
    ensures BearerToken(Some(BearerPrefix + token)) == token
  {
    RemovePrefix(BearerPrefix, token);
  }

  /** The token is expired when more than sixty minutes have passed since it was issued. */
  predicate Expired(c: Claim, now: int)
  {
    now - c.iat > ExpiryMs
  }

  /**
   * JWTAuth: a token that does not decode, or is expired, is refused with 401;
   * otherwise the token's subject is looked up, and the request goes on only if
   * that user still exists.
   */
  function JWTAuth(rows: seq<User>, authorization: Option<string>, now: int, secret: string,
                   storeError: Option<string>): (o: Outcome)
    ensures var d := Decode(BearerToken(authorization), secret);
      o == Next <==>
        d.Ok? && now - d.value.iat <= 3600000 && storeError.None? &&
        exists i :: 0 <= i < |rows| && rows[i].user_id == d.value.sub
    ensures var d := Decode(BearerToken(authorization), secret);
      d.Err? ==> o == Status(401, Message(d.error))
    ensures var d := Decode(BearerToken(authorization), secret);
      o == Status(401, ExpiredMessage) <==> d.Ok? && now - d.value.iat > 3600000
    ensures var d := Decode(BearerToken(authorization), secret);
      d.Ok? && now - d.value.iat <= 3600000 && storeError.Some? ==> o == Status(500, storeError.value)
    ensures var d := Decode(BearerToken(authorization), secret);
      (d.Ok? && now - d.value.iat <= 3600000 && storeError.None? &&
       forall i :: 0 <= i < |rows| ==> rows[i].user_id != d.value.sub) ==>
        o == Status(401, UnknownSubjectMessage)
    ensures o == Next || (o.Status? && o.code == 401) || (o.Status? && o.code == 500 && storeError.Some?)
  {
    var token := BearerToken(authorization);
    match Decode(token, secret)
    case Err(e) => Status(401, Message(e))
    case Ok(decodedToken) =>
      if Expired(decodedToken, now) then Status(401, ExpiredMessage)
      else if storeError.Some? then Status(500, storeError.value)
      else
        var user := Select(rows, (u: User) => u.user_id == decodedToken.sub);
        if user != [] then Next else Status(401, UnknownSubjectMessage)
  }

  /** A token issued for a stored user is admitted until sixty minutes have passed, and refused after. */
  lemma GuardAdmitsLiveToken(rows: seq<User>, i: nat, issued: int, now: int, secret: string)
    requires i < |rows|
    ensures var h := Some(BearerPrefix + CreateUserToken(rows[i], issued, secret));
      JWTAuth(rows, h, now, secret, None) ==
        if now - issued <= 3600000 then Next else Status(401, ExpiredMessage)
  {
    BearerTokenOfPrefixed(CreateUserToken(rows[i], issued, secret));
  }

  /** The exact boundary: sixty minutes after issue the token is admitted, one millisecond later it is expired. */
  lemma ExpiryBoundary(rows: seq<User>, i: nat, issued: int, secret: string)
    requires i < |rows|
    ensures var h := Some(BearerPrefix + CreateUserToken(rows[i], issued, secret));
      && JWTAuth(rows, h, issued + 3600000, secret, None) == Next
      && JWTAuth(rows, h, issued + 3600001, secret, None) == Status(401, ExpiredMessage)
  {
    GuardAdmitsLiveToken(rows, i, issued, issued + 3600000, secret);
    GuardAdmitsLiveToken(rows, i, issued, issued + 3600001, secret);
  }

  /** A request without an Authorization header is refused as carrying no token. */
  lemma GuardRefusesMissingHeader(rows: seq<User>, now: int, secret: string, storeError: Option<string>)
    ensures JWTAuth(rows, None, now, secret, storeError) == Status(401, "No token supplied")
  {
  }
}

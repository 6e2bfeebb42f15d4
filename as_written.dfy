/**
 * The signin handler and the JWTAuth guard as the code is written. In three
 * places it sends a response without returning, so execution goes on: it may
 * call next(), may try to send a second response, or may throw. An Exchange
 * records what one request did: the first response sent, whether next() was
 * called, and the exception that ended the handler, if any. Once an exception
 * has escaped, later steps do not happen.
 */
module AsWritten {
  import opened Wrappers
  import opened Bcrypt
  import opened Jwt
  import opened Validation
  import opened Store
  import opened Authentication

  /** The exceptions the handlers can raise after a response or instead of one. */
  datatype Fault =
    | HeadersAlreadySent   // a second res.status(...).json(...) on an answered request
    | NullQueryResult      // reading `.rows` of the null left behind by a failed query
    | UndefinedRow         // reading `.password` of `rows[0]` when no row matched
    | UndefinedErr         // the guard's final branch names `err`, which is not in scope there

  datatype Exchange = Exchange(response: Option<Outcome>, nextCalled: bool, thrown: Option<Fault>)

  const Idle: Exchange := Exchange(None, false, None)

  /** res.status(code).json(...): the first response goes out; a second one throws. */
  function Send(x: Exchange, o: Outcome): (y: Exchange)
    ensures x.thrown.None? && x.response.None? ==> y == x.(response := Some(o))
    ensures x.response.Some? ==> y.response == x.response
  {
    if x.thrown.Some? then x
    else if x.response.Some? then x.(thrown := Some(HeadersAlreadySent))
    else x.(response := Some(o))
  }

  function CallNext(x: Exchange): (y: Exchange)
  {
    if x.thrown.Some? then x else x.(nextCalled := true)
  }

  function Throw(x: Exchange, f: Fault): (y: Exchange)
  {
    if x.thrown.Some? then x else x.(thrown := Some(f))
  }

  /**
   * signin as written. A failed query is answered and the handler then reads
   * `user.rows` of null. An unknown username is answered with 422 and the
   * handler then reads `.password` of undefined.
   */
  function SigninAsWritten(rows: seq<User>, body: Body, now: int, secret: string,
                           storeError: Option<string>): (x: Exchange)
    ensures x.response.Some? && !x.nextCalled
    ensures storeError.Some? ==> x.thrown == Some(NullQueryResult)
    ensures storeError.None? ==>
      (x.thrown.Some? <==> forall i :: 0 <= i < |rows| ==> rows[i].username != body.username)
    ensures x.thrown.Some? ==> x.thrown == Some(NullQueryResult) || x.thrown == Some(UndefinedRow)
  {
    if storeError.Some? then Throw(Send(Idle, Status(200, storeError.value)), NullQueryResult)
    else
      var user := Select(rows, (u: User) => u.username == body.username);
      var x := if user == [] then Send(Idle, Status(422, NotFoundMessage)) else Idle;
      if user == [] then Throw(x, UndefinedRow)
      else
        var confirmedUser := user[0];
        if !Compare(body.password, confirmedUser.password) then Send(x, Status(422, MismatchMessage))
        else Send(x, Token(CreateUserToken(confirmedUser, now, secret)))
  }

  /**
   * JWTAuth as written. When decoding fails, `decodedToken` stays '': its `iat`
   * is undefined, the expiry comparison with NaN is false, and the lookup
   * parameter is undefined, which the driver sends as NULL and which matches no row.
   */
  function JWTAuthAsWritten(rows: seq<User>, authorization: Option<string>, now: int, secret: string,
                            storeError: Option<string>): (x: Exchange)
    ensures var d := Decode(BearerToken(authorization), secret);
      x.nextCalled <==>
        d.Ok? && storeError.None? && exists i :: 0 <= i < |rows| && rows[i].user_id == d.value.sub
    ensures var d := Decode(BearerToken(authorization), secret);
      x.response.Some? <==> d.Err? || (d.Ok? && Expired(d.value, now)) || storeError.Some?
    ensures x.thrown.None? <==> x.nextCalled
  {
    var decoded := Decode(BearerToken(authorization), secret);
    var x1 := if decoded.Err? then Send(Idle, Status(401, Message(decoded.error))) else Idle;
    var x2 := if decoded.Ok? && Expired(decoded.value, now) then Send(x1, Status(401, ExpiredMessage)) else x1;
    if storeError.Some? then Throw(Send(x2, Status(500, storeError.value)), NullQueryResult)
    else
      var user := if decoded.Ok? then Select(rows, (u: User) => u.user_id == decoded.value.sub) else [];
      if user != [] then CallNext(x2) else Throw(x2, UndefinedErr)
  }

  // ---------------------------------------------------------------- agreement with the first-response models

  /** Signin as written always answers first, and its first answer is the Signin model's outcome. */
  lemma SigninFirstResponse(rows: seq<User>, body: Body, now: int, secret: string, storeError: Option<string>)
    ensures SigninAsWritten(rows, body, now, secret, storeError).response ==
      Some(Signin(rows, body, now, secret, storeError))
  {
  }

  /**
   * Where the guard as written answers, its first answer is the JWTAuth model's
   * outcome. Where it does not answer, it either admitted the request, or it
   * threw at the undefined `err` while the JWTAuth model refuses with 401.
   */
  lemma JWTAuthFirstResponse(rows: seq<User>, authorization: Option<string>, now: int, secret: string,
                             storeError: Option<string>)
    ensures var x := JWTAuthAsWritten(rows, authorization, now, secret, storeError);
      var o := JWTAuth(rows, authorization, now, secret, storeError);
      && (x.response.Some? ==> x.response.value == o)
      && (x.response.None? && x.nextCalled ==> o == Next)
      && (x.response.None? && !x.nextCalled ==> x.thrown == Some(UndefinedErr) && o == Status(401, UnknownSubjectMessage))
  {
    var d := Decode(BearerToken(authorization), secret);
    if d.Ok? && !Expired(d.value, now) && storeError.None? {
      var user := Select(rows, (u: User) => u.user_id == d.value.sub);
      assert user != [] <==> exists i :: 0 <= i < |rows| && rows[i].user_id == d.value.sub;
    }
  }

  // ---------------------------------------------------------------- findings

  /** An expired token for a user who still exists gets its 401 and is then passed on by next() anyway. */
  lemma ExpiredTokenStillCallsNext(rows: seq<User>, i: nat, issued: int, now: int, secret: string)
    requires i < |rows|
    requires now - issued > 3600000
    ensures var h := Some(BearerPrefix + CreateUserToken(rows[i], issued, secret));
      && JWTAuthAsWritten(rows, h, now, secret, None) == Exchange(Some(Status(401, ExpiredMessage)), true, None)
      && JWTAuth(rows, h, now, secret, None) == Status(401, ExpiredMessage)
  {
    var t := CreateUserToken(rows[i], issued, secret);
    BearerTokenOfPrefixed(t);
    assert rows[i] in Select(rows, (u: User) => u.user_id == rows[i].user_id);
  }

  /** A live, genuine token whose user has been deleted gets no response at all: the guard throws at `err`. */
  lemma DeletedUserGetsNoResponse(rows: seq<User>, user: User, issued: int, now: int, secret: string)
    requires forall i :: 0 <= i < |rows| ==> rows[i].user_id != user.user_id
    requires now - issued <= 3600000
    ensures var h := Some(BearerPrefix + CreateUserToken(user, issued, secret));
      && JWTAuthAsWritten(rows, h, now, secret, None) == Exchange(None, false, Some(UndefinedErr))
      && JWTAuth(rows, h, now, secret, None) == Status(401, UnknownSubjectMessage)
  {
    BearerTokenOfPrefixed(CreateUserToken(user, issued, secret));
  }

  /** A request with no Authorization header is refused with 401, and the guard then throws at `err`. */
  lemma MissingHeaderThenThrows(rows: seq<User>, now: int, secret: string)
    ensures JWTAuthAsWritten(rows, None, now, secret, None) ==
      Exchange(Some(Status(401, "No token supplied")), false, Some(UndefinedErr))
    ensures JWTAuth(rows, None, now, secret, None) == Status(401, "No token supplied")
  {
  }

  /** Signin for an unknown username sends 422 and then throws reading the missing row's password. */
  lemma UnknownUsernameThenThrows(rows: seq<User>, body: Body, now: int, secret: string)
    requires forall i :: 0 <= i < |rows| ==> rows[i].username != body.username
    ensures SigninAsWritten(rows, body, now, secret, None) ==
      Exchange(Some(Status(422, NotFoundMessage)), false, Some(UndefinedRow))
    ensures Signin(rows, body, now, secret, None) == Status(422, NotFoundMessage)
  {
  }
}

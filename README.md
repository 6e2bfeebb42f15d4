# Authentication core of express-postgress-api-jwt, in Dafny

This project models the authentication controller of a small Express and PostgreSQL
CRUD backend, and proves properties of the model. The controller has four parts:

- `createUserToken` builds the session claim `{sub, iat, admintype, usertype}` and signs it.
- The `checkBody` validator chain checks and sanitizes the email, username and password.
  It runs before both `/signup` and `/signin`.
- The `signup` and `signin` handlers work against the `users` table.
- The `JWTAuth` guard runs before every resource route. It reads the bearer token,
  refuses tokens older than sixty minutes, and admits the request only while the
  token's user still exists.

Files, one module each:

- `wrappers.dfy`: `Option` and `Result`.
- `strings.dfy`: split and join on a separator, decimal numerals, and JavaScript's
  first-occurrence `replace`, with their round-trip lemmas.
- `bcrypt.dfy`: the password hasher. A hash is a symbolic term over a salt and the
  plaintext. `Compare` accepts exactly the password a hash was made from.
- `jwt.dfy`: the token codec. It is a concrete stand-in with jwt-simple's three
  segments and jwt-simple's order of checks. The lemmas prove the round trip
  (decode of encode gives the claim back). They also prove tamper evidence: the only
  token that decodes to a claim under a secret is that claim's own encoding.
- `validation.dfy`: `checkBody`, with validator's trim and HTML escape written out.
  `isEmail` and `normalizeEmail` are function parameters.
- `store.dfy`: a `users` row, queries as filters, and the `UserTable` class. The class
  holds the rows and the counter behind the serial `user_id` column.
- `authentication.dfy`: token issue, `Signup` (a method that inserts into the table),
  `Signin` and `JWTAuth`. `Signin` and `JWTAuth` are functions of the rows, so neither
  can change the table: only `Signup` does. Each handler is modelled by the first
  response it issues.
- `as_written.dfy`: `signin` and `JWTAuth` as the code is written. In places the code
  sends a response and does not return, so execution goes on.

Inputs the code takes from its environment are parameters:

- `now` is `new Date().getTime()`.
- `randomness` is the random part of bcrypt's `genSalt`.
- `secret` is `process.env.JWT_SECRET`.
- `storeError` is `Some(message)` when the request's first database query fails.

Behaviour of the code that the model keeps and a reader might not expect:

- Username and password lengths are checked on the trimmed and then HTML-escaped
  value, not on the trimmed value alone. So the four-character name `ab<c` is accepted.
  Its escaped form `ab&lt;c` has seven characters (`Validation.EscapingCountsTowardLength`).
- Signin answers "not found" and "wrong password" with two different messages, both
  with status 422.
- Validation failures are sent with status 200 and an `errors` body.
- A failed query in signin is sent with status 200. In signup it gets 500.
- The guard strips only the lower-case `"bearer "`, and only its first occurrence, which
  may sit anywhere in the header.

## Model

| member | source | states |
|---|---|---|
| `Authentication.CreateUserToken` | controllers/authentication.js:7-11 | the token decodes, under the same secret, to sub = the row's user_id, iat = the supplied time, and the row's admintype and usertype |
| `Jwt.EncodeDecode` | controllers/authentication.js:10 | decoding a token with the secret that signed it returns exactly the encoded claim |
| `Jwt.DecodeOnlyGenuine` | controllers/authentication.js:118-123 | a token that decodes to a claim under a secret is the encoding of that claim under that secret; any other string is rejected |
| `Bcrypt.CompareHash` | controllers/authentication.js:101-103 | compare against a stored hash is true for the password it was hashed from and false for every other password |
| `Bcrypt.HashSaltsDiffer` | controllers/authentication.js:41-43 | the same password hashed under two different salts gives two different stored values |
| `Validation.TrimIsInfix` | controllers/authentication.js:18 | trim keeps one contiguous middle part of the input and removes only white space before and after it |
| `Validation.TrimmedEnds` | controllers/authentication.js:18 | a trimmed value neither starts nor ends with white space |
| `Validation.Escape` | controllers/authentication.js:19 | escaping never shortens a string, and it keeps the length exactly when no character needs an HTML entity, in which case the string is unchanged |
| `Validation.FieldErrors` | controllers/authentication.js:16-20 | a username or password field gets no error iff its raw value is non-empty and its trimmed, escaped value is within the length bounds |
| `Validation.CheckBody` | controllers/authentication.js:13-26 | no errors iff the email passes isEmail, the username passes (6..15) and the password passes (6..30); the body becomes the normalized email and the trimmed, escaped username and password |
| `Validation.CheckBodyReportsEachField` | controllers/authentication.js:13-26 | every failing field has an error naming it and no passing field has one, so the whole list is reported, not only the first failure |
| `Validation.AcceptedBodyBounds` | controllers/authentication.js:20 | a body that passed has a sanitized username of 6..15 characters and a sanitized password of 6..30 |
| `Validation.LongUsernameRejected` | controllers/authentication.js:16-20 | a username whose trimmed form is longer than 15 characters is always rejected, because escaping never shortens |
| `Validation.BlankUsernameRejected` | controllers/authentication.js:17-20 | a non-empty username of white space only passes the non-empty check and gets exactly one error, from the length check |
| `Validation.EscapingCountsTowardLength` | controllers/authentication.js:16-20 | escaping happens before the length check: "ab<c" sanitizes to "ab&lt;c" and is accepted |
| `Store.Select` | controllers/authentication.js:50-53 | a query returns exactly the matching rows, and is empty iff no row matches |
| `Store.SelectFirst` | controllers/authentication.js:60 | the first row of a result set is the first matching row in table order |
| `Store.AppendKeepsUnique` | controllers/authentication.js:47-70 | adding a row whose username and email are both absent from the table keeps every username and every email unique |
| `Store.UserTable.Insert` | controllers/authentication.js:67-70 | the insert appends exactly one row with the given fields and the next serial id, which no earlier row has |
| `Authentication.Signup` | controllers/authentication.js:28-78 | validation errors return the whole list; a store error returns 500; a taken username or email returns 422; in all three cases the table is unchanged; otherwise exactly one row is appended with usertype 1 and admintype 0, and the returned token decodes to the new id; uniqueness of usernames and emails is preserved |
| `Authentication.Signin` | controllers/authentication.js:80-114 | a store error answers with its message; with the store answering, 422 not found iff no row has the username; a token is only issued for a row with that username whose hash matches the password, carrying that row's id and role tags; a mismatch 422 only when such a row's hash does not match |
| `Authentication.SigninByRow` | controllers/authentication.js:84-112 | with unique usernames (emails unconstrained), signin for a stored username returns that row's token iff the password matches its hash, and the mismatch 422 otherwise |
| `Authentication.SigninFindsNewRow` | controllers/authentication.js:64-76 | a row added with a new username is found by signin with the password it was hashed from, and signin returns that row's token |
| `Authentication.SigninAfterSignup` | index.js:15-16 | after signup stored the row for a validated body, signin with the same raw username and password, sanitized by checkBody, returns that row's token |
| `Authentication.SignupThenSignin` | index.js:15-16 | a fresh signup followed by signin with the same raw credentials both return tokens, and both tokens decode to the new user's id with usertype 1 and admintype 0 |
| `Strings.RemoveFirst` | controllers/authentication.js:117 | `replace` with a string pattern removes the first occurrence only, and leaves a string without the pattern unchanged |
| `Authentication.BearerToken` | controllers/authentication.js:117 | the token is "" without a header, and otherwise the header with its first "bearer " removed |
| `Authentication.BearerTokenOfPrefixed` | controllers/authentication.js:117 | a header "bearer " + t yields exactly t |
| `Authentication.JWTAuth` | controllers/authentication.js:116-148 | next is called iff the token decodes, at most 3,600,000 ms have passed since iat, the store answers, and a row has user_id = sub; an undecodable token gives 401 with the codec's message; "Token expired" iff more than 3,600,000 ms have passed; otherwise 500 on a store error and 401 for a missing user |
| `Authentication.GuardAdmitsLiveToken` | controllers/authentication.js:124-145 | a token issued for a stored user is admitted while at most sixty minutes have passed, and refused as expired after that |
| `Authentication.ExpiryBoundary` | controllers/authentication.js:124-130 | exactly 3,600,000 ms after issue the token is admitted; 3,600,001 ms after, it is refused with "Token expired" |
| `Authentication.GuardRefusesMissingHeader` | controllers/authentication.js:117-122 | without an Authorization header the guard answers 401 "No token supplied" |
| `AsWritten.SigninAsWritten` | controllers/authentication.js:80-114 | as written, signin always answers and never calls next; after a failed query it throws reading `.rows` of null; with the query answered it throws iff no row has the username |
| `AsWritten.JWTAuthAsWritten` | controllers/authentication.js:116-148 | as written, next is called iff the token decodes, the store answers and a row has user_id = sub, whether or not the token has expired; a response is sent iff decoding fails, the token has expired or the store fails; the handler throws exactly when it does not call next |
| `AsWritten.SigninFirstResponse` | controllers/authentication.js:80-114 | the code as written always sends a first response, and that response is the outcome of `Signin` |
| `AsWritten.JWTAuthFirstResponse` | controllers/authentication.js:116-148 | where the guard as written responds, its first response is the outcome of `JWTAuth`; where it does not, it either called next (and `JWTAuth` admits) or threw at the undefined `err` (and `JWTAuth` answers 401) |
| `AsWritten.ExpiredTokenStillCallsNext` | controllers/authentication.js:128-145 | as written, an expired token for a stored user gets 401 "Token expired" and next() is still called |
| `AsWritten.DeletedUserGetsNoResponse` | controllers/authentication.js:143-148 | as written, a live genuine token whose user is gone gets no response, and the handler throws at `err` |
| `AsWritten.MissingHeaderThenThrows` | controllers/authentication.js:117-147 | as written, a missing header gets 401, and then the handler goes on and throws at `err` |
| `AsWritten.UnknownUsernameThenThrows` | controllers/authentication.js:95-101 | as written, an unknown username gets 422, and then the handler throws reading the missing row's password |

## Findings

| source | as written | input that shows it | evidently intended | confidence | as-written member | corrected member |
|---|---|---|---|---|---|---|
| controllers/authentication.js:128-145 | after sending 401 "Token expired" the guard does not return; it looks the user up and calls next() | a genuine token for a stored user, presented more than 3,600,000 ms after iat | return after the 401, so the route never runs | not executed; high | `AsWritten.ExpiredTokenStillCallsNext` | `Authentication.JWTAuth` |
| controllers/authentication.js:147 | when no row has the token's subject, the else branch reads `err`, which is not in scope; a ReferenceError escapes and no response is sent | a genuine, unexpired token whose user row no longer exists | answer 401 (the model uses the message "Unauthorized") | not executed; high | `AsWritten.DeletedUserGetsNoResponse` | `Authentication.JWTAuth` |
| controllers/authentication.js:119-123 | after sending 401 for an undecodable token the guard goes on; the lookup finds no row and the handler throws at `err` | a request with no Authorization header | return after the 401 | not executed; high | `AsWritten.MissingHeaderThenThrows` | `Authentication.JWTAuth` |
| controllers/authentication.js:95-101 | after sending 422 for an unknown username signin goes on and reads `.password` of an undefined row, which throws | a signin whose username no row has | return after the 422 | not executed; high | `AsWritten.UnknownUsernameThenThrows` | `Authentication.Signin` |

`AsWritten.JWTAuthAsWritten` and `AsWritten.SigninAsWritten` are the as-written models these
lemmas are about (rows in "## Model"). An exception that escapes an async Express 4 handler becomes an unhandled
promise rejection. The model records it as the request's `thrown` fault.

## Left out

- Password hashing is symbolic. The model has no one-way digest, no 72-byte input limit
  and no work factor beyond recording the cost 10 in the salt.
- Token signing uses a keyed 32-bit checksum in place of HMAC-SHA256. Claims are decimal
  fields in place of base64url JSON. The model does not capture cryptographic strength.
  It proves tamper evidence only against this stand-in: a token other than the genuine
  encoding is rejected.
- Token decoding merges jwt-simple's header parse and algorithm check into one check of
  the fixed HS256 header. So a bad header is reported before a bad payload. The JSON
  parse error message is a fixed string.
- `isEmail` and `normalizeEmail` are parameters: their rules live in validator.js, which
  is not part of this model.
- The validator error objects carry only `param` and `msg`, not `value` and `location`.
- `isLength` counts characters as Unicode scalar values. Some validator versions also
  discount variation selectors; the model does not.
- Async timing is left out. The model does not capture the un-awaited `genSalt`/`hash`
  callbacks, which can leave `hashedPassword` null at the insert (lines 40-45). It does
  not capture the check-then-insert race between concurrent signups either. The model
  hashes before the lookup, and runs one request at a time.
- Store failures are one parameter: the request's first query fails. So a failing insert
  after a succeeding lookup (lines 71-74) is not modelled. Neither is the crash that
  follows signup's 500 at line 60.
- The error branch of bcrypt's compare callback (lines 104-106) is left out: comparing
  against a symbolic stored hash cannot fail.
- A missing `JWT_SECRET` is left out. jwt-simple would throw "Require key" there.
- Postgres returns rows without `ORDER BY` in no fixed order. The model returns them in
  table order.
- The model does not check the database schema's own uniqueness constraints, which are
  not part of this model.
- JavaScript numbers are doubles. The model uses unbounded integers, which agree for
  millisecond times and serial ids below 2^53.
- HTTP plumbing is left out: what next() leads to downstream, what happens to a request
  that throws, the `console.error` logging of failed queries (lines 55,
  72, 91 and 139), and the CRUD routes of index.js. Those routes wrap SQL strings run by
  Postgres.

/**
 * The checkBody middleware chain (express-validator over validator.js). It runs
 * on both the signup and signin routes. Its validators collect one error per
 * failing check. Its sanitizers rewrite the body the handlers then read: the
 * email is normalized, and the username and password are trimmed and then
 * HTML-escaped. The length checks look at the escaped form.
 *
 * isEmail and normalizeEmail belong to the library; they are parameters here.
 */
module Validation {

  // ---------------------------------------------------------------- trim

  /** JavaScript's `\s` class, which validator's trim strips. */
  predicate IsSpace(c: char)
  {
    c == ' ' || c == '\t' || c == '\n' || c == '\r' || c == '\U{B}' || c == '\U{C}' ||
    c == '\U{A0}' || c == '\U{1680}' || ('\U{2000}' <= c <= '\U{200A}') ||
    c == '\U{2028}' || c == '\U{2029}' || c == '\U{202F}' || c == '\U{205F}' ||
    c == '\U{3000}' || c == '\U{FEFF}'
  }

  /** ltrim: the leading white space removed. */
  function TrimStart(s: string): (r: string)
    ensures |r| <= |s| && r == s[|s| - |r|..]
    ensures forall i :: 0 <= i < |s| - |r| ==> IsSpace(s[i])
    ensures r == [] || !IsSpace(r[0])
    decreases |s|
  {
    if s != [] && IsSpace(s[0]) then TrimStart(s[1..]) else s
  }

  /** rtrim: the trailing white space removed. */
  function TrimEnd(s: string): (r: string)
    ensures |r| <= |s| && r == s[..|r|]
    ensures forall i :: |r| <= i < |s| ==> IsSpace(s[i])
    ensures r == [] || !IsSpace(r[|r| - 1])
    decreases |s|
  {
    if s != [] && IsSpace(s[|s| - 1]) then TrimEnd(s[..|s| - 1]) else s
  }

  /** validator's trim: rtrim(ltrim(s)). */
  function Trim(s: string): (r: string)
  {
    TrimEnd(TrimStart(s))
  }

  /** `s[i..j]` is what is left when only white space before `i` and from `j` on is removed. */
  ghost predicate SpaceAround(s: string, i: int, j: int)
  {
    && 0 <= i <= j <= |s|
    && (forall k :: 0 <= k < i ==> IsSpace(s[k]))
    && (forall k :: j <= k < |s| ==> IsSpace(s[k]))
  }

  /** Trim keeps a contiguous middle part of the input and removes only white space around it. */
  lemma TrimIsInfix(s: string)
    ensures exists i, j :: SpaceAround(s, i, j) && Trim(s) == s[i..j]
  {
    var t := TrimStart(s);
    var r := TrimEnd(t);
    var i := |s| - |t|;
    var j := i + |r|;
    assert t == s[i..];
    assert r == t[..|r|];
    assert r == s[i..j] by {
      forall k | 0 <= k < |r| ensures r[k] == s[i + k] {
        assert r[k] == t[k];
      }
    }
    TrailingSpace(s, t, r, i);
    assert SpaceAround(s, i, j) && Trim(s) == s[i..j];
  }

  lemma TrailingSpace(s: string, t: string, r: string, i: nat)
    requires t == TrimStart(s) && r == TrimEnd(t) && i == |s| - |t|
    ensures forall k :: i + |r| <= k < |s| ==> IsSpace(s[k])
  {
    forall k | i + |r| <= k < |s| ensures IsSpace(s[k]) {
      assert s[k] == t[k - i];
    }
  }

  /** A trimmed value neither starts nor ends with white space. */
  lemma TrimmedEnds(s: string)
    ensures Trim(s) == [] || (!IsSpace(Trim(s)[0]) && !IsSpace(Trim(s)[|Trim(s)| - 1]))
  {
    var t := TrimStart(s);
    var r := TrimEnd(t);
    if r != [] {
      assert r[0] == t[0];
    }
  }

  // ---------------------------------------------------------------- escape

  /** The characters validator's escape replaces by HTML entities. */
  predicate IsHtmlSpecial(c: char)
  {
    c == '&' || c == '"' || c == '\'' || c == '<' || c == '>' || c == '/' || c == '\\' || c == '`'
  }

  function EscapeChar(c: char): (r: string)
    ensures IsHtmlSpecial(c) ==> |r| > 1
    ensures !IsHtmlSpecial(c) ==> r == [c]
  {
    match c
    case '&' => "&amp;"
    case '"' => "&quot;"
    case '\'' => "&#x27;"
    case '<' => "&lt;"
    case '>' => "&gt;"
    case '/' => "&#x2F;"
    case '\\' => "&#x5C;"
    case '`' => "&#96;"
    case _ => [c]
  }

  /**
   * validator's escape. The library applies one replace per character, '&' first,
   * and no entity contains a character a later replace rewrites, so this is the
   * same as escaping each character on its own.
   */
  function Escape(s: string): (r: string)
    ensures |r| >= |s|
    ensures |r| == |s| <==> forall i :: 0 <= i < |s| ==> !IsHtmlSpecial(s[i])
    ensures |r| == |s| ==> r == s
    decreases |s|
  {
    if s == [] then [] else EscapeChar(s[0]) + Escape(s[1..])
  }

  // ---------------------------------------------------------------- the chain

  /** The fields checkBody looks at; a missing field reads as "". */
  datatype Body = Body(email: string, username: string, password: string)

  /** The body fields checkBody names; an error's `param` is the field's name. */
  datatype Field = Email | Username | Password

  function ParamName(f: Field): (name: string)
  {
    match f
    case Email => "email"
    case Username => "username"
    case Password => "password"
  }

  /** One entry of validationResult(req).array(). */
  datatype FieldError = FieldError(param: Field, msg: string)

  /** The request after checkBody: the collected errors and the sanitized body. */
  datatype Validated = Validated(errors: seq<FieldError>, body: Body)

  const InvalidValue: string := "Invalid value"

  const UsernameMin: nat := 6
  const UsernameMax: nat := 15
  const PasswordMin: nat := 6
  const PasswordMax: nat := 30

  /** trim() then escape(), the two sanitizers on username and password. */
  function Sanitize(s: string): (r: string)
  {
    Escape(Trim(s))
  }

  /** The field passes not().isEmpty() on its raw value and isLength on its sanitized value. */
  predicate FieldValid(value: string, min: nat, max: nat)
  {
    value != "" && min <= |Sanitize(value)| <= max
  }

  /** Errors from not().isEmpty(), then from isLength: a field can get two. */
  function FieldErrors(param: Field, value: string, min: nat, max: nat): (errs: seq<FieldError>)
    ensures errs == [] <==> FieldValid(value, min, max)
    ensures forall e :: e in errs ==> e == FieldError(param, InvalidValue)
    ensures |errs| <= 2
  {
    (if value == "" then [FieldError(param, InvalidValue)] else []) +
    (if min <= |Sanitize(value)| <= max then [] else [FieldError(param, InvalidValue)])
  }

  function EmailErrors(email: string, isEmail: string -> bool): (errs: seq<FieldError>)
    ensures errs == [] <==> isEmail(email)
    ensures forall e :: e in errs ==> e == FieldError(Email, InvalidValue)
  {
    if isEmail(email) then [] else [FieldError(Email, InvalidValue)]
  }

  /**
   * checkBody: the three chains run in order (email, username, password). All
   * errors are collected, and the body is sanitized whatever the errors are.
   */
  function CheckBody(raw: Body, isEmail: string -> bool, normalizeEmail: string -> string): (v: Validated)
    ensures v.errors == [] <==>
      isEmail(raw.email) &&
      FieldValid(raw.username, UsernameMin, UsernameMax) &&
      FieldValid(raw.password, PasswordMin, PasswordMax)
    ensures v.body.email == normalizeEmail(raw.email)
    ensures v.body.username == Escape(Trim(raw.username))
    ensures v.body.password == Escape(Trim(raw.password))
  {
    var u := FieldErrors(Username, raw.username, UsernameMin, UsernameMax);
    var p := FieldErrors(Password, raw.password, PasswordMin, PasswordMax);
    var e := EmailErrors(raw.email, isEmail);
    Validated(e + u + p, Body(normalizeEmail(raw.email), Sanitize(raw.username), Sanitize(raw.password)))
  }

  lemma InConcat<T>(x: T, a: seq<T>, b: seq<T>, c: seq<T>)
    ensures x in a + b + c <==> x in a || x in b || x in c
  {
  }

  /**
   * The whole list is returned, not just the first failure: each failing field
   * contributes an error naming it, and no passing field does.
   */
  lemma CheckBodyReportsEachField(raw: Body, isEmail: string -> bool, normalizeEmail: string -> string)
    ensures var errs := CheckBody(raw, isEmail, normalizeEmail).errors;
      && (FieldError(Email, InvalidValue) in errs <==> !isEmail(raw.email))
      && (FieldError(Username, InvalidValue) in errs <==> !FieldValid(raw.username, UsernameMin, UsernameMax))
      && (FieldError(Password, InvalidValue) in errs <==> !FieldValid(raw.password, PasswordMin, PasswordMax))
  {
    var e := EmailErrors(raw.email, isEmail);
    var u := FieldErrors(Username, raw.username, UsernameMin, UsernameMax);
    var p := FieldErrors(Password, raw.password, PasswordMin, PasswordMax);
    assert CheckBody(raw, isEmail, normalizeEmail).errors == e + u + p;
    var ee, ue, pe := FieldError(Email, InvalidValue), FieldError(Username, InvalidValue), FieldError(Password, InvalidValue);
    InConcat(ee, e, u, p);
    InConcat(ue, e, u, p);
    InConcat(pe, e, u, p);
    assert ue !in e && ue !in p && pe !in e && pe !in u && ee !in u && ee !in p;
  }

  /** A sanitized username that passed checkBody is 6 to 15 characters long, so is a password's 6 to 30. */
  lemma AcceptedBodyBounds(raw: Body, isEmail: string -> bool, normalizeEmail: string -> string)
    requires CheckBody(raw, isEmail, normalizeEmail).errors == []
    ensures var b := CheckBody(raw, isEmail, normalizeEmail).body;
      UsernameMin <= |b.username| <= UsernameMax && PasswordMin <= |b.password| <= PasswordMax
  {
  }

  /** Escaping never shortens, so a trimmed username longer than 15 characters is always rejected. */
  lemma LongUsernameRejected(username: string)
    requires |Trim(username)| > UsernameMax
    ensures !FieldValid(username, UsernameMin, UsernameMax)
  {
  }

  /** White space alone passes the non-empty check but fails the length check. */
  lemma BlankUsernameRejected(username: string)
    requires username != "" && Trim(username) == ""
    ensures !FieldValid(username, UsernameMin, UsernameMax)
    ensures FieldErrors(Username, username, UsernameMin, UsernameMax) == [FieldError(Username, InvalidValue)]
  {
  }

  /**
   * Escaping happens before the length check: the four-character name "ab<c" is
   * accepted, because its escaped form "ab&lt;c" has seven characters.
   */
  lemma EscapingCountsTowardLength()
    ensures Sanitize("ab<c") == "ab&lt;c"
    ensures FieldValid("ab<c", UsernameMin, UsernameMax)
  {
    var s := "ab<c";
    assert !IsSpace(s[0]) && !IsSpace(s[|s| - 1]);
    assert Trim(s) == s;
    assert s[1..] == "b<c" && s[1..][1..] == "<c" && s[1..][1..][1..] == "c";
    assert Escape("c") == "c";
    assert Escape("<c") == "&lt;" + "c";
    assert Escape("b<c") == "b" + "&lt;c";
    assert Escape(s) == "a" + "b&lt;c";
  }
}

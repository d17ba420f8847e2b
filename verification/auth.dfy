/**
 The bearer-token part of the coffee shop's auth layer (`auth/auth.py`):
 the `AuthError` exception, the `Authorization` header parser, the two
 unimplemented verification stages, and the `requires_auth` decorator that
 chains them in front of a route handler.

 Python exceptions become the `Err` case of `Outcome`; the `:-` operator
 propagates them exactly as an uncaught `raise` leaves a Python function.
 */
module Auth {
  import opened PyStr

  /** Configuration the module declares; no implemented code reads it. */
  const AUTH0_DOMAIN := "dev-4ezltnbcex7uvmp5.us.auth0.com"
  const ALGORITHMS := ["RS256"]
  const API_AUDIENCE := "ffsnd"

  datatype Option<+T> = None | Some(value: T)

  /**
   What an `AuthError` carries as its `error`: the missing-header case passes
   a bare string, every other case a dictionary with a code and a description.
   */
  datatype ErrorBody =
    | Message(text: string)
    | Coded(code: string, description: string)

  /** The exceptions that can leave this module. */
  datatype Exc =
    | AuthError(error: ErrorBody, statusCode: int)
    | IndexError                        // `parts[0]` on an empty list
    | PlainException(message: string)   // a bare `Exception(...)`

  /** A value returned, or an exception raised. */
  datatype Outcome<+T> = Ok(value: T) | Err(exc: Exc) {
    predicate IsFailure() {
      Err?
    }

    function PropagateFailure<U>(): Outcome<U>
      requires Err?
    {
      Err(exc)
    }

    function Extract(): T
      requires Ok?
    {
      value
    }
  }

  const MISSING_HEADER: Exc :=
    AuthError(Message("Authorization missing"), 401)
  const MALFORMED_HEADER: Exc :=
    AuthError(Coded("Malformed header", "Authorization header must start with \"Bearer\"."), 401)
  const INCOMPLETE_HEADER: Exc :=
    AuthError(Coded("Invalid header", "Header incomplete."), 401)
  const EXCESS_PARTS: Exc :=
    AuthError(Coded("Invalid header", "Authorization header has excess parts."), 401)
  const NOT_IMPLEMENTED: Exc :=
    PlainException("Not Implemented")

  /** `w` is "bearer" written in any mix of upper and lower case. */
  predicate IsBearerSpelling(w: string) {
    |w| == 6 && forall i :: 0 <= i < 6 ==> w[i] == "bearer"[i] || w[i] == "BEARER"[i]
  }

  /** The scheme test `parts[0].lower() != 'bearer'` is a case-insensitive comparison. */
  lemma {:induction false} LowerIsBearer(w: string)
    ensures Lower(w) == "bearer" <==> IsBearerSpelling(w)
  {
    if Lower(w) == "bearer" {
      forall i | 0 <= i < 6
        ensures w[i] == "bearer"[i] || w[i] == "BEARER"[i]
      {
        assert Lower(w)[i] == AsciiLower(w[i]);
      }
    }
    if IsBearerSpelling(w) {
      forall i | 0 <= i < 6
        ensures Lower(w)[i] == "bearer"[i]
      {
        assert Lower(w)[i] == AsciiLower(w[i]);
      }
    }
  }

  /**
   `get_token_auth_header()`, given the request's `Authorization` header
   (`None` when the request has none). The header is split on runs of
   whitespace; the scheme test comes before the part-count tests, and an
   empty or all-whitespace header makes `parts[0]` raise `IndexError`.
   */
  function GetTokenAuthHeader(header: Option<string>): (r: Outcome<string>)
    ensures r.Ok? ==> IsWord(r.value)
    ensures r.Err? ==> r.exc == IndexError || (r.exc.AuthError? && r.exc.statusCode == 401)
  {
    match header
    case None => Err(MISSING_HEADER)
    case Some(authHeader) =>
      var parts := Split(authHeader);
      if |parts| == 0 then Err(IndexError)
      else if Lower(parts[0]) != "bearer" then Err(MALFORMED_HEADER)
      else if |parts| == 1 then Err(INCOMPLETE_HEADER)
      else if |parts| > 2 then Err(EXCESS_PARTS)
      else Ok(parts[1])
  }

  /**
   The two shapes of an `AuthError`'s `error`: the parser raises a bare
   message exactly when the header is missing, and a code with a description
   otherwise; the status code is carried as raised, always 401 here.
   */
  lemma AuthErrorShape(header: Option<string>)
    ensures var r := GetTokenAuthHeader(header);
      r.Err? && r.exc.AuthError? ==>
        && (r.exc.error.Message? <==> header.None?)
        && (r.exc.error.Coded? <==> header.Some?)
        && r.exc.statusCode == 401
  {
  }

  /** The missing-header error is raised exactly when there is no header. */
  lemma MissingIffNoHeader(header: Option<string>)
    ensures GetTokenAuthHeader(header) == Err(MISSING_HEADER) <==> header.None?
  {
  }

  /** A present header that is empty or only whitespace escapes as `IndexError`, and nothing else does. */
  lemma {:induction false} CrashIffBlank(header: Option<string>)
    ensures GetTokenAuthHeader(header) == Err(IndexError) <==> header.Some? && AllSpace(header.value)
  {
    if header.Some? {
      SplitEmptyIffAllSpace(header.value);
    }
  }

  /** Malformed exactly when the first part is not "bearer" in some case, whatever follows it. */
  lemma {:induction false} MalformedIffNotBearer(header: Option<string>)
    ensures GetTokenAuthHeader(header) == Err(MALFORMED_HEADER) <==>
      header.Some? && var parts := Split(header.value); |parts| >= 1 && !IsBearerSpelling(parts[0])
  {
    if header.Some? && |Split(header.value)| >= 1 {
      LowerIsBearer(Split(header.value)[0]);
    }
  }

  /** "Header incomplete." exactly when the only part is "bearer" in some case. */
  lemma {:induction false} IncompleteIffBearerAlone(header: Option<string>)
    ensures GetTokenAuthHeader(header) == Err(INCOMPLETE_HEADER) <==>
      header.Some? && var parts := Split(header.value); |parts| == 1 && IsBearerSpelling(parts[0])
  {
    if header.Some? && |Split(header.value)| >= 1 {
      LowerIsBearer(Split(header.value)[0]);
    }
  }

  /** "excess parts" exactly when "bearer" in some case is followed by two or more parts. */
  lemma {:induction false} ExcessIffTooManyParts(header: Option<string>)
    ensures GetTokenAuthHeader(header) == Err(EXCESS_PARTS) <==>
      header.Some? && var parts := Split(header.value); |parts| > 2 && IsBearerSpelling(parts[0])
  {
    if header.Some? && |Split(header.value)| >= 1 {
      LowerIsBearer(Split(header.value)[0]);
    }
  }

  /** A token is returned exactly for two parts with "bearer" first; it is the second part. */
  lemma {:induction false} OkIffBearerAndToken(header: Option<string>)
    ensures GetTokenAuthHeader(header).Ok? <==>
      header.Some? && var parts := Split(header.value); |parts| == 2 && IsBearerSpelling(parts[0])
    ensures GetTokenAuthHeader(header).Ok? ==> GetTokenAuthHeader(header).value == Split(header.value)[1]
  {
    if header.Some? && |Split(header.value)| >= 1 {
      LowerIsBearer(Split(header.value)[0]);
    }
  }

  /**
   A single word that is not "bearer" is reported as malformed, not as
   incomplete, and so is any header whose first word is not "bearer",
   whatever number of parts follow: the scheme is checked first.
   */
  lemma {:induction false} SchemeCheckedFirst(lead: string, scheme: string, rest: string)
    requires AllSpace(lead) && IsWord(scheme) && !IsBearerSpelling(scheme)
    requires rest == [] || IsSpace(rest[0])
    ensures GetTokenAuthHeader(Some(lead + scheme + rest)) == Err(MALFORMED_HEADER)
  {
    assert lead + scheme + rest == lead + (scheme + rest);
    SplitSkipsSpace(lead, scheme + rest);
    SplitWord(scheme, rest);
    LowerIsBearer(scheme);
  }

  /**
   Round trip: "Bearer" in any case, a non-empty run of whitespace and a
   token without whitespace, with optional whitespace around, give back
   exactly the token.
   */
  lemma {:induction false} ExtractRoundTrip(lead: string, scheme: string, sep: string, token: string, trail: string)
    requires AllSpace(lead) && AllSpace(trail) && AllSpace(sep) && sep != []
    requires IsBearerSpelling(scheme) && IsWord(token)
    ensures GetTokenAuthHeader(Some(lead + scheme + sep + token + trail)) == Ok(token)
  {
    BearerIsWord(scheme);
    var gaps, words := [lead, sep, trail], [scheme, token];
    assert Join(gaps, words) == lead + scheme + sep + token + trail by {
      assert Join(gaps[2..], words[2..]) == trail;
      assert Join(gaps[1..], words[1..]) == sep + token + trail;
    }
    SplitJoin(gaps, words);
    LowerIsBearer(scheme);
  }

  /**
   The converse of the round trip: every header that yields a token has that
   shape, with the scheme, the separator and the surrounding whitespace the
   header's own.
   */
  lemma {:induction false} ExtractOkShape(h: string)
    requires GetTokenAuthHeader(Some(h)).Ok?
    ensures var token, gaps, scheme := GetTokenAuthHeader(Some(h)).value, Gaps(h), Split(h)[0];
      && |gaps| == 3
      && AllSpace(gaps[0]) && AllSpace(gaps[1]) && gaps[1] != [] && AllSpace(gaps[2])
      && IsBearerSpelling(scheme) && IsWord(token)
      && h == gaps[0] + scheme + gaps[1] + token + gaps[2]
  {
    OkIffBearerAndToken(Some(h));
    SplitSeparated(h);
    JoinGapsSplit(h);
    var gaps, words := Gaps(h), Split(h);
    assert Join(gaps[2..], words[2..]) == gaps[2];
    assert Join(gaps[1..], words[1..]) == gaps[1] + words[1] + gaps[2];
  }

  /** "Bearer" in some case with nothing after it but whitespace is incomplete. */
  lemma {:induction false} BearerAloneIncomplete(lead: string, scheme: string, trail: string)
    requires AllSpace(lead) && AllSpace(trail) && IsBearerSpelling(scheme)
    ensures GetTokenAuthHeader(Some(lead + scheme + trail)) == Err(INCOMPLETE_HEADER)
  {
    BearerIsWord(scheme);
    var gaps, words := [lead, trail], [scheme];
    assert Join(gaps, words) == lead + scheme + trail by {
      assert Join(gaps[1..], words[1..]) == trail;
    }
    SplitJoin(gaps, words);
    LowerIsBearer(scheme);
  }

  /** "Bearer" in some case followed by two or more tokens has excess parts. */
  lemma {:induction false} BearerWithExtraPart(scheme: string, sep: string, token: string, sep': string, extra: string)
    requires IsBearerSpelling(scheme) && IsWord(token) && IsWord(extra)
    requires AllSpace(sep) && sep != [] && AllSpace(sep') && sep' != []
    ensures GetTokenAuthHeader(Some(scheme + sep + token + sep' + extra)) == Err(EXCESS_PARTS)
  {
    BearerIsWord(scheme);
    var gaps, words := ["", sep, sep', ""], [scheme, token, extra];
    assert Join(gaps, words) == scheme + sep + token + sep' + extra by {
      assert Join(gaps[3..], words[3..]) == "";
      assert Join(gaps[2..], words[2..]) == sep' + extra;
      assert Join(gaps[1..], words[1..]) == sep + token + sep' + extra;
    }
    SplitJoin(gaps, words);
    LowerIsBearer(scheme);
  }

  lemma BearerIsWord(scheme: string)
    requires IsBearerSpelling(scheme)
    ensures IsWord(scheme)
  {
    forall i | 0 <= i < |scheme| ensures !IsSpace(scheme[i]) {
      assert scheme[i] == "bearer"[i] || scheme[i] == "BEARER"[i];
    }
  }

  /** Two concrete headers: a blank one crashes, a well-formed one yields its token. */
  lemma BlankHeaderExample()
    ensures GetTokenAuthHeader(Some("")) == Err(IndexError)
    ensures GetTokenAuthHeader(Some(" \t")) == Err(IndexError)
  {
    CrashIffBlank(Some(" \t"));
  }

  lemma TokenExample()
    ensures GetTokenAuthHeader(Some(" bEaReR\t\tabc ")) == Ok("abc")
  {
    ExtractRoundTrip(" ", "bEaReR", "\t\t", "abc", " ");
    assert " " + "bEaReR" + "\t\t" + "abc" + " " == " bEaReR\t\tabc ";
  }

  /** `check_permissions`: a stub that always raises `Exception('Not Implemented')`. */
  function CheckPermissions<P>(permission: string, payload: P): (r: Outcome<bool>)
    ensures r.Err? && r.exc == NOT_IMPLEMENTED
  {
    Err(NOT_IMPLEMENTED)
  }

  /** `verify_decode_jwt`: a stub that always raises `Exception('Not Implemented')`. */
  function VerifyDecodeJwt<P>(token: string): (r: Outcome<P>)
    ensures r.Err? && r.exc == NOT_IMPLEMENTED
  {
    Err(NOT_IMPLEMENTED)
  }

  /**
   The wrapper `requires_auth(permission)(f)` builds, run on one request,
   with the verification and permission stages as parameters: extract the
   token, decode it, check the permission, and only then call `f` with the
   payload in front of the caller's arguments. `args` stands for both
   `*args` and `**kwargs`.
   */
  function Guard<P, A, R, C>(
    permission: string, f: (P, A) -> Outcome<R>, header: Option<string>, args: A,
    verify: string -> Outcome<P>, check: (string, P) -> Outcome<C>): (r: Outcome<R>)
    ensures r.Ok? ==>
      && GetTokenAuthHeader(header).Ok?
      && verify(GetTokenAuthHeader(header).value).Ok?
      && check(permission, verify(GetTokenAuthHeader(header).value).value).Ok?
  {
    var token :- GetTokenAuthHeader(header);
    var payload :- verify(token);
    var granted :- check(permission, payload);
    f(payload, args)
  }

  /**
   Each stage's exception is passed on unchanged, and when all three pass
   the handler's own outcome, for the payload and the original arguments,
   is returned as it is.
   */
  lemma GuardPropagates<P, A, R, C>(
    permission: string, f: (P, A) -> Outcome<R>, header: Option<string>, args: A,
    verify: string -> Outcome<P>, check: (string, P) -> Outcome<C>)
    ensures var r, e := Guard(permission, f, header, args, verify, check), GetTokenAuthHeader(header);
      && (e.Err? ==> r == Err(e.exc))
      && (e.Ok? && verify(e.value).Err? ==> r == Err(verify(e.value).exc))
      && (e.Ok? && verify(e.value).Ok? && check(permission, verify(e.value).value).Err? ==>
            r == Err(check(permission, verify(e.value).value).exc))
      && (e.Ok? && verify(e.value).Ok? && check(permission, verify(e.value).value).Ok? ==>
            r == f(verify(e.value).value, args))
  {
  }

  /**
   The stages run in order: once one fails, nothing after it has any
   bearing on the outcome, so the later stages and the handler are never
   reached.
   */
  lemma GuardStopsAtFirstFailure<P, A, R, C>(
    permission: string, header: Option<string>, args: A,
    f: (P, A) -> Outcome<R>, verify: string -> Outcome<P>, check: (string, P) -> Outcome<C>,
    f': (P, A) -> Outcome<R>, verify': string -> Outcome<P>, check': (string, P) -> Outcome<C>)
    ensures var e := GetTokenAuthHeader(header);
      e.Err? ==>
        Guard(permission, f, header, args, verify, check) == Guard(permission, f', header, args, verify', check')
    ensures var e := GetTokenAuthHeader(header);
      e.Ok? && verify(e.value).Err? ==>
        Guard(permission, f, header, args, verify, check) == Guard(permission, f', header, args, verify, check')
    ensures var e := GetTokenAuthHeader(header);
      e.Ok? && verify(e.value).Ok? && check(permission, verify(e.value).value).Err? ==>
        Guard(permission, f, header, args, verify, check) == Guard(permission, f', header, args, verify, check)
  {
  }

  /** `requires_auth(permission)(f)` as the source wires it, with the two stubs as its stages. */
  function RequiresAuth<P, A, R>(permission: string, f: (P, A) -> Outcome<R>, header: Option<string>, args: A): (r: Outcome<R>)
    ensures r.Err?
  {
    Guard(permission, f, header, args,
          (token: string) => VerifyDecodeJwt<P>(token),
          (p: string, payload: P) => CheckPermissions<P>(p, payload))
  }

  /**
   With the stubs in place no request reaches the handler: the outcome is
   the header parser's exception, or else the decoder's `Not Implemented`,
   whatever the handler and the required permission are.
   */
  lemma {:induction false} RequiresAuthNeverRunsHandler<P, A, R>(
    permission: string, f: (P, A) -> Outcome<R>, header: Option<string>, args: A,
    permission': string, f': (P, A) -> Outcome<R>)
    ensures var r, e := RequiresAuth(permission, f, header, args), GetTokenAuthHeader(header);
      && (e.Err? ==> r == Err(e.exc))
      && (e.Ok? ==> r == Err(NOT_IMPLEMENTED))
    ensures RequiresAuth(permission, f, header, args) == RequiresAuth(permission', f', header, args)
  {
    var verify := (token: string) => VerifyDecodeJwt<P>(token);
    var check := (p: string, payload: P) => CheckPermissions<P>(p, payload);
    GuardPropagates(permission, f, header, args, verify, check);
    GuardPropagates(permission', f', header, args, verify, check);
  }

  /** A request without an `Authorization` header is refused with 401 before anything else runs. */
  lemma NoHeaderRefused<P, A, R>(permission: string, f: (P, A) -> Outcome<R>, args: A)
    ensures RequiresAuth(permission, f, None, args) == Err(MISSING_HEADER)
  {
  }
}

# Coffee shop auth layer: bearer-token extraction and the `requires_auth` guard

This project models, in Dafny, the part of the coffee shop backend's auth
layer (`backend/src/auth/auth.py`) that has code behind it:

- `get_token_auth_header()`, which reads the request's `Authorization`
  header, splits it on whitespace, checks that the first part is `Bearer`
  in any letter case and that exactly one part follows, and returns that
  part as the token. A missing header raises `AuthError` with the bare
  message "Authorization missing" and status 401; a malformed, incomplete or
  over-long header raises `AuthError` with a code, a description and status
  401; a header that is present but empty or all whitespace raises
  `IndexError`;
- `verify_decode_jwt(token)` and `check_permissions(permission, payload)`,
  which are still stubs that raise `Exception('Not Implemented')`;
- `requires_auth(permission)`, the decorator that runs those three stages in
  order in front of a route handler and passes the decoded payload to the
  handler as its first argument.

Two modules:

- `PyStr` (`pystr.dfy`) models the two Python string operations the parser
  uses. `Split` is `str.split()` with no arguments: the maximal runs of
  non-whitespace characters, with Python's whitespace set (`str.isspace`).
  `Lower` is `str.lower()` on ASCII letters. `Split` is paired with `Join`,
  which writes words back with whitespace gaps between them. Both
  directions of that round trip are proved.
- `Auth` (`auth.dfy`) models `auth.py`. Python exceptions become the `Err`
  case of an `Outcome` datatype, with three kinds: `AuthError(error,
  statusCode)`, `IndexError` and `PlainException(message)`. The `:-`
  operator propagates an `Err` the way an uncaught `raise` leaves a Python
  function. An `AuthError`'s `error` is either a bare message or a code
  with a description, because the source raises both shapes. The request is
  replaced by its `Authorization` header value, `None` when there is none.
  The decorator and its wrapper are flattened into one function of the
  permission, the handler, the header and the handler's other arguments.

How the code handles a header that is present but empty or all whitespace:
`split()` returns an empty list, and `parts[0]` then raises `IndexError`,
not an `AuthError`. The model keeps this crash as its own outcome and
proves exactly when it happens.

## Model

| member | source | states |
|---|---|---|
| `PyStr.Split` | Project/03_coffee_shop_full_stack/starter_code/backend/src/auth/auth.py:45 | every part `split()` returns is non-empty and free of whitespace |
| `PyStr.SplitEmptyIffAllSpace` | Project/03_coffee_shop_full_stack/starter_code/backend/src/auth/auth.py:45 | `split()` returns no parts exactly when the string is empty or all whitespace |
| `PyStr.SplitSkipsSpace` | Project/03_coffee_shop_full_stack/starter_code/backend/src/auth/auth.py:45 | leading whitespace does not change the split |
| `PyStr.SplitJoin` | Project/03_coffee_shop_full_stack/starter_code/backend/src/auth/auth.py:45 | words joined by non-empty whitespace gaps (outer gaps may be empty) split back into exactly those words |
| `PyStr.SplitSeparated` | Project/03_coffee_shop_full_stack/starter_code/backend/src/auth/auth.py:45 | the parts of any string, with the string's own whitespace runs as gaps, are well separated: words, whitespace-only gaps, and non-empty inner gaps |
| `PyStr.JoinGapsSplit` | Project/03_coffee_shop_full_stack/starter_code/backend/src/auth/auth.py:45 | joining the parts with the string's own whitespace runs gives back the string, so splitting loses only whitespace |
| `PyStr.Lower` | Project/03_coffee_shop_full_stack/starter_code/backend/src/auth/auth.py:48 | lower-casing keeps the length, turns each ASCII upper-case letter into its lower-case letter (code point + 32), leaves no ASCII upper-case letter, and leaves every other character unchanged |
| `Auth.LowerIsBearer` | Project/03_coffee_shop_full_stack/starter_code/backend/src/auth/auth.py:48 | `w.lower() == 'bearer'` holds exactly when `w` is "bearer" in some mix of upper and lower case |
| `Auth.GetTokenAuthHeader` | Project/03_coffee_shop_full_stack/starter_code/backend/src/auth/auth.py:34-70 | a returned token is non-empty and has no whitespace; every failure is either `IndexError` or an `AuthError` with status 401 |
| `Auth.AuthErrorShape` | Project/03_coffee_shop_full_stack/starter_code/backend/src/auth/auth.py:16-19 | `AuthError(error, status_code)` keeps both as raised: its `error` is a bare message exactly when the header is missing and a code with a description otherwise, and its status code is 401 |
| `Auth.MissingIffNoHeader` | Project/03_coffee_shop_full_stack/starter_code/backend/src/auth/auth.py:40-41 | `AuthError("Authorization missing", 401)` is raised exactly when there is no header |
| `Auth.CrashIffBlank` | Project/03_coffee_shop_full_stack/starter_code/backend/src/auth/auth.py:45-48 | `IndexError` escapes exactly when the header is present but empty or all whitespace |
| `Auth.MalformedIffNotBearer` | Project/03_coffee_shop_full_stack/starter_code/backend/src/auth/auth.py:48-52 | "Malformed header" (401) exactly when the first part is not "bearer" in any case, whatever the number of parts |
| `Auth.IncompleteIffBearerAlone` | Project/03_coffee_shop_full_stack/starter_code/backend/src/auth/auth.py:55-59 | "Invalid header" / "Header incomplete." (401) exactly when the only part is "bearer" in some case |
| `Auth.ExcessIffTooManyParts` | Project/03_coffee_shop_full_stack/starter_code/backend/src/auth/auth.py:62-66 | "Invalid header" / "...excess parts." (401) exactly when "bearer" in some case is followed by two or more parts |
| `Auth.OkIffBearerAndToken` | Project/03_coffee_shop_full_stack/starter_code/backend/src/auth/auth.py:45-70 | a token is returned exactly when there are two parts and the first is "bearer" in some case; the token is the second part |
| `Auth.SchemeCheckedFirst` | Project/03_coffee_shop_full_stack/starter_code/backend/src/auth/auth.py:48-59 | a header whose first word is not "bearer" is malformed even when that word stands alone: the scheme test precedes the part counts |
| `Auth.ExtractRoundTrip` | Project/03_coffee_shop_full_stack/starter_code/backend/src/auth/auth.py:45-70 | optional whitespace, "Bearer" in any case, non-empty whitespace, a whitespace-free token, optional whitespace: exactly that token is returned |
| `Auth.ExtractOkShape` | Project/03_coffee_shop_full_stack/starter_code/backend/src/auth/auth.py:45-70 | converse of the round trip: any header that yields a token is optional whitespace, "bearer" in some case, non-empty whitespace, the token, optional whitespace |
| `Auth.BearerAloneIncomplete` | Project/03_coffee_shop_full_stack/starter_code/backend/src/auth/auth.py:55-59 | "Bearer" in any case with only whitespace around it is reported as incomplete |
| `Auth.BearerWithExtraPart` | Project/03_coffee_shop_full_stack/starter_code/backend/src/auth/auth.py:62-66 | "Bearer a b" (any case, any whitespace separators, any two words) is reported as having excess parts |
| `Auth.BlankHeaderExample` | Project/03_coffee_shop_full_stack/starter_code/backend/src/auth/auth.py:45-48 | the headers `""` and `" \t"` raise `IndexError` |
| `Auth.TokenExample` | Project/03_coffee_shop_full_stack/starter_code/backend/src/auth/auth.py:45-70 | the header `" bEaReR\t\tabc "` yields the token `"abc"` |
| `Auth.CheckPermissions` | Project/03_coffee_shop_full_stack/starter_code/backend/src/auth/auth.py:86-87 | always raises `Exception('Not Implemented')`, never grants |
| `Auth.VerifyDecodeJwt` | Project/03_coffee_shop_full_stack/starter_code/backend/src/auth/auth.py:105-106 | always raises `Exception('Not Implemented')`, never yields a payload |
| `Auth.Guard` | Project/03_coffee_shop_full_stack/starter_code/backend/src/auth/auth.py:121-132 | the wrapper succeeds only if extraction, decoding and the permission check all succeeded first |
| `Auth.GuardPropagates` | Project/03_coffee_shop_full_stack/starter_code/backend/src/auth/auth.py:124-128 | the first failing stage's exception is returned unchanged; when all pass, the handler's outcome for (payload, original arguments) is returned as it is |
| `Auth.GuardStopsAtFirstFailure` | Project/03_coffee_shop_full_stack/starter_code/backend/src/auth/auth.py:124-128 | after a stage fails, swapping the later stages or the handler for any others does not change the outcome: they are never reached |
| `Auth.RequiresAuth` | Project/03_coffee_shop_full_stack/starter_code/backend/src/auth/auth.py:121-132 | with the stubs as stages, every request fails |
| `Auth.RequiresAuthNeverRunsHandler` | Project/03_coffee_shop_full_stack/starter_code/backend/src/auth/auth.py:125-126 | with the stubs, the outcome is the header parser's exception, or else `Not Implemented`, and it does not depend on the handler or the required permission |
| `Auth.NoHeaderRefused` | Project/03_coffee_shop_full_stack/starter_code/backend/src/auth/auth.py:40-41 | a request without an `Authorization` header is refused with "Authorization missing" and status 401 |

## Left out

- Flask's `request` global and its case-insensitive header lookup. The header value is an explicit `Option<string>` input.
- `PyStr.Lower`: models only the ASCII letters of Python's Unicode `str.lower()`. Its one use is the comparison with "bearer". No character outside ASCII lower-cases to one of that word's letters, so the comparison comes out the same as in Python.
- Decoding and verifying the JWT, fetching the JWKS, RS256 signatures, claim checks and permission membership. `verify_decode_jwt` and `check_permissions` are stubs in this code, and only the stubs are modelled.
- The configuration constants `AUTH0_DOMAIN`, `ALGORITHMS` and `API_AUDIENCE` are declared with their values, but no implemented code reads them, so nothing is stated about them.
- The route handlers and error handlers in `api.py`, including how Flask turns an `AuthError` into a JSON response and an uncaught exception into a 500. That is framework and database I/O.
- `functools.wraps` (copying the handler's name and docstring), and the currying of `requires_auth(permission)(f)(*args, **kwargs)`. The model takes all four inputs at once, and has no default for `permission=''`: a caller that relies on the default passes `""` itself. One type parameter stands for `*args` and `**kwargs` together.
- The handler's own side effects. The model represents them by its outcome; "not reached" is stated as "the outcome does not depend on it".

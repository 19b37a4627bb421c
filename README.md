# Login, lockout, session gate and profile validation of the OWASP-TOP-TEN backend, in Dafny

This project models the request handlers of an Express/PostgreSQL web backend
and proves what they do to the database and what they answer.

- **`/login`.** Each login checks the account lock, then the failed-attempt
  counter, then the password. Three recent failures lock the account for
  fifteen minutes.
- **`/logout` and `/register`.** Logout deletes a session row. Registration
  inserts a user and gives it the member role.
- **Session middleware.** Every non-public request passes a check: it decodes
  the `main_session` cookie and looks up a live session row whose owner is the
  claimed user.
- **`/metrics` guard.** HTTP Basic authentication protects the metrics counters.
- **Profile update.** `POST /users/:id` validates the body field by field with
  anchored regular expressions, then updates the user and profile rows.
- **Admin guard.** `GET /users` is guarded by the session's role.
- **`/authors` proxy.** It sends its request only to a URL whose host is one
  of two allow-listed hosts, and maps the upstream outcome to a status code.

The database is a value `Store.Db`. Each table is a map keyed by its primary key:
- `users`, `login_attempts` and `sessions`;
- `user_roles`, `roles` and `profiles`;
- the serial counter behind `users.id`.

`Store.Database` is a class that holds the same tables as fields. The handlers
that write (`Auth.Login`, `Auth.Logout`, `Auth.Register` and
`Profiles.UpdateProfile`) are methods on a `Database`. They step through the
SQL statements of the source in order. Each is proved to leave exactly the
tables, and give exactly the reply, of a pure function: `Auth.LoginSpec`,
`Auth.LogoutSpec`, `Auth.RegisterSpec` or `Profiles.UpdateProfileSpec`.

The session middleware only reads. It is the method `Gate.Authenticate`, proved
equal to `Gate.SessionCheck`. The properties are lemmas about these functions.

Some code is outside the model. It enters only as function parameters:
- the SHA-256/base64 hash of a password;
- the JSON and base64 encoding and decoding of the cookie (decoding is `None`
  when `JSON.parse` throws);
- the base64 decoding of the Basic token;
- the uuid of a new session;
- the hostname given by the WHATWG URL parser (`None` when `new URL` throws);
- the outcome of the upstream GET.

The clock is a parameter `now`, in milliseconds.

The profile validators are written twice:
- as the regular expressions of the source, stated as `Regex.Regex` values with
  a whole-string matching semantics `Regex.Matches`;
- as closed-form checks (`Profiles.IsHandle`, `IsWebsite`, `IsEmail`,
  `IsPhone`), proved to accept exactly the strings their pattern matches.

`\s` is the exact ECMAScript set: WhiteSpace with the Zs category, plus
LineTerminator.

Some consequences of the code as written, each stated by a member below:
- A successful login inserts no `sessions` row, so the session gate refuses
  the cookie it issues (`Flows.LoginCookieRefusedByGate`).
- Logout reads `sessionId`, which the login cookie (`{ sid, userId, role }`)
  does not carry, so logout refuses that cookie with 400
  (`AuthProperties.LogoutRefusesLoginCookie`).
- The cookie is cleared only when logout succeeds.
- The middleware sets `req.session` to `{ userId }` with no role, so the
  admin guard of `GET /users` refuses every request the middleware lets
  through (`Flows.AdminListingUnreachable`).
- Failed attempts are counted by username only, and only for a username the
  user join does not find: wrong passwords for an existing account are never
  counted (`AuthProperties.KnownAccountNeverLockedOut`).
- A successful login does not reset the counter.
- A duplicate username at registration is answered 500, and the id sequence
  still moves on (`AuthProperties.RegisterTakenUsernameFails`).

## Model

| member | source | states |
|---|---|---|
| Strings.Includes | backend/index.js:84 | `s.includes(sub)` holds exactly when `sub` occurs in `s` at some index |
| Strings.Split | backend/index.js:57-59 | `split` on one character gives at least one piece, none containing the separator, and joining the pieces gives back the string |
| Strings.SplitJoin | backend/index.js:59 | splitting the join of separator-free pieces gives the pieces back |
| Strings.SplitAtFirst | backend/index.js:59 | splitting at the first separator: `None` exactly when there is none, otherwise a separator-free head, the separator, and the rest |
| Json.Prop | backend/index.js:108 | a property read yields something other than `undefined` only on an object that has that own field |
| Json.SessionObject | backend/auth/index.js:128-132 | the cookie object has `sid`, `userId` and `role` as given and no `sessionId` |
| Store.FindUser | backend/auth/index.js:26-30 | the lookup by username returns the id of the row with that name, and returns nothing exactly when no row has it |
| Store.Database.constructor | backend/auth/index.js:21-22 | a connection whose tables are the given consistent store |
| Auth.CeilSeconds | backend/auth/index.js:38 | `Math.ceil(ms / 1000)`: the least whole number of seconds covering `ms` |
| Auth.SetLock | backend/auth/index.js:48-52 | the lock update touches only the lock fields of the one found user and keeps the accounts consistent |
| Auth.ClearExpiredLock | backend/auth/index.js:46-53 | lifting an expired lock changes only lock fields and no counter |
| Auth.ResetStaleCounter | backend/auth/index.js:86-93 | the counter reset changes only `login_attempts` |
| Auth.RecordFailure | backend/auth/index.js:107-112 | the upsert creates the counter of `name` with 1 or raises it by exactly 1, stamps it now, and leaves every other counter as it was |
| Auth.JoinedRole | backend/auth/index.js:97-103 | the role the `users ⋈ user_roles ⋈ roles` join yields for the found id, none when the join is empty; its two outcomes are stated by `AuthProperties.UnknownUsernameCounted` and `AuthProperties.KnownUserCounterUntouched` |
| Auth.CheckCredentials | backend/auth/index.js:96-124 | the lookup-and-compare step changes at most `login_attempts` |
| Auth.LoginSpec | backend/auth/index.js:9-150 | login changes only the `users` lock fields and `login_attempts`; usernames, passwords, sessions, roles and profiles stay |
| Auth.Login | backend/auth/index.js:9-150 | the handler keeps the store consistent and leaves exactly the tables and reply of `LoginSpec` |
| Auth.UnlockIfExpired | backend/auth/index.js:47-53 | the unlock UPDATE clears `is_locked` and `unlock_time` of an expired lock and nothing else |
| Auth.CheckCounter | backend/auth/index.js:56-94 | the counter step locks on recent failures and otherwise resets a stale counter, leaving exactly the tables of `SetLock` or `ResetStaleCounter` |
| Auth.LookUpAndCompare | backend/auth/index.js:96-145 | the join, the failure upsert and the password comparison, as `CheckCredentials` |
| Auth.DeleteSession | backend/auth/index.js:172-174 | the DELETE removes exactly the row of a string id and keeps every other row |
| Auth.LogoutSpec | backend/auth/index.js:151-187 | logout changes only `sessions`, and changes nothing unless it answers 200 |
| Auth.Logout | backend/auth/index.js:151-187 | the handler leaves exactly the tables and reply of `LogoutSpec` |
| Auth.RegisterSpec | backend/auth/index.js:190-243 | registration keeps the store consistent and changes only `users`, `user_roles` and the id sequence; missing fields (400) change nothing, and every other request, failed or not, draws exactly one value from the id sequence |
| Auth.Register | backend/auth/index.js:190-243 | the handler keeps the store consistent and leaves exactly the tables and reply of `RegisterSpec` |
| AuthProperties.LoginRejectsMissingFields | backend/auth/index.js:13-16 | a missing or empty username or password is answered 400 and nothing changes |
| AuthProperties.LockedAccountRefused | backend/auth/index.js:32-44 | during a lock every password is answered 429 with `timeRemaining` = ceil((unlock − now)/1000) > 0, and nothing changes |
| AuthProperties.ExpiredLockLifted | backend/auth/index.js:46-53 | an expired lock is cleared before any other check; only recent failures lock the account again at once, for the full period |
| AuthProperties.LockWithoutUnlockTimeIgnored | backend/auth/index.js:37 | `is_locked` without `unlock_time` blocks nothing: the right password logs in and the flag stays |
| AuthProperties.RecentFailuresLockAccount | backend/auth/index.js:63-84 | three or more failures within 15 minutes lock the account until now + 15 min, answer 429 with 900 s, and leave the counter and every other user as they were |
| AuthProperties.StaleCounterReset | backend/auth/index.js:86-93 | a counter older than 15 minutes restarts at 0 stamped now, plus 1 exactly when the user join finds no row for the name |
| AuthProperties.UnknownUsernameCounted | backend/auth/index.js:104-115 | an unknown username is answered 401 and its counter is created with 1 or raised by exactly 1, stamped now |
| AuthProperties.KnownUserCounterUntouched | backend/auth/index.js:117-145 | for a known user a wrong password is answered 401 without counting, and the right one returns the `{ sid, userId, role }` cookie, with no session row written |
| AuthProperties.LoginSeries | backend/auth/index.js:9-150 | a series of logins keeps the store consistent and gives one reply per attempt |
| AuthProperties.GuessableStep | backend/auth/index.js:117-123 | one login of any password against an existing, unlocked account with a role and fewer than three recorded failures is never answered 429 and leaves the account in that state |
| AuthProperties.KnownAccountNeverLockedOut | backend/auth/index.js:117-123 | no number of wrong passwords against such an account is ever answered 429, because they are never counted |
| AuthProperties.UnknownUsernameLockedOnFourthTry | backend/auth/index.js:57-114 | three failures with an unknown username, each within 15 minutes of the previous one, are answered 401, 401, 401, and the fourth 429 with 900 s |
| AuthProperties.LogoutWithoutCookie | backend/auth/index.js:154-157 | no cookie is answered 400 and nothing changes |
| AuthProperties.LogoutDeletesThatSession | backend/auth/index.js:159-182 | a decoded string `sessionId` deletes exactly that row and is answered 200, even when no such row exists |
| AuthProperties.LogoutRefusesLoginCookie | backend/auth/index.js:161-166 | the cookie that login issues has no `sessionId`: logout answers 400 and deletes nothing |
| AuthProperties.LogoutDecodeFails | backend/auth/index.js:159-161 | a cookie that does not decode, or decodes to `null`, makes the handler throw: 500 and nothing changes |
| AuthProperties.LogoutNoSessionId | backend/auth/index.js:161-166 | any decoded value without a truthy `sessionId` is answered 400 and nothing changes |
| AuthProperties.LogoutIdempotent | backend/auth/index.js:172-174 | logging out twice with the same cookie leaves the same tables as once |
| AuthProperties.RegisterRejectsMissingFields | backend/auth/index.js:193-197 | a missing or empty field is answered 400 and nothing is inserted |
| AuthProperties.RegisterTakenUsernameFails | backend/auth/index.js:207-214 | a taken username makes the insert fail: 500, no row is inserted, and only the id sequence has moved on by the value the failed insert drew |
| AuthProperties.RegisterInsertsUserAndRole | backend/auth/index.js:207-237 | a free username gets exactly one new unlocked `users` row holding hash(password) and one `user_roles` row with role 2, and the reply is 200 |
| Gate.IsPublicPath | backend/index.js:82-85 | the four exact public paths and containment of `/courses` or `/authors`; described by `Gate.RegisterIsNotPublic` and `Gate.ContainingPublicSegmentIsPublic` |
| Gate.SessionCheck | backend/index.js:87-152 | a request is let through with no session exactly on a public path; a session it sets never has a role |
| Gate.Authenticate | backend/index.js:87-152 | the middleware only reads the store, and decides as `SessionCheck` |
| Gate.RegisterIsNotPublic | backend/index.js:82-85 | `/register` is not public, while `/users/authors` is |
| Gate.ContainingPublicSegmentIsPublic | backend/index.js:82-85 | any path containing `/courses` or `/authors` is public |
| Gate.PublicPathSkipsCookie | backend/index.js:92-95 | a public path passes whatever the cookie is |
| Gate.MissingCookieUnauthorized | backend/index.js:100-103 | a non-public path without the cookie is answered 401 |
| Gate.UndecodableCookieFails | backend/index.js:105-151 | a cookie that does not decode, or decodes to `null`, is answered 500 |
| Gate.FalsyTokenFieldUnauthorized | backend/index.js:108-115 | a falsy `sid` or `userId` is answered 401 |
| Gate.AcceptedIff | backend/index.js:121-146 | a non-public request passes with session `s` exactly when its token names a live session whose owner strictly equals the token's `userId`, and `s` holds that id |
| Metrics.CredentialsMatch | backend/index.js:59-60 | the pieces of `credentials.split(':')` compared with `===` to the configured pair; described in both directions by `Metrics.CredentialsMatchIff` |
| Metrics.MetricsAuth | backend/index.js:55-70 | access is granted only with a header containing `Basic` and a configured user |
| Metrics.CredentialsMatchIff | backend/index.js:59-60 | accepted credentials are exactly `u` with no password configured; otherwise `u:p`, or `u:p:` followed by anything; neither `u` nor `p` may contain a colon |
| Metrics.ColonPasswordNeverGranted | backend/index.js:59-60 | a configured password containing a colon can never be matched |
| Metrics.MissingBasicDenied | backend/index.js:56 | a header that is absent or lacks `Basic` is answered 401 |
| Metrics.Rfc7617Departure | backend/index.js:59 | section 2 of RFC 7617 splits at the first colon, but the guard refuses `u:p` whenever `p` contains a colon |
| Metrics.UnsetPasswordAcceptsBareUser | backend/index.js:59-60 | with no password configured, the bare user name is accepted |
| Authors.IsWhitelisted | backend/authors/index.js:7-14 | the hostname of the parsed URL is one of the two listed hosts, and nothing passes when parsing throws; described by `Authors.UnparsableNotWhitelisted` and `Authors.LongerHostRejected` |
| Authors.AuthorsHandler | backend/authors/index.js:18-63 | an upstream request is made exactly when the datasource is present and allow-listed, and the first request goes only to that URL |
| Authors.UnparsableNotWhitelisted | backend/authors/index.js:7-14 | a string the URL parser rejects is not allow-listed |
| Authors.LongerHostRejected | backend/authors/index.js:5-10 | a host with anything before an allow-listed name, such as `www.dummyjson.com`, is rejected |
| Authors.MissingDatasourceRejected | backend/authors/index.js:22-25 | a missing or empty datasource is answered 400 and nothing is fetched |
| Authors.ForbiddenDatasourceRejected | backend/authors/index.js:30-33 | a datasource that is not allow-listed is answered 403 and nothing is fetched |
| Authors.UpstreamOutcomeMapped | backend/authors/index.js:35-62 | a response is relayed with 200, an upstream error keeps its status, no response gives 504 and any other failure 500 |
| Regex.CatText | backend/users/index.js:16 | literal text followed by a pattern matches exactly the strings that start with the text and continue with a match |
| Regex.CatOpt | backend/users/index.js:16 | `a?b` matches exactly what `b` or `ab` matches |
| Regex.RepClassMeaning | backend/users/index.js:10 | `[c]{lo,hi}` matches exactly the strings of lo to hi characters of the class |
| Regex.StarClassMeaning | backend/users/index.js:16 | `[c]*` matches exactly the strings made of characters of the class |
| Regex.PlusClassMeaning | backend/users/index.js:30 | `[c]+` matches exactly the non-empty strings made of characters of the class |
| Regex.CatPlusThenChar | backend/users/index.js:30 | `[c]+` then a character then `x` splits at an occurrence of that character preceded only by class characters |
| Profiles.IsHandle | backend/users/index.js:10-11 | the closed-form username check accepts exactly what `^[a-zA-Z0-9\-]{1,30}$` matches |
| Profiles.LinkedInHostMeaning | backend/users/index.js:16 | `(www\.)?linkedin\.com\/.*` matches exactly `www.linkedin.com/` or `linkedin.com/` followed by text without line terminators |
| Profiles.LinkedInUrlMeaning | backend/users/index.js:16 | the URL alternative matches exactly `http://` or `https://` followed by such a host and path |
| Profiles.IsWebsite | backend/users/index.js:16-17 | the closed-form website check accepts exactly what the LinkedIn pattern matches |
| Profiles.DomainMeaning | backend/users/index.js:30 | the domain part matches exactly whitespace- and `@`-free text with a `.` that is neither first nor last |
| Profiles.EmailMeaning | backend/users/index.js:30 | an email matches exactly a non-empty whitespace- and `@`-free local part, an `@`, and such a domain |
| Profiles.IsEmail | backend/users/index.js:30-31 | the closed-form email check accepts exactly what `^[^\s@]+@[^\s@]+\.[^\s@]+$` matches |
| Profiles.PhoneMeaning | backend/users/index.js:36 | the phone pattern matches exactly 10 to 15 digits, optionally after one `+` |
| Profiles.IsPhone | backend/users/index.js:36-37 | the closed-form phone check accepts exactly what `^\+?[0-9]{10,15}$` matches |
| Profiles.Rejects | backend/users/index.js:11-44 | the test each field's `if` makes before adding its key to `errors`; related to the regular expressions by `Profiles.RejectsMeaning` |
| Profiles.RejectsMeaning | backend/users/index.js:6-47 | the per-field checks `validateInput` makes (including its redundant `length < 1` tests) reject exactly the fields whose rule, stated with the regular expressions, is broken |
| Profiles.ValidateInput | backend/users/index.js:6-47 | the returned keys are exactly the fields that break their rule: required username, website and email matching their patterns, required names of at most 100 characters, optional phone matching its pattern, optional bio of at most 500 |
| Profiles.UpdateProfileSpec | backend/users/index.js:49-88 | invalid input is answered 400; a 200 needs an id inside PostgreSQL's `integer` range; only a 200 changes anything, and then only the `users` and `profiles` rows of that id; the store stays consistent |
| Profiles.UpdateProfile | backend/users/index.js:49-88 | the handler keeps the store consistent and leaves exactly the tables and reply of `UpdateProfileSpec` |
| ProfileProperties.UsernamePattern | backend/users/index.js:10 | the username pattern accepts exactly 1 to 30 ASCII letters, digits and hyphens |
| ProfileProperties.UsernameIsWebsite | backend/users/index.js:16 | every valid username is also a valid website |
| ProfileProperties.ValidatedUsernameIsPlain | backend/users/index.js:194-201 | a username that passes validation holds no quote, semicolon or space, so the second handler's string-built UPDATE cannot be broken out of |
| ProfileProperties.WebsiteWithSlashIsUrl | backend/users/index.js:16 | a valid website containing `/` is a LinkedIn URL, whose host is exactly `linkedin.com` or `www.linkedin.com` |
| ProfileProperties.NotSpaceOrAtMeaning | backend/users/index.js:30 | `[^\s@]` holds exactly the characters that are neither `@` nor whitespace |
| ProfileProperties.EmailShape | backend/users/index.js:30 | a valid email has exactly one `@`, not first, and no whitespace |
| ProfileProperties.NameLimitIsHundred | backend/users/index.js:22-27 | a present name is rejected exactly when it is longer than 100 characters, though the message says 50 |
| ProfileProperties.PhoneAndBioOptional | backend/users/index.js:36-44 | an absent or empty phone or bio never fails |
| ProfileProperties.RequiredFieldsMissing | backend/users/index.js:11-33 | a missing username, website, first name, last name or email always fails |
| ProfileProperties.InvalidInputChangesNothing | backend/users/index.js:53-57 | any validation error is answered 400 with exactly those keys, and nothing changes |
| ProfileProperties.ValidUpdateRewritesThatUser | backend/users/index.js:59-82 | valid input for an existing user rewrites that user's username and profile row, keeps its password and lock fields, and is answered 200 |
| ProfileProperties.UnusableIdFails | backend/users/index.js:50-70 | a `NaN` id, or one outside PostgreSQL's `integer` range, makes the first UPDATE fail even for valid input: 500 and nothing changes |
| ProfileProperties.TakenUsernameRefused | backend/users/index.js:65-87 | renaming to another user's username violates the unique constraint: 500 and nothing changes |
| ProfileProperties.UpdateIdempotent | backend/users/index.js:59-82 | sending the same update twice leaves the same tables as once |
| Flows.RegisterThenLogin | backend/auth/index.js:190-243 | after registering a free username, logging in with the same password succeeds with the new id and the member role in the cookie, and a password whose hash differs is answered 401 |
| Flows.LoginCookieRefusedByGate | backend/auth/index.js:126-145 | login writes no session row, so its cookie is refused with 401 on every non-public path unless a row for the fresh `sid` already existed |
| Flows.LogoutThenReplayRefused | backend/auth/index.js:172-174 | after a successful logout whose `sessionId` equals the cookie's `sid`, replaying the cookie is answered 401 |
| Flows.AdminListingUnreachable | backend/users/index.js:92-96 | the middleware never sets a role, so every request it lets through to `GET /users` is answered 401 |

## Left out

- Database failures, and the 500 they cause, are not modelled, except where the model can name the cause. Those causes are:
  - a duplicate username;
  - an id of 0 returned by the insert;
  - a `NaN` user id, or one outside PostgreSQL's `integer` range;
  - an undecodable cookie.

  A failed connection or query, and the partial writes of a handler that fails halfway, are not.
- Concurrency: each request runs alone against the store. Interleaved requests and races between the SELECT and the UPDATE of a login are not modelled.
- Foreign code is not modelled; it enters as function parameters:
  - SHA-256 and base64;
  - JSON and base64 cookie encoding;
  - `Buffer` base64 decoding;
  - the uuid generator;
  - the WHATWG URL parser;
  - axios.
- The clock is a parameter `now`: one instant per request. The separate `new Date()` readings of the login handler (backend/auth/index.js:34 and :66) are the same instant, and the database clock (`NOW()`, `expires_at > NOW()`) equals the JavaScript clock.
- JavaScript numbers are integers (`Json.JsValue.Num`). Floating-point ids and times are not modelled.
- A `sid` or `sessionId` that is truthy but not a string is taken to match no `sessions` row. PostgreSQL might instead coerce it or reject it.
- Each user has at most one role (`user_roles` as a map). The login join reads only its first row.
- `users.username` is unique: the schema's constraint is assumed. An update that would break it is answered 500 and changes nothing; an insert that would break it is answered 500 and only advances the id sequence.
- `users.id` and `profiles.user_id` are assumed to be PostgreSQL `integer` columns (`SERIAL`), since the schema is not part of this model. The id sequence is unbounded: running out of `integer` values is not modelled.
- The metric counters (`httpRequestsTotal.inc`), logging, cookie options and `res.clearCookie` are not modelled.
- Express routing is not modelled. `POST /users/:id` is modelled by its first handler, because the second one (backend/users/index.js:176-229) is never reached. `ProfileProperties.ValidatedUsernameIsPlain` states why the second handler's string-built SQL would not be injectable anyway.
- `parseInt` of the path parameter is a parameter `Option<int>`: `None` stands for `NaN`. PostgreSQL refuses `NaN` and any number outside its `integer` range (500); both are modelled. The text form JavaScript gives a very large number (`1e+21`) is not, since it is out of range either way.
- Request body fields are optional strings. A field that is not a string (a number, an array) is not modelled. A `datasource` query parameter given twice becomes an array; that case is not modelled either.
- String lengths count code points, not the UTF-16 code units of JavaScript's `length`.
- Regex.Matches: each iteration of `*` and `{lo,hi}` consumes at least one character. This equals ECMAScript only for bodies that cannot match the empty string, which is true of every pattern here.
- The `SELECT` handlers for `GET /users/:id`, payments and courses, the `INSERT` of payments, and the joined rows returned by `GET /users` are not modelled. They have no logic beyond the query.
- The unused `toJSON` helper (backend/index.js:36-42) is not modelled.
- Profiles.UpdateProfileSpec: the profile UPDATE itself is assumed never to fail, since column types and limits of `profiles` are not part of this model.
- Authors.AuthorsHandler: the redirects that `axios.get` follows (up to five by default) are neither checked against the allow-list nor modelled; an allow-listed host that redirects makes the proxy fetch from a host outside the list. Only the first request is proved to go to the allow-listed URL.

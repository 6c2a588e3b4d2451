# ApniSec backend core in Dafny

This project models the request-handling core of the ApniSec backend. ApniSec is an Express/TypeScript CRUD service for security issues and user profiles. The model covers:

- **Rate limiter** (`RateLimiting`). A fixed-window limiter keyed by `user:<id>` or `ip:<address>`. It is a class holding a `map` from key to `{count, resetTime}`. The middleware step and the periodic sweep are modelled as methods, each proved equal to a pure specification (`Step`, `Sweep`). The window behaviour follows from lemmas about those specifications.
- **Owner-scoped stores** (`IssueRepo`, `UserRepo`). The `issues`, `users` and `user_profiles` tables are `seq` fields of repository classes, together with their auto-increment counters. Every statement is a method or a reading function:
  - owner-filtered selects, ordered newest first;
  - inserts with defaults;
  - read-merge-write updates where `x || existing.x` means a field can never be cleared;
  - the profile upsert;
  - the owner-filtered delete.
- **Services** (`IssueServices`, `UserServices`, `AuthServices`). These are the ordered guard chains, modelled as pure functions returning the first error. Around them sit the stateful operations, which write nothing when a guard fails. Password hashing, hash comparison and token signing are function parameters (`AuthServices.Crypto`).
- **Middleware** (`AuthMiddleware`, `ErrorHandling`).
  - Bearer-header parsing uses the scheme of section 2.1 of RFC 6750. The code matches the `"Bearer "` prefix case-sensitively, which is stricter than the case-insensitive scheme names of section 2.1 of RFC 7235.
  - On success the middleware writes `req.user`.
  - Error classification maps errors to status codes and `{success: false, error}` bodies. Rate limiting answers 429, from section 4 of RFC 6585.
- **Validators** (`Validation`, `IssueValidation`, `UserValidation`, `AuthValidation`). The `express-validator` chains are message lists over optional string fields:
  - a missing field reads as `""`;
  - `.optional()` skips only a missing field;
  - chains do not bail, so every failing check adds its message;
  - the `trim()` sanitizer rewrites the value the handler receives.

  `handleValidationErrors` joins the messages with `", "`. Lemmas relate each validator to the service checks behind it.

Modules: `Wrappers` (Option, Result, Outcome), `Text` (JavaScript `trim`, `join`, `${n}` and `s.length`), `Entities` (rows, enumerations, truthiness), `Errors` (the error classes).

Clocks are `now: int` parameters. Dates are integers (milliseconds or SQL `NOW()`).

Three details of JavaScript are written out explicitly:

- **Length.** JavaScript's `s.length` counts UTF-16 code units (`Text.Utf16Length`). validator.js's `isLength` (release line 13, which express-validator 7 builds on) takes `s.length`, subtracts one per surrogate pair and one per variation selector U+FE0E or U+FE0F, and so counts the characters other than those two (`Text.ValidatorLength`). The two measures agree exactly on texts with neither (`Text.LengthsAgree`).
- **Truthiness.** An empty string is falsy (`Entities.Truthy`), so `x || y` falls back on `""`.
- **Numbers in strings.** `${userId}` renders the integer in decimal (`Text.IntToString`).

Three behaviours of the rate limiter are worth stating, since a reader might expect otherwise:

- **Window expiry.** A window expires only when `resetTime < now` (strict), in both the middleware and the sweep. At `now == resetTime` the old window still counts.
- **Rejected requests.** Inside a live window the count keeps rising on rejected requests.
- **Opening request.** The request that opens a window is never checked against the limit.

backend/src/utils/errors.ts is not part of this model. The model assumes these status codes for its error classes: `ValidationError` 400, `AuthenticationError` 401, `AuthorizationError` 403, `NotFoundError` 404, `RateLimitError` 429, and an `AppError`'s own code.

## Model

| member | source | states |
|---|---|---|
| Text.Trim | backend/src/services/IssueService.ts:26 | `s.trim()` keeps a substring of `s` with no white space at either end (ECMAScript WhiteSpace and LineTerminator). |
| Text.TrimStart | backend/src/services/IssueService.ts:26 | Removes exactly the leading white space: the result is a suffix of `s`, everything dropped is white space, and the result starts with a non-space. |
| Text.TrimEnd | backend/src/services/IssueService.ts:26 | Removes exactly the trailing white space: the result is a prefix of `s`, everything dropped is white space, and the result ends with a non-space. |
| Text.TrimIdempotent | backend/src/validators/IssueValidator.ts:11-13 | Trimming twice equals trimming once, so the sanitized value passes the same `trim` check again. |
| Text.TrimEmptyIffAllSpace | backend/src/services/IssueService.ts:26-32 | `s.trim().length === 0` holds exactly when every character of `s` is white space. |
| Text.SpaceFreeTrimsToItself | backend/src/validators/IssueValidator.ts:11-13 | A text containing no white space is unchanged by `trim`. |
| Text.Utf16Length | backend/src/services/IssueService.ts:34-40 | `s.length` in UTF-16 units lies between the number of characters and twice that number. |
| Text.Utf16LengthOfAstral | backend/src/services/IssueService.ts:34 | A text made only of characters outside the Basic Multilingual Plane has `length` equal to twice its character count. |
| Text.Utf16LengthAppend | backend/src/services/IssueService.ts:34-40 | `length` is additive over concatenation. |
| Text.ValidatorLength | backend/src/validators/IssueValidator.ts:15 | `isLength`'s measure never exceeds the number of characters. |
| Text.ValidatorLengthAtMostUtf16 | backend/src/validators/IssueValidator.ts:15 | `isLength`'s measure never exceeds `s.length`. |
| Text.ValidatorLengthAppend | backend/src/validators/IssueValidator.ts:15 | `isLength`'s measure is additive over concatenation. |
| Text.LengthsAgreeIff | backend/src/services/IssueService.ts:34-40 | `s.length` equals `isLength`'s measure exactly when no character lies outside the Basic Multilingual Plane and none is a variation selector. |
| Text.TrimKeepsLengthsAgree | backend/src/validators/IssueValidator.ts:11-16 | When the two measures agree on a text, they agree on its trim. |
| Text.Join | backend/src/validators/IssueValidator.ts:80 | `join(', ')` of no messages is `""`; of one message it is that message; otherwise it starts with the first message. |
| Text.JoinEmptyIff | backend/src/validators/IssueValidator.ts:79-81 | With non-empty messages, the joined text is empty iff there are no messages. |
| Text.JoinSnoc | backend/src/validators/IssueValidator.ts:80 | Joining one more message appends the separator and that message. |
| Text.NatToString | backend/src/middleware/rateLimiter.ts:27 | The decimal rendering is digits only, at least one of them, and a single digit exactly for numbers below 10. |
| Text.IntToString | backend/src/middleware/rateLimiter.ts:27 | `${n}` is non-empty and starts with `-` exactly for negative numbers. |
| Text.NatToStringInjective | backend/src/middleware/rateLimiter.ts:27 | Different natural numbers render differently. |
| Text.IntToStringInjective | backend/src/middleware/rateLimiter.ts:27 | Different integers render differently, so user keys never collide. |
| Entities.OrElse | backend/src/repositories/IssueRepository.ts:55-59 | `x \|\| fallback` yields `x` when it is a non-empty string and the fallback otherwise. |
| Entities.OrElseNull | backend/src/repositories/UserRepository.ts:71-72 | The same for a nullable column. |
| Entities.WithoutPassword | backend/src/services/AuthService.ts:42-43 | The returned user keeps id, email and timestamps, and its type has no password field. |
| Errors.Error.StatusCode | backend/src/middleware/errorHandler.ts:11-13 | Validation, authentication, authorization, not-found and rate-limit errors carry 400, 401, 403, 404 and 429. |
| RateLimiting.Address | backend/src/middleware/rateLimiter.ts:27 | `req.ip \|\| req.socket.remoteAddress`: a non-empty `req.ip` is used when present, the socket address otherwise, and `"undefined"` when neither is known. |
| RateLimiting.Key | backend/src/middleware/rateLimiter.ts:24-28 | The key is `user:<id>` for a truthy user id and `ip:<address>` otherwise, so user id 0 falls back to the address. |
| RateLimiting.KeySeparatesRequesters | backend/src/middleware/rateLimiter.ts:24-28 | Two requests share a bucket only if they come from the same user, or both come from no user (or user 0) at the same address. |
| RateLimiting.KeyTag | backend/src/middleware/rateLimiter.ts:27 | A user bucket and an address bucket never share a key: their first characters differ. |
| RateLimiting.OnRoute | backend/src/routes/auth.routes.ts:11-33 | On the auth routes the limiter runs before authentication and always keys by address. On issue and user routes (issue.routes.ts:10-11, user.routes.ts:10-11) it keys by the token's user. |
| RateLimiting.InfoOf | backend/src/middleware/rateLimiter.ts:39-54 | Limit is `maxRequests` and remaining is `max(0, maxRequests - count)`, hence in `[0, maxRequests]`. For an absent key, remaining is the limit and reset is `now + windowMs`. |
| RateLimiting.Step | backend/src/middleware/rateLimiter.ts:56-87 | A request creates or changes only its own key's entry; every other key's entry is untouched. |
| RateLimiting.OpeningRequestPasses | backend/src/middleware/rateLimiter.ts:62-67 | With no entry, or an expired one, the entry becomes `{1, now + windowMs}` and the request passes whatever the limit. |
| RateLimiting.LiveWindowCounts | backend/src/middleware/rateLimiter.ts:68-77 | In a live window the count rises by exactly one, the reset is kept, and the request is rejected iff the new count exceeds the limit. |
| RateLimiting.ResetInstantStillCounts | backend/src/middleware/rateLimiter.ts:62 | At `now == resetTime` the window is still live and the request is counted in it. |
| RateLimiting.HeadersReported | backend/src/middleware/rateLimiter.ts:71-83 | Headers carry the limit and the entry's reset. A passing request reports `limit - count` (the count is within the limit unless it opened the window). A rejected one reports 0 and a 429 rate-limit error. |
| RateLimiting.Run | backend/src/middleware/rateLimiter.ts:56-87 | A run of requests yields one verdict per request. |
| RateLimiting.RunInsideWindow | backend/src/middleware/rateLimiter.ts:68-77 | Requests inside one live window starting from count c: the i-th passes iff `c + i + 1 <= maxRequests`, and the final count is `c` plus the number of requests. |
| RateLimiting.WindowAdmitsFirstN | backend/src/middleware/rateLimiter.ts:62-77 | From the opening request until `windowMs` has elapsed, the first `maxRequests` requests pass (the first always) and every later one is rejected. |
| RateLimiting.Sweep | backend/src/middleware/rateLimiter.ts:30-37 | The sweep keeps a subset of the keys and never alters a kept entry. |
| RateLimiting.SweepRemovesExactlyExpired | backend/src/middleware/rateLimiter.ts:33 | A key survives the sweep iff `now <= resetTime`. |
| RateLimiting.SweepUnobservable | backend/src/middleware/rateLimiter.ts:30-37 | A sweep at any earlier instant changes neither a later request's verdict nor its entry. |
| RateLimiting.RateLimiter.constructor | backend/src/middleware/rateLimiter.ts:15-22 | The store starts empty, with the configured window and limit. |
| RateLimiting.RateLimiter.Info | backend/src/middleware/rateLimiter.ts:39-54 | Reported remaining never exceeds the limit; an unknown key reports the full limit and a window starting now. |
| RateLimiting.RateLimiter.Cleanup | backend/src/middleware/rateLimiter.ts:30-37 | The delete-while-iterating loop leaves exactly `Sweep(old store, now)`. |
| RateLimiting.RateLimiter.Handle | backend/src/middleware/rateLimiter.ts:56-87 | The in-place middleware leaves the store and returns the verdict given by `Step`. |
| IssueRepo.IndexOf | backend/src/repositories/IssueRepository.ts:18-24 | Finds the first row matching both id and owner, or reports that none matches. |
| IssueRepo.OnlyMatch | backend/src/repositories/IssueRepository.ts:18-24 | With unique ids, any row matching `(id, userId)` is the one the lookup returns. |
| IssueRepo.Select | backend/src/repositories/IssueRepository.ts:5-16 | Keeps exactly the owner's rows (of the given type when one is given), each as often as stored. |
| IssueRepo.InsertNewestFirst | backend/src/repositories/IssueRepository.ts:8 | Inserting into a newest-first list keeps it newest first and adds exactly that row. |
| IssueRepo.SortNewestFirst | backend/src/repositories/IssueRepository.ts:8-13 | `ORDER BY createdAt DESC` gives a newest-first permutation of its input. |
| IssueRepo.ConsNewestFirst | backend/src/repositories/IssueRepository.ts:8 | A row no older than the head of a newest-first list can go in front. |
| IssueRepo.MergeIssue | backend/src/repositories/IssueRepository.ts:50-63 | The update keeps `id`, `userId` and `createdAt`, and sets `updatedAt` to now. |
| IssueRepo.MergeCannotClear | backend/src/repositories/IssueRepository.ts:55-59 | A non-empty stored field stays non-empty; an empty title in the body keeps the stored title. |
| IssueRepo.MergeIdempotent | backend/src/repositories/IssueRepository.ts:50-63 | The same partial update applied twice stores the same fields as applying it once; only `updatedAt` differs. |
| IssueRepo.EmptyUpdateOnlyTouches | backend/src/repositories/IssueRepository.ts:50-63 | An update with no truthy field changes nothing but `updatedAt`. |
| IssueRepo.Without | backend/src/repositories/IssueRepository.ts:72-78 | The delete keeps exactly the rows not matching `(id, userId)`, so other owners' rows stay. |
| IssueRepo.WithoutKeepsIdsUnique | backend/src/repositories/IssueRepository.ts:72-78 | Deleting keeps row ids unique. |
| IssueRepo.WithoutNoMatch | backend/src/repositories/IssueRepository.ts:72-78 | Deleting a pair that matches no row changes nothing. |
| IssueRepo.WithoutRemovesOne | backend/src/repositories/IssueRepository.ts:72-78 | Deleting an existing `(id, userId)` removes exactly one row. |
| IssueRepo.IssueRepository.constructor | backend/src/repositories/IssueRepository.ts:4 | An empty table with the counter at 1. |
| IssueRepo.IssueRepository.FindAll | backend/src/repositories/IssueRepository.ts:5-16 | Exactly the caller's rows (of the type, when given), newest first. |
| IssueRepo.IssueRepository.FindById | backend/src/repositories/IssueRepository.ts:18-24 | A row is returned only if both id and owner match; null iff no row matches both. |
| IssueRepo.IssueRepository.Create | backend/src/repositories/IssueRepository.ts:26-40 | Appends a row with the next id, `'medium'`/`'open'` for a missing or empty priority/status, and `createdAt == updatedAt == now`; the re-read finds it. |
| IssueRepo.IssueRepository.Update | backend/src/repositories/IssueRepository.ts:42-70 | Missing or foreign `(id, userId)`: error and no change. Otherwise only that row becomes the merged row, and the re-read returns it. |
| IssueRepo.IssueRepository.Delete | backend/src/repositories/IssueRepository.ts:72-78 | Returns true iff a row matched both; removes only it (one row) and the pair is then absent. |
| IssueServices.GetAllIssues | backend/src/services/IssueService.ts:8-10 | Lists exactly the caller's issues (filtered by type when one is given), newest first. |
| IssueServices.GetIssueById | backend/src/services/IssueService.ts:12-18 | NotFound('Issue not found') iff no row matches both id and caller; otherwise the caller's row. |
| IssueServices.ForeignIssueLooksMissing | backend/src/services/IssueService.ts:12-18 | Asking for another owner's issue gives exactly the error of a missing one. |
| IssueServices.CreateViolation | backend/src/services/IssueService.ts:22-48 | Passes iff: type is truthy and one of the three types; title and description are present and not blank; their raw lengths are at most 200/5000; a truthy priority/status is in its enumeration. A bad type reports first, a blank title next. |
| IssueServices.LongTitleReportedFirst | backend/src/services/IssueService.ts:22-40 | Once type, title and description are valid, an over-long title is the error reported, whatever the description's length: the title's length is checked first. |
| IssueServices.UpdateViolation | backend/src/services/IssueService.ts:72-90 | Passes iff each truthy field is in its enumeration or within its length limit; emptiness is never checked. |
| IssueServices.UpdateAcceptsBlankTitle | backend/src/services/IssueService.ts:84-90 | An empty or white-space title passes the update checks. |
| IssueServices.NewIssueAsWritten | backend/src/services/IssueService.ts:50-53 | `{ userId, ...issueData }`: a `userId` in the body replaces the caller's. |
| IssueServices.CreateAsWrittenStoresForeignOwner | backend/src/services/IssueService.ts:50-53 | A body that passes every create check but carries another `userId` yields a record owned by that other user. |
| IssueServices.ForeignOwnerWitness | backend/src/services/IssueService.ts:22-53 | The body `{type: "vapt", title: "T", description: "D", userId: 2}` passes every create check. |
| IssueServices.NewIssueFor | backend/src/services/IssueService.ts:50-53 | The corrected record is owned by the caller, with all other fields from the body. |
| IssueServices.CreateIssue | backend/src/services/IssueService.ts:20-62 | A failed check throws it and writes nothing. Otherwise it inserts one row, owned by the body's `userId` when the body has one and by the caller otherwise, with the body's fields and the defaults; the row is then found under that owner and returned. |
| IssueServices.UpdateIssue | backend/src/services/IssueService.ts:64-93 | Existence comes first: foreign or missing gives NotFound even for an invalid body. Then a failed check writes nothing. Otherwise only that row is merged. |
| IssueServices.DeleteIssue | backend/src/services/IssueService.ts:95-102 | NotFound unless the caller owns the id. Otherwise exactly that row is removed and the answer is `true`. |
| UserRepo.FirstIndex | backend/src/repositories/UserRepository.ts:10 | `rows[0]` of a filtered select: the first matching position, or none. |
| UserRepo.ProfileIndex | backend/src/repositories/UserRepository.ts:34-40 | Finds the user's first profile row, or reports that the user has none. |
| UserRepo.FreshProfile | backend/src/repositories/UserRepository.ts:42-49 | The inserted profile stores each truthy field and null for each absent or empty one. |
| UserRepo.MergeProfile | backend/src/repositories/UserRepository.ts:67-73 | The update keeps id and owner, and never stores an empty string. |
| UserRepo.MergeProfileCannotClear | backend/src/repositories/UserRepository.ts:71-72 | A profile field that is set stays set. |
| UserRepo.MergeProfileIdempotent | backend/src/repositories/UserRepository.ts:58-80 | Repeating an upsert (insert or merge) with the same body changes nothing but `updatedAt`. |
| UserRepo.SetProfileColumns | backend/src/repositories/UserRepository.ts:67-73 | `UPDATE ... WHERE userId = ?` rewrites exactly that user's rows and leaves every other row equal. |
| UserRepo.UserRepository.constructor | backend/src/repositories/UserRepository.ts:4 | Empty tables satisfying the unique-email and one-profile-per-user invariants. |
| UserRepo.UserRepository.FindByEmail | backend/src/repositories/UserRepository.ts:5-11 | Null iff no user has that email; otherwise the first such user. |
| UserRepo.UserRepository.FindById | backend/src/repositories/UserRepository.ts:13-19 | Null iff no user has that id; otherwise a user with it. |
| UserRepo.UserRepository.Create | backend/src/repositories/UserRepository.ts:21-32 | Appends a user with the next id, the email and the given hash; profiles are untouched; the re-read finds the user. |
| UserRepo.UserRepository.GetProfile | backend/src/repositories/UserRepository.ts:34-40 | Null iff the user has no profile row; otherwise one of theirs. |
| UserRepo.UserRepository.CreateProfile | backend/src/repositories/UserRepository.ts:42-56 | Inserts the fresh profile; the re-read returns it, or the user's earlier row when one existed. |
| UserRepo.UserRepository.UpdateProfile | backend/src/repositories/UserRepository.ts:58-80 | No profile: creates it. Otherwise merges into that user's rows only. Either way `getProfile` then returns the result, and one-profile-per-user is kept. |
| UserServices.DefaultProfile | backend/src/services/UserService.ts:11-15 | The fallback has id 0, the user's id and no optional field. |
| UserServices.GetProfile | backend/src/services/UserService.ts:7-18 | Returns the stored profile when there is one, the default otherwise; never an error. |
| UserServices.ZeroIdMeansNoProfile | backend/src/services/UserService.ts:9-16 | Id 0 is returned exactly when the user has no stored profile. |
| UserServices.ProfileViolation | backend/src/services/UserService.ts:22-30 | Passes iff a truthy first/last name is at most 100 and a truthy phone at most 20 UTF-16 units; company, position and bio are unchecked. |
| UserServices.UpdateProfile | backend/src/services/UserService.ts:20-41 | A failed guard throws with the profile table unchanged. Otherwise the table gains the fresh profile (none stored) or has that user's rows merged (one stored), every other user's row stays as it was, and the stored profile is returned. |
| AuthServices.SessionFor | backend/src/services/AuthService.ts:32-43 | The session carries the user without its password and a token signed for `{userId, email}` (RFC 7519 claims). |
| AuthServices.RegisterViolation | backend/src/services/AuthService.ts:11-23 | Passes iff email and password are non-empty, the password has at least 6 UTF-16 units, and no user has the email. The first two failures report their own messages. |
| AuthServices.Register | backend/src/services/AuthService.ts:9-44 | On failure nothing is written. On success exactly one user is added under the next id, storing `hash(password)`, and its session is returned. Unique emails are preserved. |
| AuthServices.Login | backend/src/services/AuthService.ts:46-74 | Empty input gives a validation error. Otherwise it succeeds iff the user exists and `compare` accepts; an unknown email and a wrong password give the identical error; it reads only. |
| AuthServices.LoginAfterRegister | backend/src/services/AuthService.ts:26-69 | With a hash that `compare` accepts, logging in with the credentials just registered yields that user's session. |
| AuthServices.GetCurrentUser | backend/src/services/AuthService.ts:76-84 | AuthenticationError('User not found') iff the id is unknown; otherwise that user without a password. |
| AuthMiddleware.BearerToken | backend/src/middleware/auth.ts:18-22 | A token exists iff the header starts with exactly `"Bearer "`; the header is then that prefix followed by the token. |
| AuthMiddleware.Authentication | backend/src/middleware/auth.ts:13-38 | No or non-Bearer header gives 'No token provided'. A rejected token gives 'Invalid or expired token'. Only authentication errors escape, and success is the verifier's payload. |
| AuthMiddleware.AcceptedTokenAuthenticates | backend/src/middleware/auth.ts:18-28 | `Bearer <token>` with an accepted token authenticates as its payload. |
| AuthMiddleware.LowercaseSchemeRejected | backend/src/middleware/auth.ts:18-20 | `bearer <token>` is treated as no token. |
| AuthMiddleware.AuthRequest.constructor | backend/src/middleware/auth.ts:5-10 | A request with its header and no user attached. |
| AuthMiddleware.Authenticate | backend/src/middleware/auth.ts:13-38 | On success `req.user` is the payload's `{userId, email}` and `next` runs. On failure it throws and `req.user` is unchanged. |
| ErrorHandling.Handle | backend/src/middleware/errorHandler.ts:6-30 | An AppError keeps its status and message. A plain Error gives 500 with its own message. A non-Error gives 500 'Internal server error'. The body is always `success: false`. |
| ErrorHandling.TypedErrorsAreClientErrors | backend/src/middleware/errorHandler.ts:11-13 | The typed errors give a status in 400..499, and rate limiting gives 429. |
| Validation.TrimField | backend/src/validators/IssueValidator.ts:12 | The sanitizer keeps a missing field missing and trims a present one. |
| Validation.Check | backend/src/validators/IssueValidator.ts:10 | A check adds its message iff it fails. |
| Validation.OneOf | backend/src/validators/IssueValidator.ts:8-10 | `isIn` on a required field fails with its one message iff the value, `""` when missing, is not allowed. |
| Validation.OptionalOneOf | backend/src/validators/IssueValidator.ts:23-30 | `optional().isIn` fails iff the field is present and not allowed. |
| Validation.RequiredText | backend/src/validators/IssueValidator.ts:11-22 | `trim().notEmpty().isLength({max})` passes iff the trimmed value is non-empty and at most max long by `isLength`'s measure; a blank value reports only the required message. |
| Validation.OptionalText | backend/src/validators/IssueValidator.ts:41-54 | The same behind `optional()`: only a present field is checked. |
| Validation.OptionalMaxLength | backend/src/validators/UserValidator.ts:8-12 | `optional().trim().isLength({max})` fails iff present and the trimmed value's `isLength` measure exceeds max; empty passes. |
| Validation.HandleValidationErrors | backend/src/validators/IssueValidator.ts:77-84 | `next` runs iff there is no message. Otherwise one ValidationError with all messages joined by `", "`, starting with the first. |
| Validation.ReportsEveryMessage | backend/src/validators/IssueValidator.ts:80 | One more failure appends `", "` and its message to the thrown message. |
| IssueValidation.CreateErrors | backend/src/validators/IssueValidator.ts:6-33 | No message iff: type is one of the three; title and description trim to non-empty texts of at most 200/5000 by `isLength`'s measure; a present priority/status is in its enumeration. |
| IssueValidation.SanitizeTexts | backend/src/validators/IssueValidator.ts:11-22 | Only title and description are rewritten (trimmed); the update chain (lines 41-54) sanitizes the same two fields. |
| IssueValidation.CreateValidatorImpliesServiceChecks | backend/src/validators/IssueValidator.ts:6-33 | A body the create chain accepts passes every `createIssue` check once sanitized, for texts on which `s.length` and `isLength` agree. |
| IssueValidation.TextAccepted | backend/src/validators/IssueValidator.ts:11-16 | A value the text chain accepts trims to a non-blank text within the limit in UTF-16 units, for texts on which `s.length` and `isLength` agree. |
| IssueValidation.AstralTitleSplitsTheLayers | backend/src/validators/IssueValidator.ts:11-16 | A title of 101 to 200 characters outside the Basic Multilingual Plane passes the chain, yet `createIssue` rejects it as too long. |
| IssueValidation.SelectorTitleSplitsTheLayers | backend/src/validators/IssueValidator.ts:11-16 | 200 plain characters followed by U+FE0F pass the chain (`isLength` 200), yet `createIssue` rejects the title as too long (201 units). |
| IssueValidation.TrimmedTitlePassesChain | backend/src/validators/IssueValidator.ts:8-22 | A valid type, the description "D" and a non-empty title with nothing to trim and an `isLength` measure of at most 200 collect no message. |
| IssueValidation.TrimmedTitleFailsSanitized | backend/src/services/IssueService.ts:20-36 | The same body with a title over 200 UTF-16 units makes `createIssue` throw the title-too-long error. |
| IssueValidation.UpdateErrors | backend/src/validators/IssueValidator.ts:35-65 | No message iff every present field is allowed, and a present title/description trims to a non-empty text within its limit. |
| IssueValidation.UpdateValidatorImpliesServiceChecks | backend/src/validators/IssueValidator.ts:35-65 | A body the update chain accepts passes every `updateIssue` check once sanitized, for texts on which `s.length` and `isLength` agree. |
| IssueValidation.UpdateValidatorRejectsBlankTitle | backend/src/validators/IssueValidator.ts:41-47 | A present blank title always draws 'Title cannot be empty', which the service alone would accept. |
| IssueValidation.FilterErrors | backend/src/validators/IssueValidator.ts:67-75 | The filter passes iff `type` is absent or one of the three types; otherwise only 'Invalid filter type'. |
| UserValidation.ProfileErrors | backend/src/validators/UserValidator.ts:6-40 | No message iff each present field trims to within 100/100/20/200/200/1000 by `isLength`'s measure; empty passes; at most six messages. |
| UserValidation.SanitizeProfile | backend/src/validators/UserValidator.ts:8-37 | Every present field is trimmed, and presence is kept. |
| UserValidation.ProfileValidatorImpliesServiceChecks | backend/src/validators/UserValidator.ts:6-40 | A body the chain accepts passes `updateProfile`'s guards once sanitized, for names and phone on which `s.length` and `isLength` agree. |
| UserValidation.BlankFirstNameKeepsStored | backend/src/validators/UserValidator.ts:8-12 | A white-space first name passes the chain, is trimmed to `""`, and the merge then keeps the stored first name. |
| AuthValidation.PasswordErrors | backend/src/validators/AuthValidator.ts:12-18 | No message iff at least 6 long by `isLength`'s measure, with one ASCII letter and one digit; an empty password collects all three messages. |
| AuthValidation.SelectorDoesNotCount | backend/src/validators/AuthValidator.ts:12-14 | `"abc12"` plus U+FE0F is 6 UTF-16 units, yet the chain reports it as too short. |
| AuthValidation.RegisterErrors | backend/src/validators/AuthValidator.ts:6-21 | No message iff `isEmail` accepts the email and the password rules hold; a bad email reports first. |
| AuthValidation.LoginErrors | backend/src/validators/AuthValidator.ts:23-34 | No message iff `isEmail` accepts the email and the password is non-empty (untrimmed). |
| AuthValidation.RegisterValidatorImpliesServiceChecks | backend/src/validators/AuthValidator.ts:6-21 | After the register chain accepts, `register` can fail only because the email is taken. |
| AuthValidation.LoginValidatorImpliesServiceChecks | backend/src/validators/AuthValidator.ts:23-34 | After the login chain accepts, `login` never answers 'Email and password are required'. |

## Left out

- E-mail notifications (backend/src/services/EmailService.ts) are fire-and-forget with errors swallowed, so they have no observable effect on the model. The user lookups made only to address them (backend/src/services/IssueService.ts:56-59, backend/src/services/UserService.ts:35-38) are read-only and are omitted.
- Password hashing, comparison, token signing and verification (backend/src/utils/password.ts, backend/src/utils/jwt.ts) are function parameters; bcrypt salts and JWT expiry live inside them.
- The MySQL pool, connections and transactions are replaced by in-memory tables, and SQL `NOW()` and `Date.now()` by a `now` parameter. Response headers carry the reset instant as an integer, not an ISO date string.
- `setInterval` scheduling of the sweep is left out; `RateLimiting.RateLimiter.Cleanup` is an explicit method.
- Handlers, route wiring other than the limiter's key choice, server setup, environment loading and `parseInt` of the limiter settings are left out. `RateLimiting.RateLimiter.constructor` takes the window and limit as a configuration.
- Interleaving of concurrent requests between a repository's read and write is not modelled; every operation runs to completion.
- validator.js's `isEmail` is a parameter. `normalizeEmail` is not modelled: the validator lemmas pass the raw email to the service.
- backend/package.json is not part of this model, so no library version is pinned; `Text.ValidatorLength` follows validator.js 13's `isLength`.
- Request bodies hold strings or nothing; other JSON value types (numbers, arrays) in a text field are not modelled.
- IssueRepo.SortNewestFirst: rows with equal `createdAt` come in one fixed order, where SQL leaves the order unspecified.
- UserRepo.UserRepository.Create: does not enforce the `email` column's UNIQUE constraint. `AuthServices.Register` checks for the email first and preserves `EmailsUnique`.
- IssueValidation.CreateValidatorImpliesServiceChecks: holds only for titles and descriptions with no surrogate pair and no variation selector, because the chain measures with `isLength` and the service with `s.length` (`IssueValidation.AstralTitleSplitsTheLayers` and `IssueValidation.SelectorTitleSplitsTheLayers` show the gap).
- IssueValidation.UpdateValidatorImpliesServiceChecks: the same proviso.
- UserValidation.ProfileValidatorImpliesServiceChecks: the same proviso, for first name, last name and phone.
- AuthValidation.RegisterValidatorImpliesServiceChecks: assumes `isEmail("")` is false, as validator.js's rule is.
- AuthValidation.LoginValidatorImpliesServiceChecks: same assumption as above.
- UserRepo.UserRepository.FindByEmail: emails are compared as exact strings, and so is the `type = ?` filter of `IssueRepo.Select`. SQL collation is not modelled: under a case- and accent-insensitive collation the database treats `José@x.com` and `jose@x.com` as the same email, and the model does not. `UserRepo.UserRepository.EmailsUnique`, `AuthServices.RegisterViolation` and `AuthServices.Register` therefore state exact-string uniqueness.
- RateLimiting.Address: when neither `req.ip` nor the socket address is known, the address renders as `"undefined"`, as the template literal does.

## Findings

| source | as written | input that shows it | evidently intended | confidence | as-written member | corrected member |
|---|---|---|---|---|---|---|
| backend/src/services/IssueService.ts:50-53 | `{ userId, ...issueData }` spreads the request body after the caller's id, so a `userId` key in the body decides the owner | caller 1 posts `{"type": "vapt", "title": "T", "description": "D", "userId": 2}`; every check passes and the issue is stored for user 2 | the created issue is owned by the authenticated caller | not executed | IssueServices.CreateAsWrittenStoresForeignOwner | IssueServices.NewIssueFor |

`IssueServices.CreateIssue` follows the code as written, so it stores the body's `userId` as the owner; `IssueServices.NewIssueFor` is the record the intended behaviour inserts, owned by the caller whatever the body says.

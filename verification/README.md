# Login recording and admin route guard — a Dafny model

This project models two pieces of a small Nuxt web application.

- **The login endpoint** (`server/api/login.post.ts`). It accepts only POST. It checks a submission with a fixed chain of checks, where the first failure is the one reported:
  - all four fields present;
  - trimmed name at least two characters;
  - trimmed e-mail matches `^[^\s@]+@[^\s@]+\.[^\s@]+$`;
  - raw password at least six characters;
  - role one of `Student`, `Teacher`, `Admin`, `Security Guard`.

  It then loads the JSON user store and treats a missing or malformed store as empty. It scans the store for an earlier record with the same e-mail, but only to log it. Then it appends a normalised record, writes the store back and returns a summary without the password. Errors that carry a status code pass through the outer `catch`. Every other failure becomes a fixed 500.
- **The admin route guard** (`middlewares/admin.ts`). It does nothing on the server, so navigation proceeds and the admin page renders for any visitor during server rendering. The comment next to that early return speaks of a redirect, but the code returns nothing, and the model follows the code. On the client it redirects to the login page when there is no stored user id or the user lookup does not succeed. It raises a fatal 403 for a user whose role is not `Admin`, and lets an `Admin` through. Any other error also becomes a redirect, except one that carries status code 403, which is re-raised.

Each handler is a pure function of its inputs:
- `Login.Handle` takes the request method, the body (`None` when it is `null` or absent) and the store as read (`None` when the file is missing, unparsable or not an array). It also takes whether the write succeeds, the generated id and the current time.
- `AdminGuard.Guard` takes whether it runs on the server, what `localStorage` returned and what the user lookup returned.

Modules:

| file | module | contents |
|---|---|---|
| `wrappers.dfy` | `Wrappers` | `Option`, `Result` |
| `text.dfy` | `Text` | the ECMAScript white-space set, `trim`, ASCII `toLowerCase`, UTF-16 `length`, each with a lemma stating what it computes |
| `email.dfy` | `Email` | the e-mail regular expression as a declarative pattern and as a scanning matcher, proved equal |
| `login.dfy` | `Login` | submissions, records, the validation chain, the duplicate scan, the handler |
| `login_properties.dfy` | `LoginProperties` | properties of the handler across calls and stores |
| `admin_guard.dfy` | `AdminGuard` | the guard's `try` block, its `catch` block, and the guard |
| `admin_guard_properties.dfy` | `AdminGuardProperties` | one lemma per outcome, and the "only admins pass" safety property |

How the model reads the code:
- **Thrown values.** The login handler's outer `catch` re-raises any error with a truthy `statusCode`. Only `createError` values carry one here, so they become `Created(kind)`. A file-system error or `TypeError` becomes `Unexpected(..)`, and `Catch` maps it to the 500 error.
- **Store elements.** An element of the store without a string `email` is kept as an opaque `OtherEntry`. If the duplicate scan reaches such an element before any match, `user.email.toLowerCase()` throws. The whole request then fails with 500, even for a valid submission (`LoginProperties.MalformedEntryFailsRequest`). Elements the endpoint itself writes never cause this (`LoginProperties.HandlePreservesWellFormedStore`, `LoginProperties.RecordsNeverCrashScan`).
- **Guard status codes.** The guard's `catch` tests only `statusCode === 403`. So a lookup that throws an error carrying status 403 is re-raised as a 403, but without `fatal`. That includes an error from the lookup request itself, not only the guard's own role check. The model follows the code here (`AdminGuardProperties.OtherErrorsRedirect`).
- **Null body.** Destructuring a `null` or absent body throws a `TypeError` without a status code, so the answer is the 500 error, not the missing-fields 400 (`LoginProperties.NullBodyFails`).
- **Missing user.** A successful lookup with no `user` makes `user.name` throw a `TypeError`, which the guard turns into a redirect.

## Model

| member | source | states |
|---|---|---|
| Login.Validate | server/api/login.post.ts:19-55 | The checks run in source order and the first one that fails decides the error. No error means the submission is fully valid. Each error means every earlier check passed and its own check failed (both directions). |
| Login.Handle | server/api/login.post.ts:5-138 | A success keeps the old store as a prefix, adds exactly one entry and reports the new length as `totalUsers`. The handler fails with a 400 exactly when the method is POST and the body is an object that fails validation. A POST with a `null` or absent body fails with the 500. |
| LoginProperties.NonPostRejected | server/api/login.post.ts:6-11 | Any method other than `POST` is answered with 405 `Method Not Allowed`, whatever the body, store or file system. |
| LoginProperties.ValidationDecides | server/api/login.post.ts:13-55 | For a POST, a failing check's 400 error is exactly the handler's answer. A valid submission ends in success or the internal error. The handler answers with a 400 exactly when the submission is invalid. |
| LoginProperties.ValidationBoundaries | server/api/login.post.ts:27-55 | Thresholds: a trimmed name shorter than 2 code units fails with the name error. Otherwise a password shorter than 6 code units fails with the password error. A role outside the four listed fails with the role error. |
| Email.MatchesEmailCorrect | server/api/login.post.ts:34-35 | The scanning matcher accepts a string exactly when it is `l@d.t`, with `l`, `d`, `t` non-empty runs of characters that are neither white space nor `@`. This is the language of the regular expression. |
| Email.LowerKeepsPattern | server/api/login.post.ts:95 | Lower-casing a string does not change whether it matches the e-mail pattern, so the stored lower-cased e-mail still matches it. |
| Email.MatchHasNoWhitespace | server/api/login.post.ts:34-35 | A string of the e-mail pattern contains no white space at all, in particular none at either end, so trimming it again changes nothing. |
| Email.AcceptsSample | server/api/login.post.ts:34-35 | `a.b@c.d.e` is accepted: the final dot is chosen by backtracking, and dots may appear on both sides. |
| Email.RejectsMissingDot | server/api/login.post.ts:34-35 | `a@bc` is rejected: nothing after the `@` contains a dot. |
| Email.RejectsDotAfterAt | server/api/login.post.ts:34-35 | `a@.bc` is rejected: the domain part before the dot must be non-empty. |
| Email.RejectsSecondAt | server/api/login.post.ts:34-35 | `a@b@c.d` is rejected: `@` is allowed only once. |
| Text.TrimMeaning | server/api/login.post.ts:27-35 | `trim` returns a contiguous slice of its input with no white space at either end. Everything cut off on both sides is white space. |
| Text.TrimIdempotent | server/api/login.post.ts:94-95 | Trimming twice equals trimming once, so the stored name and e-mail are already trimmed. |
| Text.LowerMeaning | server/api/login.post.ts:95 | Lower-casing maps each character separately and keeps the length. Each ASCII capital becomes its lower-case letter (+32). The result contains no ASCII capitals. |
| Text.LowerIdempotent | server/api/login.post.ts:95 | Lower-casing twice equals lower-casing once, so the stored e-mail equals its own comparison key. |
| Text.Utf16LengthBounds | server/api/login.post.ts:42 | A string's `.length` in UTF-16 code units lies between its character count and twice that. It equals the character count exactly when no character lies outside the Basic Multilingual Plane. |
| Login.FindRepeatMeaning | server/api/login.post.ts:86 | `users.find` reports a match exactly when some record matches and every element before it is a non-matching record. It throws exactly when an element without a string e-mail comes first. Otherwise it finds nothing. |
| LoginProperties.NullBodyFails | server/api/login.post.ts:14-17 | A POST whose body is `null` or absent fails with the 500, whatever the store, because the destructuring throws. A body object with no fields fails with the missing-fields 400 instead. |
| LoginProperties.MissingStoreIsEmpty | server/api/login.post.ts:68-83 | A missing, unparsable or non-array store behaves exactly like an empty array. |
| LoginProperties.SuccessCondition | server/api/login.post.ts:6-122 | The handler succeeds exactly when the method is POST, the submission is valid, the duplicate scan does not throw and the write succeeds. |
| LoginProperties.SuccessfulCallAppends | server/api/login.post.ts:103-121 | On success the new store is the old one plus exactly one record at the end. `totalUsers` is the new length. With no previous store it is 1. |
| LoginProperties.StoredRecordAndResponse | server/api/login.post.ts:92-122 | The stored record has the trimmed name, the trimmed lower-cased e-mail, and the raw password and role. Its login time is the submitted one if truthy, otherwise now. The response echoes id, name, e-mail, role and login time, never the password. |
| LoginProperties.NewRecordWellFormed | server/api/login.post.ts:92-100 | A record built from a valid submission has a trimmed name of 2+ code units. Its e-mail is trimmed, lower-case and matches the pattern, its password has 6+ code units, and its role is one of the four. |
| LoginProperties.HandlePreservesWellFormedStore | server/api/login.post.ts:92-106 | If every stored element is a well-formed record, the same holds after a successful call. |
| LoginProperties.RecordsNeverCrashScan | server/api/login.post.ts:86 | A store made only of records never makes the duplicate scan throw. |
| LoginProperties.RepeatLoginStillAppends | server/api/login.post.ts:85-103 | A repeat login with an e-mail that is already stored is still appended as a new record, not rejected or merged. The new record matches the same key. |
| LoginProperties.SubmitTwice | server/api/login.post.ts:85-106 | Submitting the same body twice stores two records with the same key, and the second call reports one more user. |
| LoginProperties.ErrorMapping | server/api/login.post.ts:124-136 | A POST with an object body fails with the internal error exactly when the submission is valid but the duplicate scan throws or the write fails. |
| LoginProperties.MalformedEntryFailsRequest | server/api/login.post.ts:86 | A valid POST fails with 500 when the store's first element has no string e-mail. |
| AdminGuard.Guard | middlewares/admin.ts:4-8 | On the server the guard takes no action. On the client it always decides something (both directions). |
| AdminGuardProperties.MissingUserIdRedirects | middlewares/admin.ts:12-17 | No stored id, or an empty one, redirects to `/login` without asking the server. |
| AdminGuardProperties.FailedLookupRedirects | middlewares/admin.ts:21-30 | A lookup that replies with `success` false redirects to `/login`. |
| AdminGuardProperties.NonAdminForbidden | middlewares/admin.ts:35-45 | A user whose role is anything but exactly `Admin`, including a missing role, gets the fatal 403. |
| AdminGuardProperties.AdminAllowed | middlewares/admin.ts:32-47 | A successful lookup of an `Admin` lets the navigation proceed. |
| AdminGuardProperties.OtherErrorsRedirect | middlewares/admin.ts:49-60 | Several failures redirect to `/login`: a throwing `localStorage`, a lookup that throws without status 403, and a success reply without a user. A lookup error carrying 403 is re-raised as a non-fatal 403. |
| AdminGuardProperties.AllowOnlyForAdmin | middlewares/admin.ts:4-60 | The guard returns the `Allow` outcome, meaning the admin check passed, exactly when it runs on the client, an id is stored, and the lookup succeeds with a user whose role is `Admin`. |
| AdminGuardProperties.ProceedsExactly | middlewares/admin.ts:4-47 | Navigation proceeds exactly when the guard runs on the server, whoever the visitor is, or when the client-side lookup finds an `Admin`. The server-side early return redirects nobody. |
| AdminGuardProperties.ClientOutcomes | middlewares/admin.ts:10-60 | On the client the guard always decides something. A fatal 403 comes only from a successful lookup of a user whose role is not `Admin`. A non-fatal 403 comes only from a lookup error that carries status 403. |

## Left out

- The file system is not modelled (`mkdir`, `readFile`, `writeFile`). The store as read and whether the write succeeds are inputs. A failing `mkdir` is only logged, so it has no modelled effect.
- JSON parsing and pretty-printing are not modelled. The store is a sequence of entries, and the file's concrete text is not modelled.
- `Date.now() + Math.random()` and `new Date().toISOString()` are not modelled. The id and the current time are inputs. One time value serves both the default `loginTime` and `createdAt`, although the source reads the clock twice.
- Console logging is not modelled. It has no effect on results, including the "logged in again" message on a repeat login.
- `readBody`'s own failures are not modelled, for example its error for malformed JSON. A `null` or absent body is modelled.
- Body fields that are truthy but not strings (numbers, arrays, objects) are not modelled. A field is either absent or falsy (`None`), or a string. Such values would make `.trim()` throw, or change what `.length` and `includes` mean.
- A failed write's effect on the file is not modelled. `writeFile` truncates `users.json` before writing, so a failed write can leave the file empty or partial. The next request then reads it as an empty store. The model only reports the 500 and leaves the store input as it was.
- Concurrent requests racing on the store file are not modelled.
- Text.Lower: lower-cases ASCII letters only. JavaScript's `toLowerCase` also folds non-ASCII letters. Non-ASCII e-mails may therefore compare differently in the duplicate scan and are stored differently.
- Text.Utf16LengthBounds: strings here are sequences of Unicode scalar values, so lone surrogates cannot occur.
- Text.IsWhitespace: follows the ECMAScript white-space and line-terminator set as of Unicode 15. Later Unicode versions that add space separators are not followed.
- `getMethod`'s own normalisation is not modelled. The method is the value it returns.
- The guard's other steps are inputs: `process.server`, `localStorage.getItem`, `parseFloat` of the id, and the `/api/get-user` request. That endpoint's behaviour is not part of this model. A reply whose `data` is null or undefined (the `data.success` access throws) is folded into a lookup that throws without a status.
- `navigateTo` and the error page are not modelled. The guard's result names the decision: redirect, 403 with its `fatal` flag, or allow.

# Task API authentication, guards and owner-scoped task rules, in Dafny

This project models the decision logic of a small Flask task API backed by MongoDB.

- **Accounts and sessions** (`controllers/auth_controller.py`). Registration checks the required fields, runs the duplicate pre-checks, normalises the fields and assigns the role. Login looks the account up, then checks the password, then the active flag. Logout clears the session cookie. Password change checks its errors in a fixed order. Tokens are issued with claims and checked in `verify_token`.
- **Request guards** (`middleware/auth_middleware.py`). `auth_required`, `admin_required` and `optional_auth` each read the `auth_token` cookie and resolve it through `verify_token`. Each then rejects the request with 401 or 403, or runs the handler with the resolved user attached.
- **Task controller** (`controllers/task_controller.py`). It covers:
  - create: validation and defaults;
  - owner-scoped get, update and delete, where a task you do not own answers 404;
  - partial update: field by field, and `completed_at` is stamped at most once;
  - the user listing: filters, newest-first order and pagination arithmetic;
  - per-user statistics, including the overdue rule;
  - the admin listing over every user's tasks.

## How the system is represented

- **Stores.** The user and task collections are sequences in store order (`Users.UserStore`, `Tasks.TaskStore`).
  - A MongoEngine `.first()` lookup is the first element that matches (`Users.FindUser`, `Tasks.FindOwned`).
  - A query count is the length of a filter (`Seqs.Count`).
  - A write returns the new store next to the HTTP outcome (`Tasks.Step`).
- **Identifiers and times.** Record ids are natural numbers. The caller supplies the id a new record receives. Times are whole seconds.
- **The clock.** It is a parameter `now`. The model reads it once per controller call, although the code sometimes reads it twice (see "Left out").
- **Request JSON fields.** Each is a `Field = Option<string>`: `None` means the key is absent, and `Some(v)` means it is present. A JSON `null` and `""` are both `Some("")`, because every check the controllers make treats them alike (Python falsiness). `Http.Filled` is that truthiness.
- **Responses.** An `Outcome<T>` is either a value or an `ApiError(status, message)`. Every message is the controller's own text.
- **Password hashing.** It is a pair of functions `PasswordHasher(hash, check)`. The lemmas that need it assume `check(hash(p), p)` (`Users.SoundHasher`).
- **HS256 JWT signing.** It is a pair `TokenCodec(encode, decode)`. `decode` gives the claims of a token exactly when its signature is valid. The lemmas assume a signed token is non-empty and decodes to its own claims (`Tokens.SoundCodec`).
- **Token expiry.** The JWT library treats a token as expired once `exp <= now` (`Tokens.Unexpired`).
- **Date parsing.** `datetime.fromisoformat` is a partial parser `string -> Option<int>` passed in by the caller.
- **String normalisation.** `str.strip()` is modelled exactly over Python's whitespace set (`Text.Strip`). `str.lower()` is modelled on ASCII letters (`Text.Lower`).

### Where the code is followed over its own documentation

- **Deactivated login.** Logging into a deactivated account with the right password gives its own 401 message, "Account is deactivated". It is not the generic "Invalid credentials" (`Auth.Login`, `Auth.DeactivatedMessageMeansPasswordMatched`).
- **Invalid token on the admin route.** It answers 401 "Invalid or expired token", not 403. `admin_required` makes the same two 401 checks as `auth_required` before its role check (`Guards.Guard`).
- **The role the guards check.** Authorisation uses the role stored on the user record that `verify_token` loads, not the `role` claim inside the token (`Guards.AdminCheckUsesStoredRole`).
- **The role on registration.** The client's `role` is stored as submitted, so anyone can register as `admin` (`Auth.Register`, `Routes.SelfRegisteredAdminReachesAdminRoute`).

## Model

| member | source | states |
|---|---|---|
| Text.Strip | controllers/auth_controller.py:31-33 | `strip()` yields a result that is no longer than its input and neither starts nor ends with whitespace |
| Text.TrimStart | controllers/auth_controller.py:31 | the left half of `strip()`: the result is a suffix of the input, everything dropped is whitespace, and the result does not start with whitespace |
| Text.TrimEnd | controllers/auth_controller.py:31 | the right half of `strip()`: the result is a prefix of the input, everything dropped is whitespace, and the result does not end with whitespace |
| Text.StripIsInfix | controllers/task_controller.py:40-41 | the stripped value is a contiguous part of the submitted one, surrounded only by whitespace |
| Text.StripIdempotent | controllers/auth_controller.py:31-32 | stripping twice is stripping once, so a stored username or email is a fixed point of the stripping registration applies |
| Text.Lower | controllers/auth_controller.py:32 | lower-casing keeps the length and maps each character independently |
| Text.LowerStripCommute | controllers/auth_controller.py:32 | lower-casing then stripping (registration) equals stripping then lower-casing (login at line 80-81) |
| Text.LowerIdempotent | controllers/auth_controller.py:32 | lower-casing twice is lower-casing once, so a stored email is a fixed point of the lower-casing registration applies |
| Users.FindUser | controllers/auth_controller.py:215 | `.first()` on users: a result is a stored user matching the query, and there is none exactly when no stored user matches |
| Users.FindByIdUnique | controllers/auth_controller.py:215 | with unique ids, the lookup by a stored user's id returns that user |
| Users.FindByEmailUnique | controllers/auth_controller.py:81 | with unique emails, the lookup by a stored user's email returns that user |
| Tokens.IssueClaims | controllers/auth_controller.py:198-207 | the claims copy the user's id, username, email and role, with `iat` the clock reading and `exp - iat` the configured lifetime |
| Tokens.VerifyToken | controllers/auth_controller.py:211-225 | a token resolves exactly when its signature is valid, it is unexpired, its subject exists and that subject is active; the result is that stored, active user |
| Tokens.IssuedTokenResolves | controllers/auth_controller.py:198-220 | a token issued to a stored, active user resolves to that user until its lifetime has passed |
| Tokens.IssuedTokenExpires | controllers/auth_controller.py:222-223 | no issued token resolves once its lifetime has passed |
| Tokens.DefaultLifetimeBoundary | config.py:24 | with the default 3600-second lifetime, a token verifies 3599 seconds after issue but not at 3600 or 3601 |
| Tokens.DeactivationRevokes | controllers/auth_controller.py:217-218 | once the subject's stored record is inactive, no token for it resolves, whatever its expiry |
| Guards.Guard | middleware/auth_middleware.py:9-72 | `optional_auth` always proceeds, with the verified user or none; `auth_required` proceeds exactly when the token verifies; `admin_required` proceeds exactly when the token verifies to an admin; a 401 means the token did not verify, and a 403 is only an admin check on a verified user |
| Guards.Handle | middleware/auth_middleware.py:25-27 | the handler runs with the attached identity exactly when the guard proceeds; otherwise the response is the guard's rejection |
| Guards.NoTokenOutcomes | middleware/auth_middleware.py:14-17 | with no cookie or an empty one, both protected guards answer 401 "Authentication token required" and `optional_auth` runs anonymously |
| Guards.InvalidTokenOutcomes | middleware/auth_middleware.py:20-22 | a token that does not verify gets 401 "Invalid or expired token" from both protected guards and an anonymous run from `optional_auth` |
| Guards.ValidTokenOutcomes | middleware/auth_middleware.py:36-53 | a verified user is attached by `auth_required` and `optional_auth`; `admin_required` attaches an admin and answers a non-admin 403 "Admin access required" |
| Guards.AdminProceedMeansActiveAdmin | middleware/auth_middleware.py:47-53 | whenever the admin handler runs, its identity is a stored, active admin |
| Guards.PoliciesDifferOnlyInRoleCheck | middleware/auth_middleware.py:20-48 | the three guards share one verification: they agree on every identity they attach, and the admin guard adds only the role check |
| Guards.AdminCheckUsesStoredRole | middleware/auth_middleware.py:42-48 | a token whose role claim says admin is refused with 403 once the stored user is no longer an admin |
| Auth.OpenSession | controllers/auth_controller.py:39-63 | the session holds the token issued to the account at the clock reading, with the configured lifetime; the `auth_token` cookie carries exactly that token, for the token's lifetime, HTTP-only, SameSite=Lax, and secure as configured |
| Auth.OpenSessionResolves | controllers/auth_controller.py:93-116 | the cookie of a session opened for a stored, active account is non-empty and verifies to that account until the lifetime has passed |
| Auth.FreshAccountSessionResolves | controllers/auth_controller.py:37-63 | the cookie of a session opened for an account appended with a fresh id verifies to that account until the lifetime has passed |
| Auth.RequiredChecks | controllers/auth_controller.py:17-20 | the four presence checks all pass exactly when every required field is filled |
| Auth.Register | controllers/auth_controller.py:11-68 | registration succeeds exactly when every field is filled and neither the raw email nor the raw username is already stored; a free email with a taken username is 400 "Username already taken"; the new user is appended active, with stripped username and name, a lower-cased stripped email, the digest of the password, the submitted role (default "user") and both times equal to `now`, and the session is the one opened for it; every rejection is a 400 |
| Auth.RegisterReportsFirstMissingField | controllers/auth_controller.py:17-20 | the first missing field in the order username, email, password, name is the one reported |
| Auth.RegisterChecksEmailFirst | controllers/auth_controller.py:22-27 | a taken email is reported before a taken username |
| Auth.RegisterAdmitsCaseVariantEmail | controllers/auth_controller.py:23-24 | an email differing from a stored one only in letter case passes the duplicate check and is stored equal to it |
| Auth.RegisterAdmitsPaddedUsername | controllers/auth_controller.py:26-27 | a username differing from a stored one only in surrounding spaces passes the duplicate check and is stored equal to it |
| Auth.RegisterStoresDuplicateEmail | controllers/auth_controller.py:23-24 | whenever a new email differs from a stored one but normalises to it, registration as written succeeds and the store stops being unique |
| Auth.RegisterStoresDuplicateUsername | controllers/auth_controller.py:26-27 | whenever a new username differs from a stored one but strips to it, registration as written succeeds and the store stops being unique |
| Auth.RegisterNormalised | controllers/auth_controller.py:22-37 | with the duplicate checks made on the normalised values, registration succeeds exactly when the normalised email, the normalised username and the new id are all unused; a missing field is reported as the code reports it, a taken normalised email is 400 "Email already registered", otherwise a taken normalised username is 400 "Username already taken", and an id clash is the 500 the failed save gives |
| Auth.RegisterNormalisedKeepsUsersUnique | controllers/auth_controller.py:22-37 | corrected registration keeps ids, emails and usernames unique |
| Auth.RegisterAcceptsWhatNormalisedAccepts | controllers/auth_controller.py:22-37 | on a store of normalised accounts, every registration the corrected version accepts is accepted by the code as written with the same account, session and store |
| Auth.RegisterKeepsUsersNormalised | controllers/auth_controller.py:30-37 | a registration as written keeps every stored email lower-cased and stripped and every stored username stripped, so the normalised-store hypothesis of the comparison with the corrected version holds for any store built by registrations |
| Auth.RegisteredAsWrittenSessionResolves | controllers/auth_controller.py:30-63 | as written, the cookie a registration hands back is non-empty and verifies to the new account until the lifetime has passed, whenever the id is fresh |
| Auth.RegisteredSessionResolves | controllers/auth_controller.py:39-63 | the cookie from a corrected registration is non-empty and verifies to the new account until the token lifetime passes |
| Auth.LookupLogin | controllers/auth_controller.py:80-83 | login finds the user by the lower-cased identifier as email first, and only otherwise by the identifier as username |
| Auth.Login | controllers/auth_controller.py:70-121 | login succeeds exactly when both fields are filled, the stripped identifier finds a user, the password checks and the user is active; a missing field is 400 "Login and password are required"; an unknown identifier or wrong password is 401 "Invalid credentials"; a matching password on an inactive account is 401 "Account is deactivated"; a success is the session opened for the account found |
| Auth.LoginHidesUnknownAccounts | controllers/auth_controller.py:85-86 | an unknown identifier and a wrong password give the same 401 "Invalid credentials" |
| Auth.DeactivatedMessageMeansPasswordMatched | controllers/auth_controller.py:85-90 | "Account is deactivated" is only answered for a stored, inactive account whose password matched |
| Auth.LoginPrefersEmail | controllers/auth_controller.py:80-83 | an identifier that is one account's email and another's username logs into the email's account |
| Auth.LoginByEmail | controllers/auth_controller.py:80-93 | an identifier that, stripped and lower-cased, is a stored active account's email, given with that account's password, opens exactly that account's session |
| Auth.RegisteredUserCanLogIn | controllers/auth_controller.py:30-37 | after corrected registration, the submitted email and password log into the new account |
| Auth.Logout | controllers/auth_controller.py:123-141 | logout sets an empty, already expired cookie with the session cookie's name and flags |
| Auth.GetCurrentUser | controllers/auth_controller.py:143-165 | the profile reports the attached user's id, username, email, name, role, active flag and creation time; with none attached the answer is 401 "User not authenticated" |
| Auth.ChangePassword | controllers/auth_controller.py:167-196 | a change succeeds exactly when a user is attached, both fields are filled, the current password checks and the new one has at least 6 characters; 401 means exactly that no user is attached; the three checks after it each give their own 400 message in order; a success changes only that user's digest, to the digest of the new password, and `updatedAt` |
| Auth.ChangePasswordChecksCurrentFirst | controllers/auth_controller.py:180-186 | a wrong current password is reported before a too-short new one |
| Auth.ChangedPasswordLogsIn | controllers/auth_controller.py:188-191 | after a change, the account's stored email with the new password logs into that same account |
| Tasks.FindOwned | controllers/task_controller.py:128 | the lookup by id and owner finds a task with both; there is none exactly when no stored task has both |
| Tasks.CreateDueDate | controllers/task_controller.py:30-36 | an absent or empty due date means none; otherwise it must parse, and a date that does not parse is 400 "Invalid due_date format. Use ISO format" |
| Tasks.CreateTask | controllers/task_controller.py:10-63 | creation succeeds exactly when a user is attached, title and description are filled and within 200 and 1000 characters, and a given due date parses; no user is exactly the 401 "User not authenticated"; with valid text, the due-date 400 is given exactly when a given due date does not parse; the task is appended with stripped text, the caller as owner, the submitted or default status and priority, no completion time and both times equal to `now`; failure leaves the store unchanged |
| Tasks.CreateChecksPresenceFirst | controllers/task_controller.py:20-21 | a missing title or description is reported before any length problem |
| Tasks.CreateLengthBoundaries | controllers/task_controller.py:24-28 | a title of exactly 200 characters and a description of exactly 1000 are accepted, and one more character is refused |
| Tasks.CreateRejectsLongTitle | controllers/task_controller.py:24-25 | a submitted title over 200 characters is refused with 400 "Title must be less than 200 characters" |
| Tasks.CreateRejectsLongDescription | controllers/task_controller.py:27-28 | with a title within its limit, a submitted description over 1000 characters is refused with 400 "Description must be less than 1000 characters" |
| Tasks.AppendFreshTask | controllers/task_controller.py:39-47 | appending a task with a fresh id keeps ids unique, and only its owner finds it |
| Tasks.CreateThenFind | controllers/task_controller.py:39-47 | a created task is found by its owner and by no one else |
| Tasks.GetTask | controllers/task_controller.py:120-147 | the result is the caller's stored task with that id; it is 404 exactly when the caller owns no task with that id |
| Tasks.DeleteTask | controllers/task_controller.py:217-234 | a delete removes one stored task with that id owned by the caller; it is 404 exactly when there is none, and failure leaves the store unchanged |
| Tasks.DeleteRemovesOnlyThatTask | controllers/task_controller.py:225-229 | with unique ids, a delete removes exactly the task with that id, keeps every other task, and leaves every other user's tasks as they were |
| Tasks.RemoveAtDropsId | controllers/task_controller.py:229 | removing a task from a store with unique ids drops that id and nothing else |
| Tasks.FoundTaskSeesOnlyOwnTasks | controllers/task_controller.py:128 | the owner-scoped lookup depends only on the caller's own tasks |
| Tasks.OthersTasksAreInvisible | controllers/task_controller.py:128-130 | two stores holding the same tasks for the caller give the caller the same get, update and delete responses |
| Tasks.ForeignTaskIsNotFound | controllers/task_controller.py:157-159 | another user's task gives 404 "Task not found" to get, update and delete, and nothing changes |
| Tasks.UpdateFieldsSpec | controllers/task_controller.py:163-195 | an update is accepted exactly when every present field is acceptable; the updated task changes only the present fields, stamps `completedAt` only if it was unset, and never clears it; a rejection names the first bad field |
| Tasks.UpdateFieldsAccepts | controllers/task_controller.py:163-195 | when every present field is acceptable the update succeeds with a partial update of exactly those fields |
| Tasks.UpdateTask | controllers/task_controller.py:149-215 | for a task the caller owns, the update succeeds exactly when every present field is acceptable, and a rejection is the 400 of the first bad field; a success replaces the caller's task in place with the partially updated one, with `updatedAt` set to `now`; no user is 401; an unknown or foreign id is 404; any failure leaves the store exactly as it was |
| Tasks.UpdateReportsFirstInvalidField | controllers/task_controller.py:163-195 | among several bad fields, the first in the order title, description, status, priority, due date is reported |
| Tasks.CompletionIsIdempotent | controllers/task_controller.py:174-178 | a second "completed" update keeps the first completion time |
| Tasks.GetTaskStats | controllers/task_controller.py:236-269 | the total counts the caller's tasks, each status count the caller's tasks with that status, and the overdue count the caller's tasks with a due date before `now` that are neither completed nor cancelled; no count exceeds the total; with no user attached the answer is 401 |
| Tasks.StatsAreConsistent | controllers/task_controller.py:243-255 | when every task of the caller has a recognised status, the reported status counts add up to the reported total and the overdue count is at most pending plus in progress |
| Tasks.StatusCountsAddUp | controllers/task_controller.py:244-248 | when every task has a recognised status, the four status counts add up to the total |
| Tasks.OverdueAreOpen | controllers/task_controller.py:251-255 | overdue tasks are open ones, so the overdue count is at most pending plus in progress |
| Tasks.CompletingRemovesFromOverdue | controllers/task_controller.py:174-178 | completing an overdue task lowers the caller's overdue count by exactly one |
| Listing.InsertByCreation | controllers/task_controller.py:89 | inserting a task into a newest-first sequence keeps it newest first and adds exactly that task |
| Listing.SortNewestFirst | controllers/task_controller.py:89 | the `-created_at` order is newest first and a permutation of its input |
| Listing.NewestFirstSlice | controllers/task_controller.py:89 | a page of a newest-first sequence is newest first |
| Listing.PageSlice | controllers/task_controller.py:89 | `skip(skip).limit(limit)` holds the elements from position `skip` on, at most `limit` of them |
| Listing.PageCount | controllers/task_controller.py:113 | the number of pages is the least count of `limit`-sized pages that holds `total` items |
| Listing.Paginate | controllers/task_controller.py:75-118 | a page is produced exactly when page and limit are at least 1, with its items starting at `(page-1)*limit` and the full total and page count; otherwise the answer is 500 |
| Listing.OwnListingMembers | controllers/task_controller.py:80-86 | every listed task is a stored task of the caller matching each given filter |
| Listing.OwnPageFacts | controllers/task_controller.py:80-89 | every page of the user listing is newest first and holds only the caller's matching tasks |
| Listing.GetTasks | controllers/task_controller.py:65-118 | the listing succeeds exactly when a user is attached and page and limit are at least 1, and no user is 401 "User not authenticated"; the pagination block reports the requested page and limit, the total of every matching task of the caller and the least number of `limit`-sized pages holding them; the page holds at most `limit` of them, newest first |
| Listing.GetTasksIsPage | controllers/task_controller.py:77-89 | with a valid page and limit, the response items are the page of the caller's ordered matches starting at `(page-1)*limit` |
| Listing.PagesPartitionListing | controllers/task_controller.py:77-89 | asking for page `i div limit + 1` returns item `i` of the ordered listing at offset `i mod limit`, so the pages together cover the listing in order |
| Listing.PaginationExample | controllers/task_controller.py:75-113 | 25 matching tasks at page 2 with limit 10 give listing items 11 to 20, total 25 and 3 pages |
| Listing.Summarise | controllers/task_controller.py:295-299 | the admin item carries the task, and an owner summary exactly when the owner is stored; the summary reports that stored owner's id, username and email |
| Listing.GetAllTasks | controllers/task_controller.py:272-317 | a missing or non-admin caller gets 403; otherwise a page of every user's tasks, newest first, with the requested page and limit, total equal to the number of stored tasks and the least number of `limit`-sized pages holding them |
| Listing.AdminPagesCoverStore | controllers/task_controller.py:280-286 | the admin pages cover the store: position `i` of the newest-first store is item `i mod limit` of page `i div limit + 1` |
| Routes.ListOwnTasks | routes/task_routes.py:22-25 | behind `auth_required`, the listing succeeds exactly for a verified caller with valid page and limit, and shows only that caller's tasks; a 401 is always the guard's |
| Routes.ShowTask | routes/task_routes.py:28-31 | behind `auth_required`, a shown task is the verified caller's task with that id; failures are 401 or 404 |
| Routes.ListAllTasks | routes/task_routes.py:53-55 | behind `admin_required`, the admin listing succeeds exactly for a verified admin with valid page and limit, and a verified non-admin gets 403 |
| Routes.Me | routes/auth_routes.py:29-33 | behind `auth_required`, `/me` returns the active user the token names, and a failure is the guard's 401 |
| Routes.GuardedControllersNeverSeeAnonymous | middleware/auth_middleware.py:16-27 | behind `auth_required`, the controllers' own "User not authenticated" answer is never sent |
| Routes.SelfRegisteredAdminReachesAdminRoute | controllers/auth_controller.py:30-63 | as written, a client that registers with role "admin" under a fresh id reaches the admin listing with the cookie it is given, until the token expires |
| Routes.ForeignTaskThroughRouteIsNotFound | controllers/task_controller.py:128-130 | through the route, any valid session reading another user's task gets 404 "Task not found" |

## Left out

- The user and task schemas (`models/user.py`, `models/task.py`) are not part of this model. That covers field choices, unique indexes and `set_password`/`check_password`. Hashing is an abstract pair. Ids are supplied by the caller.
- Stored defaults are assumed, since those schemas are not part of this model. A new account is active, with `createdAt` and `updatedAt` both `now` (`Auth.NewUser`). A new task has no completion time and both times `now` (`Tasks.CreateTask`). The session lemmas rely on the new account being active (`Auth.RegisteredSessionResolves`, `Auth.RegisteredAsWrittenSessionResolves`, `Auth.RegisteredUserCanLogIn`).
- JWT encoding and HS256 signing are a foreign library. The model keeps only an abstract codec, the expiry comparison and the claims.
- Text.Lower: only ASCII letters are lower-cased, because Python's full Unicode case mapping is table data.
- Registration's `role` and creation's `status`/`priority` sent as JSON `null` would be stored as null. In the model they are stored as "".
- `page` or `limit` query values that are not integers make `int()` raise, giving a 500. The model takes them as integers.
- Listing.Paginate: a negative `limit` is reported as 500. `Listing.GetTasks`, `Listing.GetAllTasks`, `Routes.ListOwnTasks` and `Routes.ListAllTasks` inherit this. The database driver may accept a negative limit, and then floor division would give a page count.
- Every catch-all `except Exception` 500 path is out of scope. So are database errors and ObjectId parsing of `task_id`.
- Several calls read the clock more than once. `create_task` reads it in the schema defaults of `created_at` and `updated_at`. `update_task` reads it at lines 178 and 197. `register` reads it in the account's defaults and again in `generate_token`. The model uses one reading `now` per call, so the `createdAt`, `updatedAt`, `completedAt` and token `iat` of one call coincide (`Tasks.CreateTask`, `Tasks.UpdateTask`, `Auth.Register`).
- Tokens.IssueClaims: `generate_token` reads the clock once for `exp` and again for `iat`, so the signed `exp - iat` can fall short of the lifetime by the time between the two readings. The model takes one reading, so `exp - iat` is exactly the lifetime.
- JSON layout, `isoformat` formatting and the exact cookie header are not modelled. The cookie is a record of its attributes.
- Listing.Summarise: a task whose owner is no longer stored gets no owner summary. MongoEngine may instead raise on the dangling reference, which would be a 500.
- The app factory, CORS, health routes, configuration loading and concurrent requests are not modelled. The token lifetime and the cookie `secure` flag are parameters (`Auth.AuthConfig`).
- Tasks created at the same instant are listed in store order. The database leaves their order unspecified.

## Findings

| source | as written | input that shows it | evidently intended | confidence | as-written member | corrected member |
|---|---|---|---|---|---|---|
| controllers/auth_controller.py:23-24 | the duplicate-email check queries the raw submitted email, but line 32 stores it lower-cased and stripped | stored email "a@b"; register with email "A@b" | reject with 400 "Email already registered" | high, not executed | Auth.RegisterAdmitsCaseVariantEmail | Auth.RegisterNormalised |
| controllers/auth_controller.py:26-27 | the duplicate-username check queries the raw submitted username, but line 31 stores it stripped | stored username "bo"; register with username " bo" | reject with 400 "Username already taken" | high, not executed | Auth.RegisterAdmitsPaddedUsername | Auth.RegisterNormalised |

`Auth.Register` models the code as written. The two lemmas in the as-written column show a second account stored with the same email or username as an existing one. `Auth.RegisterNormalised` makes the checks on the normalised values. It is proved to keep the store unique (`Auth.RegisterNormalisedKeepsUsersUnique`), and its accounts can log in (`Auth.RegisteredUserCanLogIn`). On a store of normalised accounts, the two differ only in what the code as written lets through: on what the corrected version accepts it gives the same result (`Auth.RegisterAcceptsWhatNormalisedAccepts`), and registrations as written keep the store normalised (`Auth.RegisterKeepsUsersNormalised`). A unique index in the user schema, which is not part of this model, would turn the as-written case into a 500 rather than a stored duplicate. It would still not be the intended 400.

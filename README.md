# Portfolio core, modelled in Dafny

This project models the stateful and data-shaping core of a personal
portfolio web application (TypeScript, Next.js, a hosted Postgres database).
It covers:

- the in-memory request throttle (`RateLimiter`);
- the admin login route, with its per-IP failed-attempt lockout and its
  check order;
- the browser-side rate-limit hook that stores window records in local
  storage;
- the database query layer: the bounded retry, the null mapping of the
  profile query, the first-occurrence grouping reduces, the stats reduce,
  the technology join lists and the contact-form result;
- the about-page data hooks;
- the typewriter effect;
- the admin login form's attempt counter;
- the generic CRUD list manager;
- the admin data table's cell lookup.

The clock (`Date.now()`), database responses, fetch outcomes, header values
and environment variables are parameters. Where the source reads the clock
twice in one call, the model takes two parameters. Code that updates state
in place is modelled as a Dafny `class` whose methods are proved against
pure functions of the old state. The properties are proved about those
functions.

Modules, one per file:

- `RateLimiting` (`rate_limiter.dfy`)
- `LoginRoute` (`login_route.dfy`)
- `RateLimitHook` (`rate_limit_hook.dfy`)
- `Grouping` (`grouping.dfy`): the group-by shared by the reduces
- `Queries` (`queries.dfy`)
- `AboutData` (`about_data.dfy`)
- `Typing` (`typing_effect.dfy`)
- `AdminLoginForm` (`admin_login_form.dfy`)
- `CrudManager` (`crud_manager.dfy`)
- `DataTable` (`data_table.dfy`)
- `JsText` (`js_text.dfy`): the JavaScript string built-ins the core relies
  on (`split`, `trim`, `toLowerCase`)
- `Wrappers` (`wrappers.dfy`): `Option`

Where the design description and the code disagree, the model follows the
code:

- The server locks an IP out after 5 failures (`MAX_ATTEMPTS = 5` in
  app/api/admin/login/route.ts:9), not 3. Only the login form in the
  browser uses 3.
- The login route keeps its own failed-attempt table. It does not go
  through `RateLimiter`.
- The throttle uses fixed windows, not sliding ones.

## Model

| member | source | states |
|---|---|---|
| RateLimiting.Key | lib/rate-limit/rate-limiter.ts:18-20 | the key is the identifier, one colon, then the action, with nothing in between |
| RateLimiting.Admit | lib/rate-limit/rate-limiter.ts:36-59 | admitted iff the key has no live entry or its count is below the limit; a refusal leaves the store as it was; the key is stored afterwards; no other key is added, removed or changed |
| RateLimiting.Call | lib/rate-limit/rate-limiter.ts:31-60 | after one call, the other keys are exactly the unexpired ones, each unchanged, and the caller's key is stored |
| RateLimiting.Remaining | lib/rate-limit/rate-limiter.ts:62-71 | never negative (unless the limit itself is); the full limit when there is no live window; below the limit, or 0, once a request was counted |
| RateLimiting.ResetAt | lib/rate-limit/rate-limiter.ts:73-82 | a live window's end, which is not before now; 0 without a live window |
| RateLimiting.Sweep | lib/rate-limit/rate-limiter.ts:22-29 | cleanup keeps exactly the entries with `now <= resetTime`, each unchanged, and deletes the rest |
| RateLimiting.AdmitFreshKey | lib/rate-limit/rate-limiter.ts:38-44 | a key with no entry is admitted and gets `{count: 1, resetTime: now + windowMs}` |
| RateLimiting.AdmitDeniesAtLimit | lib/rate-limit/rate-limiter.ts:54-56 | a live entry at or over the limit is refused and the store is unchanged |
| RateLimiting.AdmitIncrements | lib/rate-limit/rate-limiter.ts:58-59 | a live entry below the limit is admitted; its count goes up by one, its window end stays, and nothing else in the store changes |
| RateLimiting.AdmitKeepsBound | lib/rate-limit/rate-limiter.ts:54-59 | every stored count stays within 1..max(1, maxRequests) |
| RateLimiting.AdmitFrames | lib/rate-limit/rate-limiter.ts:36-59 | admission adds, removes and changes no key other than its own |
| RateLimiting.RemainingPredictsAdmission | lib/rate-limit/rate-limiter.ts:31-71 | with maxRequests >= 1, the next call is admitted iff the remaining count reported at the same instant is positive |
| RateLimiting.ResetAtAfterCall | lib/rate-limit/rate-limiter.ts:73-82 | after an admitted call the reported reset time is the stored window end, at or after now |
| RateLimiting.ExpiredWindowResets | lib/rate-limit/rate-limiter.ts:46-52 | once now > resetTime the next call is admitted with count back at 1 and a new window |
| RateLimiting.KeysCollide | lib/rate-limit/rate-limiter.ts:18-20 | `("a:b","c")` and `("a","b:c")` map to the same counter |
| RateLimiting.KeyInjectiveWithoutColon | lib/rate-limit/rate-limiter.ts:18-20 | when identifiers contain no colon, the key determines the pair |
| RateLimiting.BurstInWindow | lib/rate-limit/rate-limiter.ts:31-60 | inside one window, calls are admitted while `used + i < maxRequests` and refused after; the window end never moves; the final count is `used + calls`, capped at the limit (or `used` if it was already there) |
| RateLimiting.FirstMaxRequestsAdmitted | lib/rate-limit/rate-limiter.ts:31-60 | within a window, the first maxRequests calls for a fresh key succeed and every later one fails |
| RateLimiting.RateLimiter.constructor | lib/rate-limit/rate-limiter.ts:8-16 | an empty store with the given limit and window |
| RateLimiting.RateLimiter.Cleanup | lib/rate-limit/rate-limiter.ts:22-29 | the loop deleting entries in place leaves exactly `Sweep` of the old store |
| RateLimiting.RateLimiter.IsAllowed | lib/rate-limit/rate-limiter.ts:31-60 | verdict and new store are cleanup at the first clock reading followed by the admission step at the second; the count bound is preserved |
| RateLimiting.RateLimiter.GetRemainingRequests | lib/rate-limit/rate-limiter.ts:62-71 | maxRequests for an absent or expired key, else max(0, maxRequests - count); in 0..maxRequests; no mutation |
| RateLimiting.RateLimiter.GetResetTime | lib/rate-limit/rate-limiter.ts:73-82 | 0 for an absent or expired key, else the stored reset time; no mutation |
| LoginRoute.ClientIP | app/api/admin/login/route.ts:12-16 | the IP is never empty; with `x-forwarded-for` present, anything but its first piece or "unknown" is the `x-real-ip` value |
| LoginRoute.LockCheck | app/api/admin/login/route.ts:18-29 | the check only ever deletes, and only this IP's record; a lock means a live record with at least 5 failures, and the table is unchanged |
| LoginRoute.Recorded | app/api/admin/login/route.ts:31-43 | this IP's record is stamped with now; a live record counts one more; other IPs are untouched |
| LoginRoute.Handle | app/api/admin/login/route.ts:49-119 | a request changes no record but its client's; only a wrong password adds to or changes a record, and every other outcome can at most delete |
| LoginRoute.ClientIPFirstSegment | app/api/admin/login/route.ts:12-16 | the IP is never empty; it is the first comma-separated piece of x-forwarded-for, untrimmed, when that piece is non-empty; else x-real-ip if non-empty; else "unknown" |
| LoginRoute.LockCheckSpec | app/api/admin/login/route.ts:18-29 | locked iff a record exists, is not stale (strictly more than 15 minutes old) and holds >= 5 failures; only this IP's stale record is deleted |
| LoginRoute.RecordedSpec | app/api/admin/login/route.ts:31-43 | an absent or stale record restarts at 1, a live one counts one more; stamped with now; other IPs untouched |
| LoginRoute.HandleKeepsBound | app/api/admin/login/route.ts:49-88 | every record holds 1..5 failures after any request, even though the lockout check and the recording read the clock at different times |
| LoginRoute.LockedOutFirst | app/api/admin/login/route.ts:51-59 | a locked-out IP gets 429 before configuration, body and password are looked at, even with the right password; nothing is recorded |
| LoginRoute.MisconfigurationPrecedence | app/api/admin/login/route.ts:61-70 | a missing or empty password or signing secret gives 500, never 401, whatever was sent |
| LoginRoute.MissingPasswordRejected | app/api/admin/login/route.ts:75-80 | a missing or empty password gives 400 and records nothing |
| LoginRoute.WrongPasswordRecordsOneFailure | app/api/admin/login/route.ts:82-85 | a wrong password records exactly one failure for this IP and gives 401 |
| LoginRoute.CorrectPasswordIssuesToken | app/api/admin/login/route.ts:87-113 | the right password clears this IP's record only and sets the `admin-token` cookie: httpOnly, sameSite strict, path /, secure in production, 3600 s, with an admin claim stamped now |
| LoginRoute.WrongPasswordsAccumulate | app/api/admin/login/route.ts:31-85 | wrong passwords at most 15 minutes apart each get 401 and add up in one record stamped with the last time |
| LoginRoute.FiveFailuresLockOut | app/api/admin/login/route.ts:9-85 | five such failures from a clean IP lock it: until 15 minutes after the fifth, every request gets 429 and the table stays as it is |
| LoginRoute.LockoutExpires | app/api/admin/login/route.ts:18-113 | once the record is stale, the right password succeeds again and the record is cleared |
| LoginRoute.LoginRoute.constructor | app/api/admin/login/route.ts:8 | the failed-attempt table starts empty |
| LoginRoute.LoginRoute.IsRateLimited | app/api/admin/login/route.ts:18-29 | result and new table are `LockCheck` of the old table |
| LoginRoute.LoginRoute.RecordFailedAttempt | app/api/admin/login/route.ts:31-43 | the new table is `Recorded` of the old one |
| LoginRoute.LoginRoute.ClearFailedAttempts | app/api/admin/login/route.ts:45-47 | removes exactly this IP's record |
| LoginRoute.LoginRoute.Post | app/api/admin/login/route.ts:49-119 | response and new table follow the route's early returns in order (429, 500, 500 on a malformed body, 400, 401, 200); the 1..5 bound is kept |
| RateLimitHook.StorageKey | hooks/use-rate-limit.ts:18-22 | the storage key is `rate_limit_` followed by the limiter's `identifier:action` key |
| RateLimitHook.CeilDiv | hooks/use-rate-limit.ts:34 | `Math.ceil(d / k)`: the least q with d <= q*k |
| RateLimitHook.Effective | hooks/use-rate-limit.ts:25-30 | the window checked is either a fresh empty one ending `windowMs` from now, or the stored one while it is live |
| RateLimitHook.Check | hooks/use-rate-limit.ts:32-48 | an admission writes back a count within the limit, at least 1, in the same window; a refusal means the effective count reached the limit |
| RateLimitHook.EffectiveWindow | hooks/use-rate-limit.ts:25-30 | a missing or ended record becomes `{0, now + windowMs}`; a live one is used as stored |
| RateLimitHook.CheckDecides | hooks/use-rate-limit.ts:32-48 | refused iff the effective count has reached the limit; otherwise one more request is written back in the same window |
| RateLimitHook.AllowedWithinLimit | hooks/use-rate-limit.ts:32-48 | a written-back count is in 1..maxRequests |
| RateLimitHook.WaitIsTimeLeft | hooks/use-rate-limit.ts:33-34 | the reported wait is the time left in the window rounded up to whole seconds, never negative |
| RateLimitHook.AgreesWithLimiter | hooks/use-rate-limit.ts:25-48 | for maxRequests >= 1 the hook admits exactly when `RateLimiter.isAllowed` would on the same record, and writes back the same record |
| RateLimitHook.DiffersFromLimiterBelowOne | hooks/use-rate-limit.ts:33 | with a limit of 0 the hook refuses a first request that the in-memory limiter admits |
| RateLimitHook.RateLimitHook.constructor | hooks/use-rate-limit.ts:13-14 | the hook starts with `isLimited` false |
| RateLimitHook.LocalStorage.constructor | hooks/use-rate-limit.ts:22 | the browser storage the hook reads and writes starts with no records |
| RateLimitHook.RateLimitHook.CheckRateLimit | hooks/use-rate-limit.ts:17-52 | a refusal sets `isLimited`, reports the wait and writes nothing; an admission writes back only its own key and clears `isLimited` |
| RateLimitHook.NothingPersistedUntilAllowed | hooks/use-rate-limit.ts:43-48 | a run of checks that admits nothing leaves a missing record missing |
| RateLimitHook.InWindow | hooks/use-rate-limit.ts:25-48 | inside one window, checks are admitted while `used + i < maxRequests` and refused after |
| RateLimitHook.FirstMaxRequestsAdmitted | hooks/use-rate-limit.ts:17-52 | within the window a fresh key opens, exactly the first maxRequests checks are admitted |
| RateLimitHook.NoneStaysRefused | hooks/use-rate-limit.ts:33 | with a limit below 1 every check is refused |
| Grouping.FindIndex | lib/database/queries.ts:212 | `acc.find`: the first group with the key, or none |
| Grouping.GroupRows | lib/database/queries.ts:211-225 | the reduce with an in-place push equals the group-by `GroupBy` |
| Grouping.GroupBySpec | lib/database/queries.ts:211-225 | group keys are the distinct keys in order of first occurrence; each group holds exactly its key's rows in input order; no row is lost or duplicated |
| Grouping.FirstOccurrencesSpec | lib/database/queries.ts:211-225 | the group keys are pairwise distinct and are exactly the keys that occur |
| Grouping.GroupCount | lib/database/queries.ts:211-225 | there are as many groups as distinct keys |
| Grouping.RowInItsGroup | lib/database/queries.ts:211-225 | every row lands in the group of its own key |
| Grouping.GroupHoldsOwnKey | lib/database/queries.ts:211-225 | every row of a group has that group's key |
| Grouping.GroupHeadIsFirstRow | lib/database/queries.ts:211-225 | a group's first item is the first row with its key |
| Queries.WithRetry | lib/database/queries.ts:39-50 | at most retries + 1 calls; the answer is the first call that returns; an error surfaces only after every call threw |
| Queries.RetryBudget | lib/database/queries.ts:36-50 | with MAX_RETRIES = 3: at most 4 calls; returns iff one of the first four returned; otherwise the fourth error |
| Queries.NeverThrowsRunsOnce | lib/database/queries.ts:39-42 | an operation that returns at once is called exactly once |
| Queries.GetProfile | lib/database/queries.ts:52-66 | 1 to 4 queries; an error surfaces only after 4; a row on the first try is returned at once |
| Queries.ProfileAttempt | lib/database/queries.ts:53-65 | a row is the profile; PGRST116 is null; any other error throws |
| Queries.GetProfileOutcomes | lib/database/queries.ts:52-66 | "no rows" answers null at once without a retry; other errors are thrown only after four failed queries |
| Queries.TechnologiesOf | lib/database/queries.ts:96-103 | a failed join gives `[]`; otherwise the list holds exactly the technologies of the non-null entries and is no longer than the join |
| Queries.TechnologiesOfAppend | lib/database/queries.ts:96-101 | `.filter(Boolean)` keeps order and repeats: one more join row appends its technology, if any, at the end |
| Queries.AttachTechnologies | lib/database/queries.ts:81-105 | each row keeps its place and gets the technologies of its own join |
| Queries.JoinFailureIsEmptyList | lib/database/queries.ts:96-99 | a failed join leaves its row with an empty list |
| Queries.FunFactGroups | lib/database/queries.ts:211-225 | one group per distinct category; the i-th group holds the category and facts of the i-th first-occurrence group |
| Queries.FunFactCategoriesSpec | lib/database/queries.ts:211-225 | as many groups as distinct categories, their categories pairwise distinct and in order of first occurrence, and every fact sits in the group of its own category |
| Queries.GroupFunFacts | lib/database/queries.ts:211-225 | the reduce gives `FunFactGroups`, the group-by on category |
| Queries.FunFactGroupSpec | lib/database/queries.ts:211-225 | each group holds exactly its category's facts in order; its icon name is that of the category's first fact |
| Queries.TechCategory | lib/database/queries.ts:258 | `category \|\| "Other"`: null and "" fall back to "Other" |
| Queries.GroupTechnologies | lib/database/queries.ts:257-271 | the reduce gives the group-by on `category \|\| "Other"` |
| Queries.UncategorisedGoToOther | lib/database/queries.ts:257-271 | a technology with no or empty category is in the "Other" group |
| Queries.LastWins | lib/database/queries.ts:450-456 | the last row always wins: its metric is present with its value; no rows give an empty map |
| Queries.PortfolioStats | lib/database/queries.ts:450-456 | the reduce gives `LastWins` of the rows |
| Queries.LastWinsKeys | lib/database/queries.ts:450-456 | the keys are exactly the metric names present |
| Queries.LastWinsValue | lib/database/queries.ts:450-456 | each metric maps to the value of its last row; later duplicates overwrite |
| Queries.ContactRow | lib/database/queries.ts:333-340 | the inserted row copies the four form fields and has status "unread" |
| Queries.StatAttempt | lib/database/queries.ts:461-469 | the stats call returns normally iff the RPC settled, even with an error in its answer, which is only logged |
| Queries.UpdatePortfolioStat | lib/database/queries.ts:460-471 | 1 to 4 RPC calls; throws iff the first four RPC calls all rejected |
| Queries.StatRpcErrorStillSucceeds | lib/database/queries.ts:343-350 | a stats RPC that answers with an error does not fail the submission: the form still reports success |
| Queries.SubmitAttempt | lib/database/queries.ts:331-355 | never throws; success iff the insert reported no error and `updatePortfolioStat` did not throw; otherwise error "Failed to submit form" |
| Queries.SubmitContactFormOnce | lib/database/queries.ts:325-356 | the retry wrapper calls the submission exactly once and passes its result through |
| AboutData.FetchedProfile | hooks/use-about-data.ts:27-47 | loading ends false; a row sets the profile; PGRST116 sets null with no error; any other error keeps the profile and sets "Failed to load profile" |
| AboutData.ProfileHookMatchesQuery | hooks/use-about-data.ts:32-40 | the hook shows no error exactly where `getProfile`'s single attempt returns, with the same profile |
| AboutData.ProfileHook.constructor | hooks/use-about-data.ts:23-25 | no profile, loading, no error |
| AboutData.ProfileHook.FetchProfile | hooks/use-about-data.ts:27-47 | the new state is `FetchedProfile` of the old |
| AboutData.TimelineGroups | hooks/use-about-data.ts:68-80 | one timeline category per group of the first-occurrence group-by on category, in that order |
| AboutData.TimelineGroupSpec | hooks/use-about-data.ts:68-80 | as many timeline groups as distinct categories, pairwise distinct, each with exactly its category's items in order |
| AboutData.InterleavedCategoriesGroupTogether | hooks/use-about-data.ts:64-80 | rows sorted by sort order that interleave categories still end in one group per category |
| AboutData.FetchedTimeline | hooks/use-about-data.ts:61-89 | loading ends false; rows become the groups; an error keeps the groups and sets "Failed to load timeline" |
| AboutData.TimelineHook.constructor | hooks/use-about-data.ts:57-59 | no groups, loading, no error |
| AboutData.TimelineHook.FetchTimeline | hooks/use-about-data.ts:61-89 | the new state is `FetchedTimeline` of the old |
| AboutData.FetchedFunFacts | hooks/use-about-data.ts:103-136 | loading ends false; rows become the same grouping as `getFunFactsByCategory`; an error sets "Failed to load fun facts" |
| AboutData.FunFactsHook.constructor | hooks/use-about-data.ts:99-101 | no groups, loading, no error |
| AboutData.FunFactsHook.FetchFunFacts | hooks/use-about-data.ts:103-136 | the new state is `FetchedFunFacts` of the old |
| Typing.DropLast | components/typing-effect.tsx:34 | `substring(0, length - 1)`, which gives "" on an empty string |
| Typing.Step | components/typing-effect.tsx:23-41 | typing appends exactly `word[charIndex]`; at full length nothing changes and the delete is scheduled; deleting drops exactly the last character; at 0 it switches to typing the next word mod the count; the prefix invariant is preserved |
| Typing.StartDeleting | components/typing-effect.tsx:30 | the timeout only sets `isDeleting` |
| Typing.Ticks | components/typing-effect.tsx:23-46 | the prefix invariant holds after any number of ticks |
| Typing.TypesRest | components/typing-effect.tsx:26-28 | typing ticks complete the word, one character each |
| Typing.DeletesRest | components/typing-effect.tsx:33-35 | `charIndex` deleting ticks empty the text |
| Typing.FullCycle | components/typing-effect.tsx:23-46 | a word is typed in `\|word\|` ticks, the next tick schedules the delete, and after the timeout `\|word\| + 1` ticks erase it and start the next word cyclically |
| Typing.TypingEffect.constructor | components/typing-effect.tsx:18-21 | initial state `(0, 0, "", false)`, satisfying the invariant |
| Typing.TypingEffect.HandleTyping | components/typing-effect.tsx:23-41 | the new state and scheduling flag are `Step` of the old state; the invariant is kept |
| Typing.TypingEffect.OnDeleteTimeout | components/typing-effect.tsx:30 | sets only `isDeleting`, keeping the invariant |
| AdminLoginForm.IsBlocked | components/admin/admin-login.tsx:23 | blocked exactly when the failed-attempt count has reached 3, which takes at least one failure; an unblocked form has at least one attempt left |
| AdminLoginForm.RemainingHint | components/admin/admin-login.tsx:129-133 | the hint shows iff 0 < attempts < 3, with 3 - attempts (1 or 2) |
| AdminLoginForm.Submit | components/admin/admin-login.tsx:26-72 | blocked: only a warning, no login call, no change; success: attempts 0; failure: attempts + 1, password cleared, "3 - new remaining", plus a lock toast exactly at the limit |
| AdminLoginForm.SubmitAsWritten | components/admin/admin-login.tsx:43-50 | as written every unblocked submit resets attempts to 0 and reports success |
| AdminLoginForm.AttemptsBounded | components/admin/admin-login.tsx:23-69 | the counter never passes 3 |
| AdminLoginForm.ThreeFailuresBlock | components/admin/admin-login.tsx:23-69 | three rejected logins from a fresh form block it, and the next submit makes no login call |
| AdminLoginForm.AsWrittenNeverBlocks | components/admin/admin-login.tsx:43-50 | as written, no number of submits ever blocks the form |
| AdminLoginForm.AsWrittenDiffersOnRejection | components/admin/admin-login.tsx:43-60 | on a rejected password the awaited version counts 1 failure and clears the field; as written, 0 and the field is kept |
| AdminLoginForm.LoginForm.constructor | components/admin/admin-login.tsx:16-19 | empty password, 0 attempts, not loading |
| AdminLoginForm.LoginForm.SetPassword | components/admin/admin-login.tsx:106 | sets only the password |
| AdminLoginForm.LoginForm.HandleSubmit | components/admin/admin-login.tsx:26-72 | new state, toasts and login call are `Submit` of the old state |
| CrudManager.Filtered | hooks/use-crud-manager.ts:52-59 | a term that is all whitespace shows every item; otherwise `searchFilter(items, lower-cased term)` |
| CrudManager.FilterIgnoresCase | hooks/use-crud-manager.ts:52-59 | lower-casing the term first changes nothing |
| CrudManager.FilterEffect | hooks/use-crud-manager.ts:52-59 | only the filtered view changes, and afterwards it agrees with the items and the term; a blank term shows every item |
| CrudManager.OpenCreate | hooks/use-crud-manager.ts:62-66 | the create dialog is open with the empty form and no selection; nothing else changes, including the edit flag |
| CrudManager.OpenEdit | hooks/use-crud-manager.ts:68-72 | the edit dialog is open on the item, with its copy in the form; nothing else changes |
| CrudManager.Close | hooks/use-crud-manager.ts:74-79 | both dialogs closed, no selection, empty form; the list, the term and loading unchanged |
| CrudManager.Load | hooks/use-crud-manager.ts:28-44 | success sets both lists to the fetched data; failure keeps them and raises the error toast; loading ends false |
| CrudManager.CloseUndoesOpen | hooks/use-crud-manager.ts:62-79 | closing after opening either dialog equals closing; closing is idempotent |
| CrudManager.DialogsKeepList | hooks/use-crud-manager.ts:62-79 | the dialog handlers leave items, filtered items, search term and loading alone |
| CrudManager.BothDialogsCanBeOpen | hooks/use-crud-manager.ts:62-72 | opening create leaves the edit flag, so "edit then create" leaves both open |
| CrudManager.LoadThenFilter | hooks/use-crud-manager.ts:28-59 | a successful load followed by the filter effect shows the data filtered by the existing term |
| CrudManager.CrudManager.constructor | hooks/use-crud-manager.ts:17-24 | empty lists, loading, empty term, no selection, dialogs closed, initial form |
| CrudManager.CrudManager.ApplyFilter | hooks/use-crud-manager.ts:52-59 | the filtered list becomes `Filtered` of items and term; nothing else changes |
| CrudManager.CrudManager.SetSearchTerm | hooks/use-crud-manager.ts:117 | sets only the term |
| CrudManager.CrudManager.SetFormData | hooks/use-crud-manager.ts:118 | sets only the form |
| CrudManager.CrudManager.OpenCreateDialog | hooks/use-crud-manager.ts:62-66 | resets the form, clears the selection, opens create, leaves the edit flag |
| CrudManager.CrudManager.OpenEditDialog | hooks/use-crud-manager.ts:68-72 | selects the item, copies it into the form, opens edit |
| CrudManager.CrudManager.CloseDialogs | hooks/use-crud-manager.ts:74-79 | closes both dialogs, clears the selection, resets the form |
| CrudManager.CrudManager.HandleCreate | hooks/use-crud-manager.ts:82-88 | a placeholder toast, then the same state as `closeDialogs` |
| CrudManager.CrudManager.HandleUpdate | hooks/use-crud-manager.ts:90-96 | a placeholder toast, then the same state as `closeDialogs` |
| CrudManager.CrudManager.HandleDelete | hooks/use-crud-manager.ts:98-103 | only a placeholder toast; no state changes |
| CrudManager.CrudManager.LoadData | hooks/use-crud-manager.ts:28-44 | new state and toast are `Load` of the old state |
| DataTable.OrEmpty | components/admin/shared/data-table.tsx:59 | `v ?? ""` is never null or undefined and keeps any other value |
| DataTable.Get | components/admin/shared/data-table.tsx:57 | an object's own field, else undefined |
| DataTable.CellValue | components/admin/shared/data-table.tsx:42-67 | a renderer always wins, regardless of the key; otherwise the cell is a value that is never null or undefined |
| DataTable.PlainCell | components/admin/shared/data-table.tsx:66 | `item[key]`, or "" when absent, null or undefined |
| DataTable.Lookup | components/admin/shared/data-table.tsx:49-59 | an empty path is the value itself; one segment is a property read, or undefined on null or undefined; any segment on a non-object gives undefined |
| DataTable.LookupAppend | components/admin/shared/data-table.tsx:49-59 | walking `p + q` is walking `p` then `q` |
| DataTable.DottedCellEmptyOnNullishPrefix | components/admin/shared/data-table.tsx:47-59 | reaching null or undefined before the last segment gives "" |
| DataTable.DottedAgreesWithPlain | components/admin/shared/data-table.tsx:47-66 | for a key without a dot, the path walk gives the same cell as the plain branch |
| DataTable.NestedField | components/admin/shared/data-table.tsx:47-59 | `a.b` yields field b of the object in field a |
| DataTable.GetCellValue | components/admin/shared/data-table.tsx:42-67 | the loop with early return over the split key computes `CellValue` |
| DataTable.HeaderCells | components/admin/shared/data-table.tsx:99-107 | one header per column, plus "Actions" when rows have actions |
| DataTable.TableBody | components/admin/shared/data-table.tsx:110-135 | loading: exactly 3 skeleton rows as wide as the header; no data: one cell spanning `columns.length + (actions ? 1 : 0)`; otherwise one row per item |
| JsText.Split | app/api/admin/login/route.ts:13 | `String.prototype.split` on one character: at least one piece, and no piece contains the separator |
| JsText.JoinSplit | components/admin/shared/data-table.tsx:49 | joining the pieces with the separator gives the string back |
| JsText.SplitJoin | components/admin/shared/data-table.tsx:49 | splitting a join of separator-free pieces gives the pieces back |
| JsText.SplitHead | app/api/admin/login/route.ts:13 | the first piece is a prefix, followed by the separator or the end |
| JsText.SplitSingle | components/admin/shared/data-table.tsx:47-49 | the split is the whole string iff the separator does not occur |
| JsText.Trim | hooks/use-crud-manager.ts:53 | the result is a slice of the string with only white space cut from either side, and it neither starts nor ends with white space |
| JsText.TrimEmptyIffBlank | hooks/use-crud-manager.ts:53 | `trim()` is empty iff every character is JavaScript whitespace |
| JsText.ToLower | hooks/use-crud-manager.ts:56 | lower-cases each character, leaving no capital letters |
| JsText.ToLowerIdempotent | hooks/use-crud-manager.ts:56 | lower-casing twice equals lower-casing once |

## Left out

- Clocks, timers and delays are left out: `Date.now()`, `setTimeout`, the
  1.5 s submit delay, the typing speeds and `RETRY_DELAY`. Clock readings
  are parameters and a timer firing is a transition.
- Database, network and cookie I/O is left out: Supabase calls, `fetch`,
  `cookies()`, `NextRequest`. Responses and outcomes are parameters. Ordering
  done by the database (`.order(...)`) is taken as given in the input rows.
- JSON encoding is left out: `JSON.parse`/`JSON.stringify` of stored records
  and request bodies. A stored record is a value and a body is parsed or
  `Malformed`.
- `getUserIdentifier` (lib/rate-limit/rate-limiter.ts:92-104) is left out.
  It uses local storage and `Math.random`, so the identifier is a parameter.
- JWT signing and verification (`jsonwebtoken`) are left out. The token is
  an abstract value holding its claims, its secret and its expiry string.
  The verify route, with its hard-coded fallback secret, is not part of
  this model.
- Concurrency and interleaving at `await` points are left out. Every handler
  runs to completion.
- React scheduling is left out. Consecutive state setters in one handler are
  applied in order. An effect is a separate transition (`ApplyFilter`) that
  the caller runs after `items` or `searchTerm` change.
- Toasts and rendering are left out. Toasts are tags without their text. JSX,
  styling, animation and icons are not modelled.
- Numbers are unbounded integers, not IEEE doubles. Counts and millisecond
  times never reach the precision limit in practice.
- Default arguments become ordinary parameters that callers pass
  explicitly. Examples are `new RateLimiter(maxRequests = 10, windowMs = 60000)`,
  `isAllowed(identifier, action = "default")` and `withRetry(operation,
  retries = MAX_RETRIES)`. Nothing is lost: passing the default value
  gives the same behaviour.
- `LoginRoute.Handle`: a JSON body whose `password` is not a string (a
  number, an object) is not modelled. Only absent or string passwords are.
- `JsText.LowerChar`: lower-cases ASCII letters only. Unicode case mapping
  beyond ASCII is not modelled.
- `DataTable.Get`: a property read on a primitive (for example `"abc".length`)
  gives `undefined` here. Inherited and prototype properties (`__proto__`,
  getters that throw, and so the `catch` branch) are not modelled. Column
  keys are strings only, not other `keyof T` values.
- `Typing.TypingEffect.constructor`: requires a non-empty `texts`. With an
  empty list the first tick reads `.length` of `undefined` and throws.
  Changing `texts` between renders is not modelled.
- `Typing.Step`: strings are sequences of Unicode characters, while the
  source's `.length`, `charAt` and `substring` count UTF-16 code units. A
  character outside the Basic Multilingual Plane takes two ticks there
  (showing half a surrogate pair in between) and one tick here, so
  `FullCycle`'s tick count differs for such texts. The hero section passes
  ASCII texts only.
- `AboutData.TimelineItem`: holds only the fields the hook uses (id,
  category, sort order). The other columns pass through untouched.
- `CrudManager.CrudManager`: the form type is a type parameter. The
  `{ ...item }` copy is a function the page supplies.
- The other query functions in lib/database/queries.ts are left out. They
  are plain selects and updates with no logic beyond `withRetry` and an
  error message: `getAllTechnologies`, `getEducation`, `getCertifications`,
  `getApprovedTestimonials`, `getConnections`, `getPendingReviews`,
  `getFeedback`, `updateConnectionStatus`, `approveReview`, `deleteReview`.
- lib/config/admin-config.ts is not part of this model. It sets
  `MAX_LOGIN_ATTEMPTS: 3`, which disagrees with the server's 5.

## Findings

| source | as written | input that shows it | evidently intended | confidence | as-written member | corrected member |
|---|---|---|---|---|---|---|
| components/admin/admin-login.tsx:43-50 | `login(password)` is not awaited. `login` is `async` (lib/auth/admin-auth.tsx:52), so `success` is a Promise, which is always truthy. Every unblocked submit takes the success branch and resets `attempts` to 0. | any unblocked submit whose password the server rejects: the form reports success, keeps the password and never counts the failure | `await login(password)`, so rejected passwords are counted, the field is cleared and the form blocks after three failures | high, not executed | AdminLoginForm.AsWrittenDiffersOnRejection | AdminLoginForm.ThreeFailuresBlock |

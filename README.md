# Rate-limit service: admission control, modelled in Dafny

The service answers one question for its callers: may this client address
make one more request to this endpoint now? Two admission rules decide it.

- The `/check` route validates the request body (`ip`, `endpoint`, `max`,
  `windowMs`), then runs a **fixed-window counter** against the
  `rate_limits` table. The table is keyed by (ip, endpoint), and each row holds
  `count`, `windowStart` and `lastUpdated`. A key without a row is allowed and
  gets `count = 1` in a window starting now. When the window has elapsed
  (`windowStart <= now - windowMs`), the row is reset the same way. Inside the
  window, a count below `max` is incremented and the request is allowed.
  Otherwise the request is denied with `retryAfterMs = max(0, windowStart +
  windowMs - now)` and nothing is written. Any failure inside the
  transaction rolls it back and answers "Database unavailable". One such
  failure follows from the schema: `count` is a 32-bit `INT`
  (db/connection.js:32), so an increment past 2147483647 is refused by the
  database.
- The `/health` route throttles itself with an in-memory **sliding log**. A map
  from client address to the list of its admitted request times. Each request
  drops the times at or before `now - 60000`. It is rejected if 60 or more
  times remain. Otherwise `now` is appended and the list is stored.

Modules, one per source unit:

- `validation.dfy`, module `CheckValidation`: the JSON body fields as
  JavaScript values, the ECMAScript `trim`, and the guard chain
  `validateCheckRequest`.
- `fixed_window.dfy`, module `FixedWindow`: the table as the class
  `RateLimitTable`, whose field is a `map<(string, string), Record>`. Its
  method `Decide` is one transaction. It is specified by the pure step function
  `Step`, and the lemmas about `Step` state the promises of the algorithm. The
  lemmas cover one call and runs of calls on one key (`Replay`).
- `check_route.dfy`, module `CheckRoute`: the `/check` handler. It validates
  first, then calls `Decide`.
- `health_route.dfy`, module `HealthRoute`: the `healthRequests` map as the
  class `HealthRequestLog` with method `Admit`, which is tied to the
  admission rule on one log, `AdmitStep`. It also holds the filter
  `KeepAfter` and the sliding-window guarantee over runs of requests
  (`RunLog`).

Inputs the source reads from its environment are parameters here. The clock
(`new Date()`, `Date.now()`) is `now`, in integer milliseconds. The client
address of `/health` is `clientIp`. Whether the database transaction fails is
the boolean `fault`: when it is true, `Decide` restores the table as it was at
`BEGIN` and returns `StoreError`. The overflow of the count column is not an
input: the model computes it, and it ends the same way.

One call of `/check` is one atomic step on the table. The row lock of
`SELECT ... FOR UPDATE` (routes/check.js:46) serialises calls on the same key.
Calls on different keys touch different rows.

## Model

| member | source | states |
|---|---|---|
| `CheckValidation.TrimStart` | routes/check.js:10 | the result is the suffix of the input after its leading JavaScript whitespace, and starts with a non-whitespace character if non-empty |
| `CheckValidation.TrimEnd` | routes/check.js:10 | the result is the prefix of the input before its trailing JavaScript whitespace, and ends with a non-whitespace character if non-empty |
| `CheckValidation.Trim` | routes/check.js:10-16 | `s.trim()` is empty exactly when every character of `s` is whitespace; otherwise it begins and ends with non-whitespace |
| `CheckValidation.Validate` | routes/check.js:7-27 | a body is accepted iff ip and endpoint are strings that are non-blank after trimming, `max` is a number >= 1 and `windowMs` a number >= 1000; a rejection names the first failing field in the order ip, endpoint, max, windowMs; an accepted request carries the body's values |
| `FixedWindow.Expired` | routes/check.js:64-68 | a record's window has elapsed exactly when `windowStart + windowMs <= now` |
| `FixedWindow.Step` | routes/check.js:37-114 | one transaction on the table before the call: a call that is not allowed writes nothing; an allowed one adds or rewrites only the row of its own key, and every other key keeps its record |
| `FixedWindow.RetryAfter` | routes/check.js:98-105 | the reported wait is never negative, is zero exactly when the window has ended, and otherwise is the time left until the window ends |
| `FixedWindow.RateLimitTable.constructor` | db/connection.js:27-36 | the table starts empty |
| `FixedWindow.RateLimitTable.Decide` | routes/check.js:35-114 | one transaction: the decision and the new table are those of `Step` on the table before the call, including the rollback on a failure or on a count past the `INT` column; every stored count stays within 1..2147483647 |
| `FixedWindow.StepRollsBackOnFault` | routes/check.js:108-114 | a failed transaction leaves the table unchanged and answers the store error |
| `FixedWindow.StepOnlyTouchesKey` | routes/check.js:53-91 | no key other than the requested one gains, loses or changes a record |
| `FixedWindow.StepFirstRequest` | routes/check.js:51-61 | a key without a record is allowed whatever `max` is, and the table gains exactly that one record, with count 1 and window start now |
| `FixedWindow.StepResetsExpiredWindow` | routes/check.js:67-79 | once `windowStart + windowMs <= now`, the call is allowed and the record becomes count 1, window start now, whatever the old count |
| `FixedWindow.StepIncrementsActiveWindow` | routes/check.js:82-94 | in an active window with count below `max` and below 2147483647, the call is allowed, the count rises by exactly one and the window start is kept |
| `FixedWindow.StepDeniesExactlyAtQuota` | routes/check.js:82-114 | a call is denied iff the window is active and the count has reached `max`; a denial writes nothing and its wait is strictly positive and ends with the window; a fault-free call fails as a store error iff the window is active and the count is below `max` but already 2147483647, and then writes nothing |
| `FixedWindow.DenialWaitDecreases` | routes/check.js:98-105 | for the same record, a later denial reports a strictly shorter wait |
| `FixedWindow.StepKeepsCountsInColumn` | routes/check.js:51-94 | no call makes a stored count drop below one or leave the 32-bit `INT` column |
| `FixedWindow.StepNeverExceedsMax` | routes/check.js:83-94 | a call never raises a count above `max`: a count above `max` afterwards was already stored and untouched |
| `FixedWindow.Replay` | routes/check.js:37-106 | successive calls on one key give one decision per call |
| `FixedWindow.ReplayOnlyTouchesKey` | routes/check.js:51-106 | a run of calls on one key adds no other key and leaves every other key's record as it was |
| `FixedWindow.ActiveWindowStep` | routes/check.js:82-114 | inside the key's current window, a fault-free call is allowed iff the count is below both `max` and 2147483647, and then raises the count by one keeping the window start; otherwise it writes nothing and is a store error when the count is still below `max` (the `INT` overflow), a denial with the time left until the window ends when it is not |
| `FixedWindow.ActiveWindowRun` | routes/check.js:82-106 | for calls inside the key's current window, call `i` is allowed iff `i < min(max, 2147483647) - count`, and every later call is denied with the time left until the window ends, or fails as a store error when `max` exceeds the `INT` range |
| `FixedWindow.AllowedPrefixCount` | routes/check.js:82-95 | when exactly the first `q` calls are allowed, `min(n, q)` calls are allowed |
| `FixedWindow.ActiveWindowRecord` | routes/check.js:82-95 | after calls inside the key's current window, the key's record has count raised by the number of allowed calls, the same window start, and the time of the last allowed call as `lastUpdated`; later calls leave it untouched |
| `FixedWindow.ActiveWindowRows` | routes/check.js:51-106 | after calls inside the key's current window, the table differs from the one before only in the key's record, which is as the last allowed call left it |
| `FixedWindow.ActiveWindowQuota` | routes/check.js:82-106 | while every call falls inside the key's current window, exactly the first `min(max, 2147483647) - count` calls are allowed (at most `n`), and the count grows by that many; the final table is the one before with only the key's record replaced by what the last allowed call wrote, so later calls write nothing; every later call is denied with the time left until the window ends, or, when `max` exceeds the `INT` range, fails as a store error |
| `FixedWindow.FreshKeyQuota` | routes/check.js:51-106 | for a new key, of `n` calls inside the window opened by the first one, exactly `min(n, max, 2147483647)` are allowed |
| `FixedWindow.ThreePerTenSecondsScenario` | routes/check.js:51-106 | with max 3 and a 10 s window, calls at 0, 1, 2 ms are allowed, 3 ms is denied with 9997 ms to wait, and 10001 ms is allowed with the count reset to 1 |
| `CheckRoute.HandleCheck` | routes/check.js:30-118 | a body that fails validation is answered with its first failing field and the table is untouched; a valid one gets the decision and new table of `Step` for its (ip, endpoint) |
| `HealthRoute.KeepAfter` | routes/health.js:16-19 | the filtered list holds exactly the entries above the cutoff, each as often as in the input, and is no longer than the input |
| `HealthRoute.AdmitStep` | routes/health.js:17-25 | on one client's log, a request is admitted iff fewer than 60 logged times are after `now - 60000`; then the log becomes those times followed by `now` (at most 60 entries), otherwise it is kept |
| `HealthRoute.HealthRequestLog.constructor` | routes/health.js:7 | the map starts empty |
| `HealthRoute.HealthRequestLog.Admit` | routes/health.js:10-26 | a request is admitted iff fewer than 60 of the client's times are after `now - 60000` (a missing client counts as an empty list); on admission only that client's entry is written, and it becomes the filtered list followed by `now`; a rejection changes nothing, not even pruning; the answer and the stored entry are those of `AdmitStep`; no stored list exceeds 60 entries |
| `HealthRoute.KeepAfterConcat` | routes/health.js:19 | filtering a concatenation filters each part |
| `HealthRoute.KeepAfterTwice` | routes/health.js:19 | filtering at one cutoff and then at a later one equals filtering at the later one |
| `HealthRoute.KeepAfterSorted` | routes/health.js:19 | filtering keeps a sorted list sorted |
| `HealthRoute.FirstRequestAdmitted` | routes/health.js:18-21 | a client with no entry is admitted |
| `HealthRoute.AdmittedLogInWindow` | routes/health.js:17-26 | a stored list after an admission has at most 60 entries, ends with `now`, and holds only entries after `now - 60000`; when no earlier entry is later than `now`, all lie in `(now - 60000, now]` |
| `HealthRoute.AdmittedLogSorted` | routes/health.js:19-25 | when the clock does not go backwards, a sorted stored list stays sorted |
| `HealthRoute.RunLog` | routes/health.js:10-26 | successive requests from one client, each decided by `AdmitStep` on the log left by the previous one, admit at most as many requests as were made |
| `HealthRoute.RunLogAdmitsOnlyRequests` | routes/health.js:21-25 | every admitted time is a request time, admitted at most as often as it was requested |
| `HealthRoute.WindowsWithinQuotaCons` | routes/health.js:21-25 | an admission whose window holds at most 60 admitted times extends a run in which every window is within the quota |
| `HealthRoute.AdmitStepOnHistory` | routes/health.js:17-25 | against a log that is the past admitted times cut at a cutoff at least 60 s before `now`, an admission leaves the history extended by `now` and cut at `now - 60000`, holding at most 60 times; a rejection leaves the log as it was |
| `HealthRoute.SlidingWindowQuota` | routes/health.js:13-26 | for requests in time order, the admitted requests in the 60 s up to and including each admitted request number at most 60, counting those admitted before the run |
| `HealthRoute.FreshClientSlidingWindow` | routes/health.js:13-26 | for a client with no log and requests in time order, every 60 s window ending at an admitted request holds at most 60 admitted requests |

## Left out

- HTTP routing, status codes (400, 429, 500, 200) and JSON response bodies. The route outcomes are the datatypes `Outcome`, `Decision` and the boolean of `Admit`. The validation message strings are reduced to the `Field` they name.
- SQL text, the `pg` pool, `BEGIN`/`COMMIT`/`ROLLBACK` and row locking. Each `/check` call is one atomic step on the table. Concurrent interleavings are not modelled.
- A failure of `pool.connect()` (routes/check.js:32). It happens outside the `try`, so the route never sends "Database unavailable" for it. A failure of the `ROLLBACK` inside `catch` (routes/check.js:109) is left out too. What the web framework then answers depends on its version.
- Concurrent first inserts on the same key. The second `INSERT` violates the uniqueness constraint and ends as a store error. Atomic steps cannot show this.
- The column widths `VARCHAR(45)` and `VARCHAR(255)` (db/connection.js:30-31). A longer ip or endpoint fails the insert or is truncated by PostgreSQL. Keys here are unbounded strings.
- Timestamp storage: `TIMESTAMP` time zone and precision round-trips, and the `last_updated` default. Times are integer milliseconds that are stored exactly.
- JavaScript numbers that are not integers, `NaN` and `Infinity`. `max` and `windowMs` are integers. JavaScript strings with unpaired surrogates cannot be written as Dafny strings. A missing or non-object request body is not modelled.
- `req.ip || req.connection.remoteAddress` (routes/health.js:11) is taken as a given string `clientIp`. An undefined address is not modelled.
- The `/health` response body and its timestamp. Console logging.
- cache/redis.js. The routes never call it, so it has no effect on any decision.
- db/connection.js pool setup, schema creation and startup retry. server.js wiring, CORS and `listen`.
- `FixedWindow.Step` and `FixedWindow.RetryAfter` do not model the range of JavaScript `Date` values (±8.64e15 ms). A `windowMs` large enough to push `windowStart + windowMs` (routes/check.js:98) out of that range gives an invalid date, so `retryAfterMs` is `NaN` and is sent as `null`. Here times are unbounded integers and the wait is always a number.
- The store-failure flag `fault` is an input. Whether a real transaction fails is not modelled: that is network and database behaviour.

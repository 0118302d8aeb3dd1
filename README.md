# Proof-of-human demo: challenge lifecycle and human score

A Dafny model of the logic in `src/App.jsx`, the single React component of a browser demo. The demo issues
30-second "human presence" micro-challenges. It seals each submission into a locally hashed proof token, keeps
the most recent fifty outcomes in an on-device log, and derives a 0..100 "human score" from that log.

The model has five modules:

- `EventLog` (`event_log.dfy`): the log entry record, the `slice(-50)` cap that every append and every save applies,
  and the pass count.
- `Text` (`text.dfy`): JavaScript's `String.prototype.trim` over the ECMAScript whitespace and line-terminator
  characters, the UTF-16 `length` of a string, the decimal rendering of a non-negative integer in a template literal,
  and the `id|response|salt|time` string that is hashed into a proof token.
- `Scoring` (`scoring.dfy`): the scoring engine. `ScoreOf` is the definition, a pure function of the log and the
  current time. `ComputeScore` computes it the way the component does: it collects the pass days into a set entry
  by entry (`CollectDays`) and counts the streak in a `for` loop that walks back one day at a time (`CountStreak`).
  Continuity and accountability are exact rationals (`real`), and `TotalIntegerForm` gives the rounded total in
  all-integer form.
- `ScoreProperties` (`score_properties.dfy`): what each field of a non-empty log's score means, stated in terms of
  the log entries.
- `Lifecycle` (`lifecycle.dfy`): the catalog, the countdown, and the guards of `submit` as a function (`Refusal`).
  The component's state is the class `Session`, with fields `challenge`, `seed`, `expiresAt`, `response`, `logs` and
  `status`. Its methods `StartChallenge`, `Edit`, `Submit` (with its accepted branch `Accept`), `ClearAll` and
  `CurrentScore` update or read those fields.

The clock, the random draws and the hash are parameters:

- `now` is the value of `Date.now()`.
- `pick` and `suffix` are the two `Math.random()` draws of `startChallenge`.
- `salt` is `crypto.randomUUID()`.
- `digest` stands for SHA-256 followed by hex encoding.

Some behaviours of the code are evidently not what its own messages suggest; the model follows the code:

- An accepted submission clears `expiresAt` but keeps `challenge` (src/App.jsx:96). The expiry guard is
  `expiresAt && Date.now() > expiresAt` (src/App.jsx:79), so it is skipped once `expiresAt` is null. The same
  challenge can therefore be submitted again, at any later time, and each submission is logged.
  `ClearedExpiryNeverExpires` and `SubmitTwice` state this. The "Retry with a new prompt" message
  (src/App.jsx:95) suggests a challenge is meant to be used once, but the code keeps it.
- A submission refused as expired changes nothing but the status line. The session is not made inactive.
- JavaScript truthiness is kept: `!expiresAt` and `expiresAt && …` treat an expiry time of `0` like `null`
  (`Truthy`). In the class this never matters, because `Valid()` keeps `expiresAt` positive.
- The countdown can read 31 right after issue. `startChallenge` sets `expiresAt` from a fresh `Date.now()`
  (src/App.jsx:69), but the `now` the countdown uses is refreshed only by the 200 ms ticker (src/App.jsx:54). The
  first reading after issue therefore uses a tick before the issue time, and a tick less than a second earlier gives
  31 (`CountdownAfterStart`).
- `readLogs` does not apply the fifty-entry cap. The constructor takes the stored log as it is, and the cap is
  applied by the next append and by `saveLogs` (`Saved`).

## Model

| member | source | states |
|---|---|---|
| `EventLog.TakeLast` | src/App.jsx:28 | for a positive `n`, `slice(-n)` keeps `min(len, n)` elements, and they are the last elements of the input in their original order |
| `EventLog.Append` | src/App.jsx:91-94 | appending gives length `min(len(prev) + 1, 50)`; the last element is the new entry and the ones before it are the trailing entries of `prev`, in order |
| `EventLog.AppendBounded` | src/App.jsx:91-94 | the log never holds more than 50 entries after an append; below capacity an append is a plain append |
| `EventLog.AppendEvictsOldest` | src/App.jsx:91-94 | appending to a full log drops exactly the oldest entry |
| `EventLog.Saved` | src/App.jsx:28 | what is written to storage has `min(len, 50)` entries, is a suffix of the log, and is the whole log when that has at most 50 |
| `EventLog.SavedAfterAppend` | src/App.jsx:27-29 | after an append, what is saved equals what is held in memory |
| `EventLog.PassCount` | src/App.jsx:123 | the number of passing entries is at most the log length; it is 0 iff no entry passes and equals the length iff every entry passes |
| `EventLog.PassCountAppend` | src/App.jsx:137 | below capacity, an append adds one to the pass count exactly when the new entry passes |
| `Text.TrimStartSpec` | src/App.jsx:83 | leading-whitespace removal leaves a suffix whose dropped prefix is all whitespace and which starts with a non-space, or is empty |
| `Text.TrimEndSpec` | src/App.jsx:83 | trailing-whitespace removal leaves a prefix whose dropped tail is all whitespace and which ends with a non-space, or is empty |
| `Text.TrimSpec` | src/App.jsx:83 | `trim()` returns the slice between a whitespace-only head and a whitespace-only tail, and that slice starts and ends with non-whitespace, or is empty |
| `Text.TrimIdempotent` | src/App.jsx:83 | trimming a trimmed response changes nothing |
| `Text.Utf16Length` | src/App.jsx:84 | `length` counts UTF-16 code units: between one and two per character, and one per character exactly when none lies outside the Basic Multilingual Plane |
| `Text.DecimalString` | src/App.jsx:66 | a rendered non-negative integer is a non-empty string of digits with no leading zero |
| `Text.DecimalRoundTrip` | src/App.jsx:66 | reading the rendered digits back gives the number that was rendered |
| `Text.DecimalInjective` | src/App.jsx:89 | distinct timestamps render as distinct strings |
| `Text.ProofInputSaltSensitive` | src/App.jsx:88-89 | two submissions with the same challenge id, response and time but different salts hash different strings |
| `Scoring.DayIndex` | src/App.jsx:129 | the day index is `floor(ts / 86400000)`: the day holding `ts` starts at or before `ts` and the next one starts after it |
| `Scoring.Passes` | src/App.jsx:123 | the filter returns only passing entries of the log, keeps every passing entry, and is no longer than the log |
| `Scoring.PassesConcat` | src/App.jsx:123 | filtering a concatenation concatenates the filtered parts, so the filter keeps log order |
| `Scoring.PassesSingle` | src/App.jsx:123 | a single entry is kept exactly when it passes; with `PassesConcat` this determines the filter completely |
| `Scoring.PassesMultiset` | src/App.jsx:123 | each passing entry is kept as many times as the log holds it, and no failing entry is kept |
| `Scoring.PassesLength` | src/App.jsx:137 | the filtered passes number exactly the pass count |
| `Scoring.LatestTs` | src/App.jsx:124 | the head of the passes sorted by decreasing time has the largest pass timestamp; there is none exactly when nothing passed |
| `Scoring.PresenceIff` | src/App.jsx:125 | presence is 0 or 1, and it is 1 iff some passing entry satisfies `now - ts <= 86400000` (inclusive) |
| `Scoring.PassDaysMembers` | src/App.jsx:127-131 | a day is in the set of pass days iff some passing entry falls on it |
| `Scoring.StreakIsLongestRun` | src/App.jsx:133-134 | the streak is the longest run of days ending today that are all in the set: every day of the run is in it and the day before is not; the run is at most the number of distinct days, and it is 0 when today is absent |
| `Scoring.ThreeDayStreak` | src/App.jsx:133-135 | passes on days D, D-1 and D-2 but not D-3 give streak 3 and continuity 0.6 |
| `Scoring.ContinuityRange` | src/App.jsx:135 | continuity lies in [0, 1] |
| `Scoring.AccountabilityRange` | src/App.jsx:137 | accountability lies in [0, 1] |
| `Scoring.TotalRange` | src/App.jsx:138 | with each input in range, the rounded total lies in 0..100 |
| `Scoring.ScoreOf` | src/App.jsx:119-141 | an empty log scores all zeros; any log's total lies in 0..100, presence is 0 or 1, and continuity and accountability lie in [0, 1] |
| `Scoring.TotalIntegerForm` | src/App.jsx:138 | `round(40 presence + 40 continuity + 20 accountability)` equals `(2n(40 presence + 8 min(streak, 5)) + 40 passes + n) div 2n`, with halves rounded up |
| `Scoring.CollectDays` | src/App.jsx:127-131 | the `forEach` loop builds exactly the set of days of the given passes |
| `Scoring.CountStreak` | src/App.jsx:132-134 | the `for` loop that walks back from today stops with the streak length of the set |
| `Scoring.ComputeScore` | src/App.jsx:119-141 | the component's computation returns the score of the log at time `now` |
| `ScoreProperties.ScorePresence` | src/App.jsx:123-125 | a non-empty log's presence is 1 iff some pass is at most 24 hours old |
| `ScoreProperties.ScoreStreak` | src/App.jsx:127-134 | a non-empty log's streak covers only days with a pass, stops at the first day without one, is at most the number of distinct pass days, and is 0 when today has no pass |
| `ScoreProperties.ScoreAccountability` | src/App.jsx:137 | a non-empty log's accountability is its pass count over its length |
| `ScoreProperties.ScoreContinuity` | src/App.jsx:133-135 | five times continuity is the streak capped at five days; continuity is full exactly when each of the last five days up to today holds a pass |
| `ScoreProperties.ScoreTotal` | src/App.jsx:138 | a non-empty log's total is the integer form of the rounded weighted sum |
| `Lifecycle.RemainingSeconds` | src/App.jsx:58-62 | the countdown is null iff the expiry time is falsy; otherwise it is the least whole number of seconds covering `max(0, expiresAt - now)`, so it is never negative |
| `Lifecycle.CountdownAfterStart` | src/App.jsx:54-69 | the countdown reads 30 at the issue instant and never more from then on; read at a tick up to a second before issue it reads 31; it reads 0 once the expiry time has passed |
| `Lifecycle.CountdownNonIncreasing` | src/App.jsx:58-62 | the countdown never goes up as time passes |
| `Lifecycle.Refusal` | src/App.jsx:75-87 | the guards run in order: no challenge; then expired, only for a truthy expiry time and strictly after it; then a pass with a trimmed response of fewer than 12 code units. No other refusal exists |
| `Lifecycle.MarkFailedIgnoresText` | src/App.jsx:84 | "mark failed" on a live challenge goes through for any response text |
| `Lifecycle.ExpiryIsStrict` | src/App.jsx:79 | a submission at the expiry instant is not expired; one millisecond later it is refused whatever the text or intent |
| `Lifecycle.ClearedExpiryNeverExpires` | src/App.jsx:74-97 | once `expiresAt` is null, the expiry guard never fires, and "mark failed" on the kept challenge always goes through |
| `Lifecycle.PassNeedsTrimmedDetail` | src/App.jsx:83-87 | on a live challenge, a pass goes through iff the trimmed response has at least 12 code units; surrounding whitespace does not change the verdict |
| `Lifecycle.EntryFor` | src/App.jsx:88-90 | the logged entry carries the challenge's title, the submission time and the pass flag |
| `Lifecycle.Session.constructor` | src/App.jsx:41-47 | the initial state has no challenge, seed, expiry or response, and holds the stored log |
| `Lifecycle.Session.StartChallenge` | src/App.jsx:64-72 | issuing sets the picked challenge, the seed `id-suffix`, `expiresAt = now + 30000` and an empty response; the log is untouched |
| `Lifecycle.Session.Edit` | src/App.jsx:178 | typing replaces the response text |
| `Lifecycle.Session.Submit` | src/App.jsx:74-97 | a submission after a set expiry time is refused as expired; a refused submission changes only the status; an accepted one appends exactly one entry through the capped append, clears `expiresAt`, and keeps the challenge, seed and response |
| `Lifecycle.Session.Accept` | src/App.jsx:88-96 | the accepted branch appends the entry for the challenge, reports Submitted or MarkedFailed by intent, and clears `expiresAt` |
| `Lifecycle.Session.ClearAll` | src/App.jsx:99-103 | clearing empties the log and leaves the challenge state alone |
| `Lifecycle.Session.CurrentScore` | src/App.jsx:119-141 | the displayed score is the score of the current log |
| `Lifecycle.SubmitTwice` | src/App.jsx:74-97 | a detailed response submitted on time and then submitted again at any later moment is accepted both times, and both submissions are logged |
| `Lifecycle.ScoreAfterClear` | src/App.jsx:99-103 | clearing and then reading the score gives the all-zero score |

## Left out

- Rendering: the JSX markup, the styling and the status-message texts. The `status` field records which message was
  shown, as a `Status` value, not its words. The `meta` summary built with `toFixed` is also left out.
- Browser storage: `localStorage` reads, writes, JSON parsing and the `removeItem` in `clearAll`. The stored log is
  the constructor's argument, and what `saveLogs` would write is `Saved(logs)`.
- SHA-256 and its hex encoding: a foreign asynchronous call, modelled by the function parameter `digest`. The model
  assumes nothing about its output, but it does treat it as total, and the salt as always available.
- `Lifecycle.Session.Submit`: does not model a failing `crypto.randomUUID()` (src/App.jsx:88) or a rejected
  `crypto.subtle.digest` (src/App.jsx:34), which happen outside a secure context. In the code the async `submit`
  then rejects before `setLogs` and `setExpiresAt(null)`, so nothing is logged and nothing changes. The model
  always logs an accepted submission.
- `Text.ProofInputSaltSensitive`: it proves that different salts give different hash inputs, not different tokens.
  Distinct tokens would also need SHA-256 to be collision-free, which is not modelled.
- Randomness: the catalog pick, the seed suffix and the salt are arguments. The model only requires the ranges
  that `Math.floor(Math.random() * n)` can produce.
- The clock: `setInterval` and every `Date.now()` become one `now` argument per action. Within one `submit` the
  code reads the clock three times, and the model uses a single value.
- Asynchrony: `submit` awaits the hash before it appends. Actions that interleave with that wait are not modelled;
  the appended entry uses the state as it was when `submit` began.
- The score's memoisation: `score` is recomputed only when `logs` changes (src/App.jsx:141), so the `now` it uses is
  the time of the last log change. `CurrentScore` takes that time as its argument.
- Floating point: continuity, accountability and the weighted sum are exact rationals. IEEE double rounding could
  differ at an exact `.5` boundary of the total, for example a pass rate of 1/40.
- Text: a string is a sequence of Unicode scalar values. A lone surrogate, which a JavaScript string can hold,
  cannot be represented.
- `copyLatest` (a clipboard write) and the sorted display list at src/App.jsx:143.
- The catalog's prompt and rationale texts. Only the ten ids and titles are kept.
- `vite.config.js`: build configuration with no logic.

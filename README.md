# Daily keep-alive commit: a Dafny model

The system makes one "keep-alive" commit per UTC day to a log file,
`contributions/keep_alive.md`, on a dedicated branch of a target repository.
It has two writers and one reader:

- a serverless route, `pages/api/commit.js`. It acts as a GitHub App
  installation: it signs an App JWT, exchanges it for an installation token,
  reads the log and, unless the last entry is already from today, writes the
  log back with a new `- <timestamp>` line. An in-memory counter limits it to
  seven granted calls per UTC day. A failure inside the commit's `try` block
  gives the slot back. A missing configuration and the "already committed
  today" reply keep it;
- a scheduled Python script, `scripts/daily_commit.py`, which makes the same
  decision on a checked-out copy of the log;
- a status route, `pages/api/status.js`, which reports the last non-empty
  line of the log.

The model covers the decision logic of all three and the GitHub client the
two routes share, `lib/githubApp.js`. The network is replaced by inputs. Every GitHub
response is a value `Response(status, text, json)`. The calls the code would
make are returned as a trace of `Call` values. This makes "nothing is written"
and "the write carries this body" statable facts about a run.

Modules, one per file:

| file | module | what it holds |
|---|---|---|
| `wrappers.dfy` | `Wrappers` | `Option` and `Result` |
| `text.dfy` | `Text` | string helpers with the semantics of the JavaScript and Python built-ins used: `split` on a character and on `/\r?\n/`, `filter`, `trim`/`strip`, `rstrip('Z')`, `replace(/Z$/, '')`, `str.splitlines`, `startsWith`, `includes` |
| `iso_time.dfy` | `IsoTime` | UTC date-times, `toISOString`, Python's `isoformat` with `+00:00` written `Z`, and a parser of the form both write |
| `private_key.dfy` | `PrivateKey` | `normalizePrivateKey`, which is identical in both routes |
| `github_app.dfy` | `GitHubApp` | JWT claims, response classification, the PUT body, `createOrUpdateFile` |
| `rate_limit.dfy` | `RateLimit` | the daily counter as a state machine |
| `commit_content.dfy` | `CommitContent` | the route's "already today / append" decision |
| `api_common.dfy` | `ApiCommon` | request, environment, replies, the credential chain |
| `commit_api.dfy` | `CommitApi` | the commit route: class `CommitRoute` holding the counter, and its handler |
| `status_api.dfy` | `StatusApi` | the status route |
| `daily_commit_script.dfy` | `DailyCommitScript` | the Python script's decision |
| `log_interop.dfy` | `LogInterop` | how each writer reads the other's entries |

The module-level record `dailyCommits` is updated in place by the route, so
it is the pair of fields of the class `CommitApi.CommitRoute`. Its methods
`CheckRateLimit` and `RollbackRateLimit` are specified by the pure functions
`RateLimit.Acquire` and `RateLimit.Release`. The quota lemmas are proved about
those two functions. Everything else in the core computes values and is
modelled as functions.

In these points the code does something a reader might not expect, and the
model follows the code:

- The route separates the old text from the new entry with a single `"\n"`
  (`commit.js:92`), not with a blank line. The log gets a blank line only
  because the old text already ends with a line feed.
- The `sha` sent with the PUT comes from a second read inside
  `createOrUpdateFile` (`githubApp.js:70`), not from the read the decision was
  based on (`commit.js:68`). `CommitApi.PipelineWriteIsLast` states this: the write
  carries `RereadSha(up.reread)`.
- The counter is given back only on the `catch` path (`commit.js:99-103`).
  A missing configuration (`commit.js:53-55`) and the "already committed
  today" reply (`commit.js:85`) keep the slot they consumed.
- The route removes one trailing `Z` before parsing. The script removes all of
  them.

## Model

| member | source | states |
|---|---|---|
| `IsoTime.ParseToIsoString` | vercel-app/pages/api/commit.js:80-84 | A `toISOString` rendering parses back to its own UTC date: as written, with one trailing `Z` removed (the route's reading), and with all of them removed (the script's reading). |
| `IsoTime.ParsePyIsoFormat` | scripts/daily_commit.py:56-61 | The script's own timestamp, after `rstrip('Z')`, parses back to its UTC date; removing one `Z` and removing all of them give the same string. |
| `IsoTime.DatePartInjective` | vercel-app/pages/api/commit.js:17 | Two valid dates have the same `YYYY-MM-DD` day key if and only if they are the same date. |
| `PrivateKey.NormalizePrivateKey` | vercel-app/pages/api/commit.js:10-14 | The result is `null` exactly for a missing or empty key. A key holding `-----BEGIN` is returned unchanged. Otherwise the result is the escape rewrite of the key, and no two-character `\n` escape is left in it. |
| `PrivateKey.UnescapeAppend` | vercel-app/pages/api/commit.js:13 | Rewriting a concatenation rewrites each part on its own, unless a backslash ending the left part meets an `n` starting the right part. |
| `PrivateKey.UnescapeAroundEscape` | vercel-app/pages/api/status.js:6 | Each `\n` escape becomes exactly one line feed, and the text on either side of it is rewritten independently. Together with `UnescapeFixedPoints`, every other character stays unchanged and in order. |
| `PrivateKey.UnescapeFixedPoints` | vercel-app/pages/api/commit.js:13 | The escape rewrite leaves a key unchanged if and only if the key holds no `\n` escape. |
| `PrivateKey.UnescapeLeavesNoEscape` | vercel-app/pages/api/status.js:6 | After the rewrite no backslash is followed by the letter `n`. |
| `PrivateKey.NormalizeIdempotent` | vercel-app/pages/api/status.js:4-7 | Normalizing an already normalized key changes nothing. |
| `GitHubApp.CreateAppJwtClaims` | vercel-app/lib/githubApp.js:4-10 | `iss` is the App id; `exp - iat = 600`; `iat` is the current second minus 60; `iat < now < exp`. |
| `GitHubApp.GetInstallationIdForRepo` | vercel-app/lib/githubApp.js:23-32 | Success if and only if the status is 2xx, and then the value is the body's `id`. A 404 gives the distinct not-found error naming owner and repo. Any other non-2xx status gives an upstream error carrying that status and text. |
| `GitHubApp.CreateInstallationToken` | vercel-app/lib/githubApp.js:44-49 | Success if and only if the status is 2xx, and then the value is the body's `token`. Otherwise an upstream error carries the status. |
| `GitHubApp.GetFile` | vercel-app/lib/githubApp.js:61-66 | A 404 means the file is absent, not an error. Any other non-2xx status is an error. A 2xx response gives the parsed body. |
| `GitHubApp.BuildPutBody` | vercel-app/lib/githubApp.js:71-77 | `message`, `content` and `branch` are always present. `committer` is present exactly when one is supplied. `sha` is present exactly when the read file has a non-empty `sha`, and then it is that `sha`. |
| `GitHubApp.CreateOrUpdateFile` | vercel-app/lib/githubApp.js:69-94 | The file is read first. A failed read ends the call with that error and no write. Otherwise exactly one PUT follows, with the `sha` of this read. The result is a success if and only if the read and the PUT succeed. A non-2xx PUT is an upstream write error. |
| `RateLimit.Acquire` | vercel-app/pages/api/commit.js:16-26 | A new day restarts the count: the call is granted with count 1 and 6 remaining. At 7 or more on the same day the call is denied and the counter is unchanged. A grant raises the day's count by exactly 1 and reports `7 - count`, which lies in 0..6. The counter stays within 0..7. Releasing a grant gives back the counter of the call's day: on the same day that is the counter before the call; on a new day it is that day's fresh counter, with count 0. |
| `RateLimit.Release` | vercel-app/pages/api/commit.js:102 | The rollback lowers a positive count by one, never goes below zero, and keeps the day. |
| `RateLimit.QuotaPerDay` | vercel-app/pages/api/commit.js:21-25 | Over `n` calls on one day, call `i` is granted if and only if fewer than 7 were granted before it that day. Every denial reports 7. The counter ends at `min(used + n, 7)`. |
| `RateLimit.EighthCallDenied` | vercel-app/pages/api/commit.js:21-23 | On a new day the first seven calls are granted and the eighth is denied with count 7. |
| `RateLimit.CountStaysInRange` | vercel-app/pages/api/commit.js:8 | Under any sequence of calls on any days and any rollbacks, the count stays between 0 and 7. |
| `ApiCommon.OrDefault` | vercel-app/pages/api/commit.js:49-51 | An unset or empty variable yields the default; a non-empty one yields its value. |
| `ApiCommon.SplitTargetRepo` | vercel-app/pages/api/commit.js:60 | The owner holds no slash. `repo` is missing if and only if the target has no slash, and then the owner is the whole target. Otherwise the target starts with `owner/repo`, `repo` holds no slash, and `repo` is the whole second piece: it ends at the end of the target or at the next slash. |
| `ApiCommon.ReplyStatusCodes` | vercel-app/pages/api/commit.js:29-103 | 405 exactly for a wrong method, 401 exactly for a failed secret check, 429 exactly for a quota denial, 500 exactly for a missing configuration or a thrown error, and 200 exactly for "already committed", a commit and a status report. |
| `ApiCommon.Authenticate` | vercel-app/pages/api/commit.js:58-62 | The first call signs the claims with the normalized key. The first failure ends the chain with its own error. A rejected key stops after signing with the signing error. A failed lookup stops after the lookup with the lookup's error: not-found for a 404, and an upstream lookup error with status and text otherwise. A failed token exchange stops after the exchange with an upstream token error carrying status and text. The chain succeeds if and only if all three steps succeed, and then it issued exactly those three calls and returns the token. The chain never reads or writes the file. |
| `CommitContent.DecideContent` | vercel-app/pages/api/commit.js:68-95 | "Already committed today" holds if and only if the file has content and its last non-empty line is an entry for today's UTC date. Otherwise the content is the old text, `"\n"` and the entry line, or just the entry line when there is no content. |
| `CommitContent.WrittenLastLine` | vercel-app/pages/api/commit.js:92-94 | Whatever the route writes has the new entry as its last non-empty line. |
| `CommitContent.EntryDayOfEntry` | vercel-app/pages/api/commit.js:79-84 | The route reads back its own entry line as the UTC date it was written on. |
| `CommitContent.SecondCallSameDay` | vercel-app/pages/api/commit.js:75-86 | After a write, a call on the same UTC day finds the day done. |
| `CommitContent.SecondCallNewDay` | vercel-app/pages/api/commit.js:92 | After a write, a call on a later UTC day appends exactly one more entry after a line feed. |
| `CommitContent.MalformedLastLineAppends` | vercel-app/pages/api/commit.js:79-90 | A last line without the `- ` prefix, or with a timestamp that does not parse, leads to an append and never to an error. |
| `CommitContent.ScenarioFirstWrite` | vercel-app/pages/api/commit.js:93-94 | With no log, a call at 2024-01-01T00:00:00.000Z writes exactly `"- 2024-01-01T00:00:00.000Z\n"`. |
| `CommitContent.ScenarioSameDay` | vercel-app/pages/api/commit.js:84-85 | A later call the same day on that log is "already committed". |
| `CommitContent.ScenarioNextDay` | vercel-app/pages/api/commit.js:92 | A call at 2024-01-02T00:00:05Z on that log writes `"- 2024-01-01T00:00:00.000Z\n\n- 2024-01-02T00:00:05.000Z\n"`. |
| `CommitApi.Today` | vercel-app/pages/api/commit.js:17 | The rate-limit day key is the `YYYY-MM-DD` of the current UTC date. |
| `CommitApi.AuthorizedIff` | vercel-app/pages/api/commit.js:32-38 | The secret gate admits a request if and only if no non-empty secret is configured or the `x-app-key` header equals it. |
| `CommitApi.CommitMessage` | vercel-app/pages/api/commit.js:97 | The commit message is 26 characters of the fixed prefix `chore: daily contribution ` followed by a 24-character timestamp that parses back to the entry's UTC date. |
| `CommitApi.CommitPipeline` | vercel-app/pages/api/commit.js:57-98 | The outcome of every case, exactly. A failed credential chain ends with its error and its calls. A failed first read ends with the read's error after the chain and the read. When both succeed and the decision is "already today", the result is "already done" on the configured branch, with no call after the read. When the decision is to append, the calls are the chain, the read and those of `createOrUpdateFile` with the decided content, the message, the branch and the committer. The result is that call's success or error. |
| `CommitApi.PipelineOutcome` | vercel-app/pages/api/commit.js:84-98 | The pipeline succeeds only after the chain and the first read succeeded. When it succeeds, it reports "already done" exactly when the decision says so, and then it issued no write. A write result returns the PUT's body after a write. |
| `CommitApi.PipelineWritesOnlyLast` | vercel-app/pages/api/commit.js:57-98 | No call before the last one is a write: the credential chain and the first read never write, and `createOrUpdateFile` writes only after its own read. |
| `CommitApi.PipelineWriteIsLast` | vercel-app/pages/api/commit.js:92-98 | A write happens only after the chain and the first read succeeded and the decision was to append. The last call is then that write, and it carries the decided content, the commit message, the branch, the committer and the `sha` of the second read. |
| `CommitApi.CommitRoute.constructor` | vercel-app/pages/api/commit.js:8 | A fresh instance starts with no day and count 0. |
| `CommitApi.CommitRoute.CheckRateLimit` | vercel-app/pages/api/commit.js:16-26 | The counter fields and the answer are exactly those `Acquire` gives for the old counter, and the 0..7 range is preserved. |
| `CommitApi.CommitRoute.RollbackRateLimit` | vercel-app/pages/api/commit.js:101-102 | The counter becomes `Release` of the old one. |
| `CommitApi.CommitRoute.Handler` | vercel-app/pages/api/commit.js:28-105 | A non-POST request gets 405 and a failed secret check gets 401; both leave the counter untouched and make no call. A denial gets 429 with the count and makes no call. A missing configuration gets 500 and keeps the consumed slot. Otherwise the calls are the pipeline's. A pipeline error gets 500 and the slot is released. "Already committed" and a successful commit keep the slot, and the commit reports the remaining quota. |
| `StatusApi.ReportedLine` | vercel-app/pages/api/status.js:30-36 | `null` if and only if the file is absent or empty, or every piece of its `\r?\n` split is empty. Otherwise the result is a non-empty line with no line feed; it is a piece of the split and every later piece is empty. It is returned without any prefix check. |
| `StatusApi.StatusHandler` | vercel-app/pages/api/status.js:9-41 | A non-GET request gets 405 and a missing configuration gets 500, both before any call. The route never writes. Otherwise the reply and the calls are exact. A failed credential chain gets 500 with the chain's own error and the chain's calls. A failed read gets 500 with the read's error after the chain and the read. A successful read reports the last non-empty line of the file, after the chain and the read. The status is 200 exactly for a reported line. |
| `StatusApi.StatusSeesCommit` | vercel-app/pages/api/status.js:33-36 | After the commit route writes the log, the status route reports the entry it wrote. |
| `DailyCommitScript.DailyCommit` | scripts/daily_commit.py:45-71 | The run ends early if and only if the log exists and its last non-blank line is an entry for today's UTC date. Otherwise it writes the old text followed directly by the entry, with no separator, or just the entry when there is no log. |
| `DailyCommitScript.LastLineAfter` | scripts/daily_commit.py:52-54 | A non-blank line appended after a line boundary becomes the last line. |
| `DailyCommitScript.EntryDayPyOfStamp` | scripts/daily_commit.py:55-61 | A line made of `- `, then an ISO rendering with any whitespace on either side, reads as the date of the rendering with every trailing `Z` removed: the surrounding whitespace is stripped before the `Z`s. |
| `DailyCommitScript.NonEntryLine` | scripts/daily_commit.py:55 | A line that does not start with a dash is never read as an entry, so the script appends after it. |
| `DailyCommitScript.ScriptSecondRunSameDay` | scripts/daily_commit.py:61-64 | After a run wrote the log, a run on the same UTC day exits without writing, provided the old text was empty or ended with a line boundary. |
| `DailyCommitScript.ScriptSecondRunNewDay` | scripts/daily_commit.py:68-69 | After a run wrote the log, a run on a later UTC day appends exactly one more entry, provided the old text was empty or ended with a line boundary (as every file the script or the route writes does). |
| `DailyCommitScript.MissingFinalNewlineDefeatsDedup` | scripts/daily_commit.py:68 | With no separator, an entry appended to the log `"a"` joins its last line. A second run on the same day then appends again. |
| `LogInterop.ScriptHonoursRouteEntry` | scripts/daily_commit.py:50-64 | The script, run on the same UTC day after the route wrote the log, exits without writing. |
| `LogInterop.RouteHonoursScriptEntry` | vercel-app/pages/api/commit.js:72-86 | The route, called on the same UTC day after the script wrote a log that was empty, absent or ended with a line feed, reports the day done. |
| `LogInterop.EntryDayOfStamp` | vercel-app/pages/api/commit.js:79-80 | A line made of `- `, then an ISO rendering with any whitespace on either side, reads as the date of the rendering with one trailing `Z` removed: the surrounding whitespace is trimmed before the `Z`. |
| `LogInterop.BlankLastLineDiverges` | vercel-app/pages/api/commit.js:75 | The two readers disagree on a whitespace-only last line. The route keeps it, since it drops only empty lines, and appends a second entry for the day. The script drops it, since it skips blank lines, and exits. |

## Left out

- The network: `fetch`, headers, URLs and `encodeURIComponent`. Every response is an input, and every request is a `Call` value in the returned trace.
- `jwt.sign` with RS256: only the claim set is modelled. Whether signing succeeds is the input `keyAccepted`, and the signed token is not represented.
- Base64 (`Buffer.from(..., 'base64')` and `toString('base64')`): the file content is the decoded text throughout, and the PUT body carries the text before encoding.
- JSON parsing of response bodies: each response carries its parsed body, so a body that is not JSON is not modelled.
- `IsoTime.ParseIsoDate` accepts only `YYYY-MM-DDTHH:MM:SS`, then an optional fraction, then an optional `Z`, with years 1 to 9999. Other forms that `new Date` and `datetime.fromisoformat` accept count as unparseable, so the model appends where the code might not. This includes a bare date, offsets and hour 24. In the other direction, the parser accepts a fraction of any number of digits, as Python 3.11 and later do. Before 3.11, `datetime.fromisoformat` takes only 3 or 6 digits, so on such an interpreter a hand-edited line like `- 2024-01-01T00:00:00.5Z` makes the script append where `DailyCommitScript.DailyCommit` exits. The model assumes Python 3.11 or later.
- The host time zone: the route parses a timestamp with its `Z` removed, which JavaScript reads as local time. The model assumes a UTC host.
- The clock: the route reads it three times (the rate-limit day, the JWT's `Date.now()`, the entry timestamp). These are three inputs of `CommitApi.Clock`. The script's `datetime.now(timezone.utc)` is a parameter.
- `.replace('+00:00', 'Z')` on `toISOString()` (`commit.js:70`): it never matches, since that rendering always ends in `Z`.
- Concurrency: parallel requests racing on the in-memory counter, and cold starts resetting it. Each call of `Handler` runs to completion alone, and a cold start is a new `CommitRoute`.
- `console.error` and the JSON shape of replies. A reply is its kind, its status code and the fields the properties talk about; the error text of `String(err)` is the `Error` value.
- The Python script's environment checks, directory creation, file writes, `git` commands and push (`daily_commit.py:20-43, 73-87`): I/O around the decision.
- `pages/index.js`: UI rendering only.

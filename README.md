# Manifester helpers in Dafny

This project models the two helpers of `manifester/helpers.py` that the manifester client depends on. Every call to the Red Hat Subscription Management API goes through the first. The second prepares the Satellite version for a new subscription allocation.

- **`simple_retry`** (module `Retry`, `retry.dfy`) makes one remote call. If the status code is 429, 500 or 504, it doubles the current wait. If the doubled wait exceeds `max_timeout`, it raises "Retry timeout exceeded". Otherwise it sleeps the current wait and calls again by recursion. Any other status code is returned unchanged.
  - The remote call is an oracle `cmd: nat -> Response`, where `cmd(i)` is the response to the i-th call.
  - `time.sleep` becomes a `Sleep(seconds)` event. It is recorded in order with the `Call(i)` events in the run's trace.
  - The exception becomes the outcome `RetryTimeoutExceeded`.
  - The model is a recursive function (`Retry.Attempt`), as the source is. Its measure is `max_timeout - _cur_timeout`. Timeouts are integers and `_cur_timeout` is at least 1, so the wait doubles on every retry and every run ends (see "Left out" for other values).
  - The defaults `max_timeout=2`, `_cur_timeout=1` are kept as Dafny default parameter values of `Retry.SimpleRetry`.
- **`process_sat_version`** (module `SatVersion`, `sat_version.dfy`, with string helpers in `Text`, `text.dfy`).
  - If the version is in the list of valid values, it is returned as is.
  - Otherwise a version longer than 8 characters loses its Z-stream: only its first two `.`-separated parts are kept.
  - If the version is still invalid, the caller's list is sorted in place, descending by the number after the last `.` of the part after the last `-`, and the first entry is returned.
  - The source changes state, so the model is a method over an `array<string>` (`SatVersion.ProcessSatVersion`). Its result and the array's new contents equal the specification function `SatVersion.Process` applied to the old contents.
  - Python's `list.sort(key=..., reverse=True)` is a stable sort. Its result is the functional stable insertion sort `StableSort.SortDescending` (module `StableSort`, `stable_sort.dfy`, generic in the key function). The array is overwritten with that result (`SatVersion.SortInPlace`).
  - `str.split`, `str.join` and `int` are `Text.Split`, `Text.Join` and `Text.DecimalValue`.

Notes on the source as written:

- The retry helper has no success predicate and no attempt counter. A 404 or any other code outside {429, 500, 504} is returned like a 200. The number of attempts follows only from the doubling wait and `max_timeout`. The timeout does not carry the last response.
- A bound of "at most `max_timeout - _cur_timeout` seconds slept" holds only for runs that sleep at all. With `max_timeout < _cur_timeout` a run makes one call, sleeps 0 seconds, and 0 exceeds that negative difference. `Retry.SleepBounded` states both cases.
- The fallback's sort key is the minor version alone. Against `sat-6.16` and `sat-7.0`, an unknown version falls back to `sat-6.16` (`SatVersion.FallbackComparesMinorOnly`).

## Model

| member | source | states |
|---|---|---|
| `Retry.SimpleRetry` | manifester/helpers.py:8-26 | with the defaults `max_timeout=2`, `_cur_timeout=1`, the first call is always made, and a returned response is the last call's response, unchanged, with a code outside 429/500/504 |
| `Retry.Attempt` | manifester/helpers.py:17-26 | every run makes at least one call: its trace starts with the call at the given oracle index and has an odd number of events |
| `Retry.AttemptFollowsBackoff` | manifester/helpers.py:19-25 | the calls of a run have consecutive oracle indices; between calls k and k+1 there is exactly one sleep, of `_cur_timeout * 2^k` seconds |
| `Retry.AttemptOutcome` | manifester/helpers.py:17-26 | every call but the last saw 429/500/504; the run raises exactly when the last code is transient, and then `_cur_timeout * 2^calls > max_timeout`; before the last call the doubled wait never exceeded the limit; a returned response is the last call's response |
| `Retry.AttemptTotalSlept` | manifester/helpers.py:20-25 | the time slept over n calls is `_cur_timeout * (2^(n-1) - 1)`, and it is at most `max_timeout - _cur_timeout` when n >= 2 |
| `Retry.FirstCallPassesThrough` | manifester/helpers.py:17-26 | a first response whose code is not 429/500/504 is returned after exactly one call and no sleep |
| `Retry.ReturnedIsFirstNonRetryable` | manifester/helpers.py:19-26 | a returned response never has code 429, 500 or 504; it is passed through unchanged and is the first non-transient response of the oracle |
| `Retry.Pow2Mono` | manifester/helpers.py:20-25 | the wait after more doublings is never smaller: `2^a <= 2^b` when `a <= b` |
| `Retry.WaitMono` | manifester/helpers.py:20-25 | a positive wait doubled more times is never shorter: `_cur_timeout * 2^a <= _cur_timeout * 2^b` when `a <= b` |
| `Retry.FailuresThenSuccess` | manifester/helpers.py:17-26 | when the first f codes are 429/500/504, code f is not, and `_cur_timeout * 2^f <= max_timeout`, the run returns response f unchanged after exactly f+1 calls |
| `Retry.TimeoutRaisedWithoutSleeping` | manifester/helpers.py:17-22 | the first call is always made; a run ends with a call, never with a sleep; it raises exactly when the last code is transient and twice the current wait exceeds `max_timeout` |
| `Retry.SleepsDouble` | manifester/helpers.py:20-25 | the k-th sleep lasts `_cur_timeout * 2^k` and comes right after call k and right before call k+1 |
| `Retry.AllRetryableCallCount` | manifester/helpers.py:8-25 | when every call fails transiently, the run raises after the least n >= 1 with `_cur_timeout * 2^n > max_timeout` calls |
| `Retry.DefaultsAllRetryable` | manifester/helpers.py:8-25 | with the defaults 2 and 1 a run that always fails makes two calls with one 1-second sleep between them, then raises |
| `Retry.SleepBounded` | manifester/helpers.py:20-25 | a run that makes one call sleeps 0 seconds; one that makes more sleeps at most `max_timeout - _cur_timeout`, so less than `max_timeout` |
| `Text.Split` | manifester/helpers.py:38 | `str.split` gives at least one piece and no piece contains the separator |
| `Text.Join` | manifester/helpers.py:40 | `".".join` begins with the first piece, and when there are more pieces a separator follows it |
| `Text.LastPieceIsTail` | manifester/helpers.py:43 | the last piece of a split is a tail of the string: the whole string when there is one piece, otherwise preceded by a separator |
| `Text.LastField` | manifester/helpers.py:43 | `split(sep)[-1]` holds no separator and is a tail of the string that is either the whole string or preceded by a separator, so it is the text after the last separator |
| `Text.DecimalValue` | manifester/helpers.py:43 | `int()` of a digit string of length n is between 0 and 10^n - 1 |
| `Text.DecimalValueIsPositional` | manifester/helpers.py:43 | `int()` of a string equals its positional value: each digit weighted by ten to the power of the number of digits after it |
| `Text.JoinSplit` | manifester/helpers.py:38-40 | joining the pieces of a split with the same separator gives back the string |
| `Text.SplitJoin` | manifester/helpers.py:38-40 | splitting the join of separator-free pieces gives back the pieces |
| `Text.JoinAppend` | manifester/helpers.py:39-40 | a join of pieces is the join of the first k pieces, a separator, and the join of the rest |
| `StableSort.Insert` | manifester/helpers.py:43 | inserting one entry into the sorted list yields a permutation of the entry plus the list |
| `StableSort.SortDescending` | manifester/helpers.py:43 | the sorted list is a permutation of the list and is descending by key |
| `StableSort.InsertKeepsDescending` | manifester/helpers.py:43 | inserting into a descending list keeps it descending |
| `StableSort.InsertKeepsKeyOrder` | manifester/helpers.py:43 | insertion puts the new entry before the other entries with its key and keeps their order |
| `StableSort.SortIsStable` | manifester/helpers.py:43 | the sort is stable: for every key, the entries with that key keep their original order |
| `StableSort.FirstWithKey` | manifester/helpers.py:43-44 | the first entry with a given key is found at an index before which no entry has that key |
| `StableSort.HeadIsGreatest` | manifester/helpers.py:43-44 | the head of a descending permutation has the greatest key of the list |
| `StableSort.SortedHeadIsFirstGreatest` | manifester/helpers.py:43-44 | after sorting, the first entry is the entry with the greatest key that came first in the original order |
| `SatVersion.KeyDigits` | manifester/helpers.py:43 | the text the sort key is parsed from is the longest tail of the entry holding neither `-` nor `.`: the whole entry, or the text right after its last `-` or `.` |
| `SatVersion.SortKey` | manifester/helpers.py:43 | the sort key `int(i.split('-')[-1].split('.')[-1])` is non-negative wherever `int` succeeds |
| `SatVersion.KeyDigitsOfVersion` | manifester/helpers.py:43 | for `name-major.minor` the sort key is read from `minor` alone |
| `SatVersion.SortKeyOfVersion` | manifester/helpers.py:43 | for `name-major.minor` with a digit-string minor version, `int()` succeeds on the key text and the key is the minor version's value |
| `SatVersion.SortKeyExample` | manifester/helpers.py:43 | the key of `sat-6.14` is 14 |
| `SatVersion.FallbackTwoEntries` | manifester/helpers.py:42-44 | against a two-entry list the fallback returns the first entry unless the second has a strictly greater key |
| `SatVersion.FallbackComparesMinorOnly` | manifester/helpers.py:41-44 | `sat-6.16` has a greater key than `sat-7.0`, and against that list the unknown `sat-7.1` falls back to `sat-6.16` |
| `SatVersion.WithoutZStream` | manifester/helpers.py:37-40 | removing the Z-stream keeps a prefix of the version, and keeps all of it when it has at most 8 characters |
| `SatVersion.WithoutZStreamKeepsTwoParts` | manifester/helpers.py:37-40 | a version longer than 8 characters is cut to a prefix made of its first two `.`-separated parts; a version of at most 8 characters or with at most one `.` is kept whole |
| `SatVersion.WithoutZStreamIdempotent` | manifester/helpers.py:37-40 | removing the Z-stream a second time changes nothing |
| `SatVersion.WithoutZStreamExample` | manifester/helpers.py:32-40 | `sat-6.11.0` becomes `sat-6.11` |
| `SatVersion.Process` | manifester/helpers.py:28-45 | the returned version is one of the valid values; the list afterwards holds the same entries, and is left as it was unless the fallback sorts it |
| `SatVersion.ValidVersionUnchanged` | manifester/helpers.py:31-45 | a version already in the list is returned unchanged and the list is not reordered |
| `SatVersion.TruncationOnlyWhenLong` | manifester/helpers.py:37-42 | an invalid version of at most 8 characters goes to the fallback without truncation; an invalid version whose truncation is valid is longer than 8 characters and comes back truncated, with the list untouched |
| `SatVersion.FallbackPicksLatest` | manifester/helpers.py:42-44 | the fallback leaves the list a stable permutation of itself, sorted descending by key, and returns the first entry with the greatest key in the original order |
| `SatVersion.ResultIsValid` | manifester/helpers.py:31-45 | the result is always an element of the valid list (before and after the call), and the list keeps the same entries |
| `SatVersion.ProcessIdempotent` | manifester/helpers.py:28-45 | processing the result again against the list the first call left behind returns the same version and does not touch the list |
| `SatVersion.SortInPlace` | manifester/helpers.py:43 | the list sorted in place holds exactly the stable descending sort of its old contents |
| `SatVersion.ProcessSatVersion` | manifester/helpers.py:28-45 | the reassign-and-sort procedure returns the version given by `Process` and leaves the list with the contents `Process` gives |

## Left out

- `fake_http_response_code` (manifester/helpers.py:47-53): it draws from a random source and has no deterministic behaviour to state.
- `MockStub` (manifester/helpers.py:56-89): it relies on Python's dynamic attribute lookup and has no contract to model.
- The test double `RhsmApiStub` and the tests in tests/test_manifester.py exercise the `Manifester` class, settings and the export poller. The manifester package's other modules are not part of this model.
- `cmd_args` and `cmd_kwargs` are only passed through to `cmd`. The oracle stands for `cmd` applied to those fixed arguments.
- Logging (`logger.debug`) is left out. Wall-clock sleeping is recorded as durations, not spent.
- The exception's type and message are not modelled: the source raises a plain `Exception("Retry timeout exceeded")`, and the model returns the outcome `RetryTimeoutExceeded`.
- Python's sort algorithm (Timsort) is not modelled, only its result. That result is the stable descending order that a stable insertion sort gives.
- Retry.Attempt and Retry.SimpleRetry: `max_timeout` and `_cur_timeout` are integers, and `_cur_timeout` is at least 1. Python accepts any number there. A float such as 0.5 doubles like an integer. With `_cur_timeout=0` and codes that stay 429/500/504, the source sleeps 0 seconds and recurses until Python raises `RecursionError`. A negative `_cur_timeout` that passes the `new_wait > max_timeout` test reaches `time.sleep` with a negative value, which raises `ValueError`. The parameter is private, defaults to 1 and is only ever doubled, so these runs are excluded rather than modelled.
- SatVersion.ProcessSatVersion: requires a non-empty list, and ASCII-digit keys whenever the fallback sorts. In Python an empty list raises `IndexError` and a non-numeric key makes `int()` raise `ValueError`. Those error paths are excluded rather than modelled.
- SatVersion.ProcessSatVersion: `int()` also accepts surrounding whitespace, a sign, underscores and non-ASCII digits. The model admits only ASCII digit strings as keys.

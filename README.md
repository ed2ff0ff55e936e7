# Trash auto-purge task — a Dafny model

This project models the trash auto-purge task of a password-vault worker
(`src/handlers/purge.rs`). The task reads the retention setting
`TRASH_AUTO_DELETE_DAYS`, falls back to 30 days when it is missing or
unparsable, and does nothing when the value is zero or negative. Otherwise
it computes the cutoff: `now` minus `days` days. It counts the `ciphers` rows with
`deleted_at IS NOT NULL AND deleted_at < cutoff`. When that count is non-zero
it deletes the rows matching the same predicate. It reports the count.

Files:

- `wrappers.dfy` — `Option` (with `GetOr`, Rust's `unwrap_or`) and `Result`.
- `purge.dfy` — module `Purge`:
  - the configuration: `PurgeDays`, `PurgeEnabled` and `Cutoff`;
  - the SQL predicate as `Expired`;
  - the meaning of the count and delete statements over a table, as the
    functions `CountExpired` and `Retained`, with lemmas about them;
  - the `ciphers` table as the class `CipherTable`, whose methods run the
    two statements;
  - the task itself, `PurgeDeletedCiphers`.
- `scenarios.dfy` — module `PurgeScenarios`: clients that run the task on
  small tables and prove the outcome from its contract alone.

Modelling choices:

- Timestamps are integers, in milliseconds since the Unix epoch (UTC). The
  source stores and compares them as fixed-width ISO-8601 strings. It relies
  on string order matching chronological order; the model takes that as
  given.
- The environment lookup and `parse::<i64>` are an input: the parse result,
  an `Option` of a 64-bit signed integer.
- The current time is an input, `now`.
- Store failures are an input, `failure`. It names the request that reports
  an error in this run, if any: opening the database, the count query or the
  delete. Opening the database and the count change nothing. A delete may
  report an error after it was applied (for instance when its response is
  lost); the input says whether it was. Either way the error is passed to
  the caller and no count is reported.
- Count and delete run one after the other with no other writer in
  between, so the reported count equals the number of rows removed.

## Model

| member | source | states |
|---|---|---|
| `Purge.PurgeEnabledBySetting` | src/handlers/purge.rs:30-33 | a missing or unparsable setting keeps purging on; only a parsed value of zero or below switches it off |
| `Purge.ExpiredMonotone` | src/handlers/purge.rs:66 | for the predicate shared by the count (line 54) and the delete (line 66), a row matching an earlier cutoff matches every later one |
| `Purge.PurgeDays` | src/handlers/purge.rs:11-19 | a parsed setting is used unchanged, including 0 and negatives; a missing or unparsable one gives 30 |
| `Purge.Cutoff` | src/handlers/purge.rs:41-42 | with a positive retention the cutoff lies at least one day before now; with zero or less it is not before now |
| `Purge.CutoffAntitone` | src/handlers/purge.rs:41-42 | a longer retention gives an earlier or equal cutoff, earlier by exactly the difference in days |
| `Purge.CountExpired` | src/handlers/purge.rs:52-60 | the count is at most the number of rows; it is zero exactly when no row has a non-null `deleted_at` before the cutoff, and all rows exactly when every row does |
| `Purge.Retained` | src/handlers/purge.rs:64-70 | after the delete a row is present exactly when it was present and does not match the predicate; rows removed plus rows kept equals the old row count, and the rows removed number exactly the count |
| `Purge.RetainedAppend` | src/handlers/purge.rs:66 | the delete acts row by row, so the survivors keep their relative order |
| `Purge.RetainedMultiplicity` | src/handlers/purge.rs:66 | every row with a null `deleted_at` or one at or after the cutoff survives with all its copies; no matching row survives |
| `Purge.RetainedNoneExpired` | src/handlers/purge.rs:60-75 | when the count is zero the delete would change nothing, so skipping it leaves the same table |
| `Purge.RetainedIdempotent` | src/handlers/purge.rs:54-70 | after a purge, a purge with the same or an earlier cutoff counts zero and removes nothing |
| `Purge.RetainedEarlierThenLater` | src/handlers/purge.rs:66 | a purge with an earlier cutoff removes a subset of what one with a later cutoff removes |
| `Purge.CipherTable.CountExpiredRows` | src/handlers/purge.rs:52-60 | the count query returns the number of matching rows and changes nothing |
| `Purge.CipherTable.DeleteExpiredRows` | src/handlers/purge.rs:62-70 | the delete statement leaves exactly the non-matching rows, in order, and removes as many rows as the count |
| `Purge.PurgeDeletedCiphers` | src/handlers/purge.rs:29-78 | disabled: returns 0 and changes nothing, whatever the store would do; enabled: returns the count of matching rows and leaves exactly the non-matching rows; the number returned equals the rows removed; it fails exactly when a request it issues fails (the delete only for a non-zero count), naming that request; a failed open or count changes nothing, and a failed delete leaves either the old table or, when it was applied before the error, exactly the non-matching rows |
| `PurgeScenarios.DefaultWithoutTrash` | src/handlers/purge.rs:29-78 | default setting and no soft-deleted cipher: returns 0 and keeps the table |
| `PurgeScenarios.OldTrashIsPurged` | src/handlers/purge.rs:29-78 | 30 days, one cipher trashed 45 days ago: returns 1 and the table is empty |
| `PurgeScenarios.RecentTrashIsKept` | src/handlers/purge.rs:29-78 | 30 days, one cipher trashed 10 days ago: returns 0 and the cipher stays |
| `PurgeScenarios.DisabledTouchesNothing` | src/handlers/purge.rs:32-36 | a retention of 0 or below returns 0 and keeps the table even if every store request would fail |
| `PurgeScenarios.CountFailureReportsError` | src/handlers/purge.rs:52-58 | a failing count query surfaces as an error and deletes nothing |
| `PurgeScenarios.DeleteErrorAfterCommit` | src/handlers/purge.rs:64-70 | a delete that reports an error after it was applied returns the error although the expired cipher is gone |
| `PurgeScenarios.PurgeTwice` | src/handlers/purge.rs:29-78 | two runs at the same instant: the second returns 0, and the first returns the number of rows removed |

## Left out

- The D1 database binding, the `query!` macro, async/await and `.first`/`.run` are not modelled. The table is a sequence of rows, and store failures are the `failure` input.
- `Utc::now()` is not modelled; the current time is the input `now`.
- The cutoff's formatting as `%Y-%m-%dT%H:%M:%S%.3fZ` (a date-time of section 5.6 of RFC 3339) is not modelled. Timestamps are integer milliseconds and are compared as integers.
- Purge.Cutoff: does not model chrono's panic when `days` days is out of range for a duration or a date, because the model's integers are unbounded.
- Purge.PurgeDays: takes the parse result as input; the `env.var` lookup and the sign and overflow rules of `str::parse::<i64>` are not modelled.
- Purge.PurgeDeletedCiphers: the count is an unbounded natural number; the `u32` width of the deserialised count is not modelled.
- The absent-row case of the count (`unwrap_or(0)` at src/handlers/purge.rs:60) cannot arise: `COUNT(*)` always yields one row, and the model's count query always returns a number.
- The `log::info!` calls have no behaviour to verify and are not modelled.
- Concurrent invocations, and the race between count and delete, are out of scope. The model runs the count and the delete as one sequential step, so the reported count always equals the rows removed.

# queuectl job lifecycle, modelled in Dafny

This project models the job-lifecycle engine of `queuectl`, a durable background job queue. Clients submit shell commands as jobs. A worker claims the oldest pending job, runs it, and writes the outcome back to the store. A failed job is retried with exponential backoff until its retry budget is spent. After that it is moved to a dead-letter queue (DLQ), from which it can be replayed by hand.

The model is sequential. Things that lie outside the program become plain inputs:

- The two SQLite tables `jobs` and `dlq_jobs` are two maps keyed by id, held in the `JobStorage` class.
- `datetime.utcnow()` is the store's `clock` field. Only `AdvanceClock` moves it, and the worker loop `Start` does not call it.
- Ids come from the caller instead of `uuid4()`.
- The subprocess result is an `Outcome`: an exit code with stdout and stderr, the timeout, or an exception.
- The `random.uniform` jitter is a `real` in `[0, max_jitter]`.
- A shutdown signal is a flag on the input of a loop iteration.

Files:

- `wrappers.dfy`: the `Option` and `Result` types.
- `job_table.dfy` (module `JobTable`): the rows of both tables, and each store statement written as a pure function on the tables (`Inserted`, `SetState`, `Incremented`, `MovedToDlq`, `RemovedFromDlq`, `Summary`), with lemmas about them.
- `query.dfy` (module `Query`): `SELECT … WHERE … ORDER BY … LIMIT`, as a read-only method with a loop. Rows that tie on the sort column may come back in any order, as in SQLite. A negative LIMIT means no limit, as in SQLite.
- `storage.dfy` (module `Storage`): the class `JobStorage`. Each mutator is proved to perform its `JobTable` transition. Each query is specified by what it returns.
- `retry.dfy` (module `Retry`): `should_retry` and `calculate_backoff`, both pure.
- `worker.dfy` (module `Workers`): the class `Worker`, plus the functions `AfterFailure` and `AfterExecution`. These two functions give the effect of `_handle_job_failure` and `_execute_job` on the tables, statement by statement. The methods are proved to have exactly those effects, and the lemmas say what the effects mean.
- `manager.dfy` (module `Manager`): the class `JobQueueManager`.
- `scenarios.dfy` (module `Scenarios`): the two flows of the demo script, run through the manager and one worker.

Points where the code's behaviour is easy to misread, all of which the model keeps:

- The claim is not atomic. The worker reads the oldest pending row (`get_pending_jobs(limit=1)`) and only later, in a separate statement, sets it to `processing`.
- Rows that tie on `created_at` are not ordered by id. Their order is left open.
- The retry decision uses the attempt count read at claim time, plus one. The stored count is not read back after the increment.
- With `max_retries = k`, a job that always fails runs `max(k, 1)` times in total, so `max_retries` counts runs, not retries. With `max_retries = 1` it goes to the DLQ after its first failure.
- Ids are not unique across the two tables. `add_job` never looks at `dlq_jobs`. If a job's id already has a DLQ entry, `move_to_dlq`'s INSERT fails before its DELETE runs, so the job stays live.
- Within one process (concurrency is left out), no live row ever holds state `dead`. The `dead` update runs after the row has been deleted, so it matches nothing.
- A retry ceiling outside the 64-bit INTEGER range makes `add_job` raise OverflowError instead of returning False, so `enqueue` raises that error and inserts nothing. A `limit` outside that range makes `get_pending_jobs` raise the same error; the worker always passes 1.

## Model

| member | source | states |
|---|---|---|
| `JobTable.NewJob` | queuectl/storage.py:53-56 | the inserted row is `pending`, has 0 attempts and the given ceiling, and has `created_at = updated_at = now`; output and error are NULL |
| `JobTable.AddResultOf` | queuectl/storage.py:49-60 | `add_job` inserts exactly when the id is not live and the ceiling fits an INTEGER; it returns False exactly when the id is live and the ceiling fits; it raises OverflowError exactly when the ceiling does not fit, whatever the id |
| `JobTable.Inserted` | queuectl/storage.py:49-60 | an insert adds exactly the new row and leaves every other row as it was; a live id or an out-of-range ceiling leaves the table unchanged; the DLQ is not consulted |
| `JobTable.SetState` | queuectl/storage.py:82-94 | on a live id it sets exactly state, `updated_at`, output and error; command, attempts, ceiling and `created_at` are kept; other rows are untouched; an unknown id changes nothing |
| `JobTable.Incremented` | queuectl/storage.py:96-103 | the row's attempts go up by exactly one; no other field (including `updated_at`) and no other row changes |
| `JobTable.MoveResultOf` | queuectl/storage.py:105-125 | the id is moved exactly when it is live and has no DLQ entry; it is a no-op exactly when it is not live; otherwise the INSERT fails on the primary key |
| `JobTable.DlqEntryOf` | queuectl/storage.py:112-124 | the DLQ row copies id, command, attempts and ceiling from the live row, and stores the reason, `moved_at = now` and the whole live row |
| `JobTable.MovedToDlq` | queuectl/storage.py:105-126 | when moved, the id leaves `jobs` and gains a DLQ entry; in every other case nothing changes; no other row in either table changes |
| `JobTable.MoveConservesRows` | queuectl/storage.py:105-126 | live rows plus DLQ rows are the same in number before and after `move_to_dlq` |
| `JobTable.RemovedFromDlq` | queuectl/storage.py:134-137 | exactly that entry is deleted; an absent entry changes nothing |
| `JobTable.RemoveFromDlqIdempotent` | queuectl/storage.py:134-137 | removing the same entry twice is the same as removing it once |
| `JobTable.CountInState` | queuectl/storage.py:141-145 | a state's count is 0 exactly when no live row has that state |
| `JobTable.Summary` | queuectl/storage.py:139-149 | keys are exactly the states present among live rows; each maps to its row count; no count is zero |
| `JobTable.StateCountsAddUp` | queuectl/storage.py:141-145 | the per-state counts of the GROUP BY add up to the number of live rows |
| `JobTable.SummaryCountsAddUp` | queuectl/storage.py:139-149 | the counts in the summary dictionary add up to the number of live rows |
| `JobTable.IdsInState` | queuectl/storage.py:155 | the WHERE clause `state = ?` keeps exactly the live ids whose row is in that state |
| `Query.Limited` | queuectl/storage.py:78 | LIMIT returns all matches when there are no more than the limit (or the limit is negative), and otherwise exactly the limit |
| `Query.Select` | queuectl/storage.py:74-80 | given the set of keys the WHERE clause keeps: distinct matching rows, sorted by the ORDER BY column, as many as LIMIT allows; no row left out sorts before a returned row; with no effective limit, every match is returned |
| `Storage.JobStorage.constructor` | queuectl/storage.py:8-47 | a store over a new database file has empty tables |
| `Storage.JobStorage.AddJob` | queuectl/storage.py:49-60 | returns `AddResultOf(...)` (inserted, False, or OverflowError); the jobs table becomes `Inserted(...)`; the DLQ and the clock are unchanged |
| `Storage.JobStorage.GetJob` | queuectl/storage.py:62-69 | returns the live row for the id, or None exactly when there is none |
| `Storage.JobStorage.GetPendingJobs` | queuectl/storage.py:71-80 | raises OverflowError exactly when `limit` does not fit an INTEGER; otherwise returns at most `limit` rows, all live and pending, none repeated, in non-decreasing `created_at` order, with no pending row left out that is older than a returned one |
| `Storage.JobStorage.UpdateJobState` | queuectl/storage.py:82-94 | the jobs table becomes `SetState(...)` at the current clock; omitted output and error default to ""; the DLQ is unchanged |
| `Storage.JobStorage.IncrementAttempts` | queuectl/storage.py:96-103 | the jobs table becomes `Incremented(...)`; nothing else changes |
| `Storage.JobStorage.MoveToDlq` | queuectl/storage.py:105-126 | reports not-live, moved or duplicate, and the tables become `MovedToDlq(...)` at the current clock |
| `Storage.JobStorage.GetDlqJobs` | queuectl/storage.py:128-132 | returns every DLQ entry exactly once, in non-increasing `moved_at` order |
| `Storage.JobStorage.RemoveFromDlq` | queuectl/storage.py:134-137 | the DLQ becomes `RemovedFromDlq(...)`; the jobs table is unchanged |
| `Storage.JobStorage.GetJobSummary` | queuectl/storage.py:139-149 | the dictionary filled row by row equals `Summary(jobs)` |
| `Storage.JobStorage.GetJobsByState` | queuectl/storage.py:151-158 | returns exactly the live rows in that state, each once, in non-increasing `created_at` order |
| `Retry.ShouldRetry` | queuectl/retry.py:20-21 | a retry is allowed exactly while the count is below the ceiling; what this rule implies is stated by `Retry.NoRetryWithoutBudget` and `Retry.RefusalIsFinal` |
| `Retry.NoRetryWithoutBudget` | queuectl/retry.py:20-21 | with a ceiling of 0 or less, no attempt count is ever retried |
| `Retry.RefusalIsFinal` | queuectl/retry.py:20-21 | once a count is refused, every larger count is refused too |
| `Retry.Pow` | queuectl/retry.py:16 | Python's `**` for a non-negative exponent; at least 1 when the base is at least 1, carried through the recursion |
| `Retry.ExponentialDelay` | queuectl/retry.py:16 | `base ** attempt`; at least 1 when the base is at least 1 |
| `Retry.CalculateBackoff` | queuectl/retry.py:12-18 | for jitter in `[0, max_jitter]`, the delay lies between `base ** attempt` and `base ** attempt + max_jitter` |
| `Retry.ExponentialDelayMonotone` | queuectl/retry.py:16 | for a base of at least 1, the exponential part never shrinks as the attempt count grows |
| `Retry.DefaultDelayDoubles` | queuectl/retry.py:7-18 | with the default base 2, the exponential part starts at 1 and doubles with every attempt |
| `Retry.BackoffGrowsWithAttempts` | queuectl/retry.py:12-18 | the backoff for a later attempt is at least the exponential part for any earlier one, whatever jitter is drawn |
| `Workers.FailureText` | queuectl/worker.py:80-85 | the recorded error is stderr if it is non-empty and stdout otherwise, the fixed timeout text, or the exception's text |
| `Workers.DecimalString` | queuectl/worker.py:115 | the ceiling is written with a minus sign exactly when it is negative, followed by digits that read back as its magnitude |
| `Workers.DlqReason` | queuectl/worker.py:115 | the reason opens with `Max retries (`, then gives the ceiling in decimal, and ends with the last error |
| `Workers.AfterFailure` | queuectl/worker.py:87-117 | the failure handler schedules a retry exactly when the claim-time count + 1 is below the ceiling, with the backoff of the claim-time count and the DLQ unchanged; it aborts with the integrity error exactly when the ceiling is reached and the live id already has a DLQ entry; it never completes a job, never adds a live row, and a dead-lettered job is no longer live |
| `Workers.AfterExecution` | queuectl/worker.py:53-85 | an execution completes exactly when the exit status is 0; it schedules a retry exactly on a failure below the ceiling; an abort carries the integrity error; it never adds a live row |
| `Workers.NatString` | queuectl/worker.py:115 | the ceiling is written as a non-empty string of decimal digits |
| `Workers.NatStringRoundTrip` | queuectl/worker.py:115 | the digits written for the ceiling read back as the ceiling |
| `Workers.SuccessCompletes` | queuectl/worker.py:71-76 | exit status 0 makes the job `completed`, with output = stdout and error cleared; attempts and the DLQ are unchanged |
| `Workers.FailureCountsOneAttempt` | queuectl/worker.py:80-117 | a failure while the id has no DLQ entry adds exactly one to the stored attempts, on the live row or on its new DLQ entry |
| `Workers.RetryReleasesUnlessStopping` | queuectl/worker.py:97-109 | when the claim-time attempts + 1 is below the ceiling, the job stays live with attempts + 1; it is `pending` with error cleared if the worker is still running, and `failed` with the error otherwise; the delay is the backoff for the claim-time count |
| `Workers.ExhaustedJobIsDeadLettered` | queuectl/worker.py:110-117 | when the ceiling is reached and the id has no DLQ entry, the job leaves the live table; its DLQ entry has the reason `Max retries (k) exceeded. Last error: e`, attempts + 1, its command and ceiling, and `moved_at = now` |
| `Workers.DuplicateDlqEntryKeepsJobLive` | queuectl/worker.py:79-117 | when the ceiling is reached and the id already has a DLQ entry, the job stays live in `processing`, the DLQ is untouched and the iteration ends with the integrity error; on a non-zero exit the handler runs twice, so attempts go up by 2 |
| `Workers.OnlyClaimedRowChanges` | queuectl/worker.py:53-117 | an execution changes no row but the claimed job's, in either table |
| `Workers.NoLiveDeadJob` | queuectl/worker.py:116-117 | no execution leaves a live row in state `dead` |
| `Workers.ExecutionConservesRows` | queuectl/worker.py:53-117 | live rows plus DLQ rows are the same in number before and after an execution |
| `Workers.Worker.constructor` | queuectl/worker.py:12-17 | a new worker is running, has no current job and uses the default retry policy |
| `Workers.Worker.HandleShutdown` | queuectl/worker.py:23-25 | clears `running` |
| `Workers.Worker.HandleJobFailure` | queuectl/worker.py:87-117 | the tables become `AfterFailure(...)`: increment, then either `failed` and (while running) `pending`, or move to the DLQ followed by the `dead` update |
| `Workers.Worker.ExecuteJob` | queuectl/worker.py:53-85 | the job is marked `processing` and the tables become `AfterExecution(...)` for the given outcome; the failure handler runs again when it raised on the non-zero-exit path |
| `Workers.Worker.Step` | queuectl/worker.py:31-43 | it reports idle exactly when no row is pending, and then nothing changes; otherwise the claimed job is an oldest pending row, becomes the current job, and the tables become `AfterExecution(...)` with the running flag the input's shutdown signal leaves (`IsStep`) |
| `Workers.StepKeepsInvariants` | queuectl/worker.py:31-43 | an iteration neither creates nor loses a row and never leaves a live job in state `dead` |
| `Workers.Worker.Start` | queuectl/worker.py:27-51 | the ghost trace holds the tables before and after every iteration, from the initial to the final tables, and each iteration is `IsStep` on its own input (`Follows`); a worker that is not running runs nothing; every iteration but the last saw no shutdown signal, the worker is running afterwards exactly when the last one saw none, and it stops before the inputs run out only after a shutdown signal; the worker never creates or loses a row and never leaves a live job in state `dead` |
| `Manager.FindEntry` | queuectl/manager.py:31-32 | finds an entry exactly when the listing has one with that id, and returns the first such entry |
| `Manager.RetriedFromDlq` | queuectl/manager.py:30-43 | without a DLQ entry, or when re-adding its ceiling raises, nothing changes; otherwise the entry is deleted, the id is live afterwards (a fresh `NewJob` row unless it was live already), and no other row of either table changes |
| `Manager.RetryWithoutEntryChangesNothing` | queuectl/manager.py:30-35 | replaying an id with no DLQ entry changes nothing |
| `Manager.RetryRestoresPendingJob` | queuectl/manager.py:38-43 | replaying an entry whose id is not live gives a live `pending` job with 0 attempts and the entry's command and ceiling, and the entry is gone; no other row of either table changes |
| `Manager.RetryOfLiveIdDropsEntry` | queuectl/manager.py:38-43 | replaying an entry whose id is live leaves the jobs table as it is, yet the entry is still deleted |
| `Manager.DlqRoundTrip` | queuectl/manager.py:30-43 | moving a job to the DLQ and replaying it gives a fresh pending job with the original command and ceiling, and leaves the DLQ and every other row as they were |
| `Manager.JobQueueManager.constructor` | queuectl/manager.py:6-7 | the manager works on the given store |
| `Manager.JobQueueManager.Enqueue` | queuectl/manager.py:9-16 | a fresh id with an in-range ceiling is returned and inserted as a pending job; an id that is already live gives the "Failed to enqueue job" error; an out-of-range ceiling gives the OverflowError; neither failure adds a row |
| `Manager.JobQueueManager.GetStatus` | queuectl/manager.py:18-19 | returns the live row for the id, or None |
| `Manager.JobQueueManager.ListJobsByState` | queuectl/manager.py:21-22 | returns exactly the store's listing of live rows in that state |
| `Manager.JobQueueManager.GetQueueSummary` | queuectl/manager.py:24-25 | returns exactly the store's summary |
| `Manager.JobQueueManager.GetDlqJobs` | queuectl/manager.py:27-28 | returns exactly the store's DLQ listing |
| `Manager.JobQueueManager.RetryDlqJob` | queuectl/manager.py:30-43 | returns true exactly when the id has a DLQ entry, and the tables become `RetriedFromDlq(...)` |
| `Scenarios.BasicFlow` | scripts/test_demo.py:8-19 | `echo hello` with ceiling 2 is completed by the first iteration, with its output and 0 attempts |
| `Scenarios.FailingJobReachesDlq` | scripts/test_demo.py:21-32 | a job whose command always exits with status 1 with the given stdout and stderr (both empty for `exit 1`) and has ceiling k runs `max(k, 1)` times, then is absent from the live table and present in the DLQ with that many attempts and a reason naming k and the recorded error (stderr, or stdout when stderr is empty); an out-of-range k makes `enqueue` raise and nothing runs |

## Left out

- SQLite plumbing is not modelled: connections, commits, schema creation and the `config` table (queuectl/storage.py:12-47). The tables are maps.
- The `original_job` column is stored as the row itself, not as a JSON text.
- The `state` column is free text in the source. The model allows only the five states the worker writes. A listing for any other text would be empty.
- Running the command through `subprocess.run` with `shell=True` and the 300-second timeout is not modelled. Its result is the `Outcome` input.
- The `while self.running` loop never ends by itself. `Start` also stops when its finite list of iteration inputs runs out.
- Signals are not modelled. Shutdown is the `interrupted` flag of an iteration, taken to arrive while the command runs.
- `time.sleep` is not modelled: neither the poll interval, nor the backoff wait, nor `wait_before_retry` (which the worker never calls).
- The logging and printing are not modelled.
- `start`'s catch-all handler is not modelled, except for one case: the integrity error from a duplicate DLQ insert. That case is modelled as `Aborted`. Other storage I/O errors are not.
- Concurrency between worker processes is not modelled. The model is single-threaded. Since the claim is a read followed by a separate write, at-most-one-claim cannot be shown from this code.
- `random.uniform` and float arithmetic are not modelled. Jitter and delay are exact reals, and the jitter is any value in `[0, max_jitter]`. A negative `max_jitter` is not modelled.
- `utcnow()` is a `nat` clock that `Start` does not advance. Every timestamp written within one `Start` run has the same value.
- Timestamps are stored as `isoformat() + "Z"` text, and ORDER BY compares that text. `isoformat()` omits the fraction when the microseconds are 0, so `…:05Z` sorts after `…:05.000001Z` although it is earlier. The model orders by the numeric clock, so the listing orders (`IsPendingListing`, `IsStateListing`, `IsDlqListing`) and the oldest-pending claim of `Workers.Worker.Step` can differ from the source for such timestamps.
- `Storage.JobStorage.constructor`: a store object stands for the database file, and the constructor models only a new file. Opening an existing file with `CREATE TABLE IF NOT EXISTS` keeps its rows, which is not modelled. `Worker` and `JobQueueManager` are given the store object instead of each opening `db_path`.
- Attempt counts are assumed to stay below 2^63. SQLite's `attempts + 1` beyond that range is not modelled.
- `uuid4()` is not modelled. The id is a parameter of `Enqueue`.
- `Workers.Worker.Step`: which of several equally old pending jobs is claimed is left open, as the ORDER BY leaves it.
- queuectl/cli.py is not part of this model: argument parsing, JSON validation and text rendering are interface code.
- setup.py is not part of this model: it is packaging metadata.

/**
 * The worker (`Worker`): one iteration of its polling loop claims the oldest
 * pending job, runs it and writes the outcome back through the store.  The
 * command's outcome, the jitter drawn for the backoff and the arrival of a
 * shutdown signal are inputs of the iteration.
 *
 * `AfterFailure` and `AfterExecution` give, as functions on the tables, the
 * effect of `_handle_job_failure` and `_execute_job` statement by statement;
 * the methods of the class are proved to have exactly that effect, and the
 * lemmas below say what the effect means.
 */
module Workers {
  import opened Wrappers
  import opened JobTable
  import opened Retry
  import opened Storage

  /** What running the command produced: an exit status with the captured
      streams, the 300-second timeout, or an exception raised while starting
      or waiting for the process. */
  datatype Outcome = Exited(code: int, stdout: string, stderr: string) | TimedOut | Crashed(message: string)

  predicate Succeeded(o: Outcome) {
    o.Exited? && o.code == 0
  }

  const TimeoutMessage: string := "Command timeout (5 minutes exceeded)"

  /** The text of the integrity error SQLite raises for a second DLQ row with
      the same id. */
  const DuplicateDlqMessage: string := "UNIQUE constraint failed: dlq_jobs.id"

  /** The error text recorded for a failed attempt: `stderr or stdout` on a
      non-zero exit, the fixed timeout text, or the exception's text. */
  function FailureText(o: Outcome): (msg: string)
    requires !Succeeded(o)
    ensures o.Exited? && o.stderr != "" ==> msg == o.stderr
    ensures o.Exited? && o.stderr == "" ==> msg == o.stdout
    ensures o.TimedOut? ==> msg == TimeoutMessage
    ensures o.Crashed? ==> msg == o.message
  {
    match o
    case Exited(_, out, err) => if err != "" then err else out
    case TimedOut => TimeoutMessage
    case Crashed(m) => m
  }

  // ---------------------------------------------------------------------------
  // The DLQ reason text

  function DigitChar(d: nat): (c: char)
    requires d < 10
    ensures '0' <= c <= '9' && c as int - '0' as int == d
  {
    ('0' as int + d) as char
  }

  /** Python's `str()` of a non-negative integer. */
  function NatString(n: nat): (s: string)
    ensures |s| >= 1
    ensures forall i :: 0 <= i < |s| ==> '0' <= s[i] <= '9'
    decreases n
  {
    if n < 10 then [DigitChar(n)] else NatString(n / 10) + [DigitChar(n % 10)]
  }

  /** Python's `str()` of an integer: a minus sign exactly for a negative
      value, followed by digits that read back as its magnitude. */
  function DecimalString(n: int): (s: string)
    ensures |s| >= 1 && (s[0] == '-' <==> n < 0)
    ensures var digits := if n < 0 then s[1..] else s;
      && (forall i :: 0 <= i < |digits| ==> '0' <= digits[i] <= '9')
      && DigitsValue(digits) == if n < 0 then -n else n
  {
    if n < 0 then
      NatStringRoundTrip(-n);
      assert ("-" + NatString(-n))[1..] == NatString(-n);
      "-" + NatString(-n)
    else
      NatStringRoundTrip(n);
      NatString(n)
  }

  /** The value of a string of decimal digits. */
  function DigitsValue(s: string): nat
    requires forall i :: 0 <= i < |s| ==> '0' <= s[i] <= '9'
  {
    if s == [] then 0 else 10 * DigitsValue(s[..|s| - 1]) + (s[|s| - 1] as int - '0' as int)
  }

  /** The digits written for a count read back as that count, so a DLQ
      reason names its retry ceiling unambiguously. */
  lemma {:induction false} NatStringRoundTrip(n: nat)
    ensures DigitsValue(NatString(n)) == n
    decreases n
  {
    if n >= 10 {
      NatStringRoundTrip(n / 10);
      var s := NatString(n);
      assert s[..|s| - 1] == NatString(n / 10);
    }
  }

  const ReasonPrefix: string := "Max retries ("

  /** The reason stored with a job moved to the DLQ: it opens with the fixed
      prefix, then names the ceiling in decimal, and closes with the last
      error. */
  function DlqReason(maxRetries: int, error: string): (reason: string)
    ensures |reason| >= |ReasonPrefix| + |DecimalString(maxRetries)| + |error|
    ensures reason[..|ReasonPrefix|] == ReasonPrefix
    ensures reason[|ReasonPrefix|..|ReasonPrefix| + |DecimalString(maxRetries)|] == DecimalString(maxRetries)
    ensures reason[|reason| - |error|..] == error
  {
    var digits := DecimalString(maxRetries);
    var head := ReasonPrefix + digits;
    var reason := head + ") exceeded. Last error: " + error;
    assert head[..|ReasonPrefix|] == ReasonPrefix && head[|ReasonPrefix|..] == digits;
    assert reason[..|head|] == head;
    reason
  }

  // ---------------------------------------------------------------------------
  // The effect of one execution, as functions on the tables

  /** How an execution ended, as the worker sees it. */
  datatype EffectKind =
    | CompletedOk
      /** retry allowed: the job was marked failed and, if the worker was still
          running, released to pending after waiting `delay` seconds */
    | RetryScheduled(requeued: bool, delay: real)
    | DeadLettered
      /** an exception escaped `_execute_job`; the loop logs it */
    | Aborted(message: string)

  datatype Effect = Effect(tables: Tables, kind: EffectKind)

  /** `_handle_job_failure(job, msg)`: `job` is the row as read at claim time,
      `running` the worker's flag when the retry branch tests it. */
  function AfterFailure(t: Tables, job: Job, msg: string, running: bool,
                        p: RetryPolicy, jitter: real, now: nat): (e: Effect)
    requires 0.0 <= jitter <= p.maxJitter
    ensures e.kind.RetryScheduled? <==> ShouldRetry(job.attempts + 1, job.maxRetries)
    ensures e.kind.RetryScheduled? ==>
      e.kind == RetryScheduled(running, CalculateBackoff(p, job.attempts, jitter)) && e.tables.dlq == t.dlq
    ensures e.kind.Aborted? <==>
      !ShouldRetry(job.attempts + 1, job.maxRetries) && job.id in t.jobs && job.id in t.dlq
    ensures e.kind.Aborted? ==> e.kind.message == DuplicateDlqMessage && e.tables.dlq == t.dlq
    ensures e.kind != CompletedOk
    ensures e.kind == DeadLettered ==> job.id !in e.tables.jobs
    ensures e.tables.jobs.Keys <= t.jobs.Keys
  {
    var incremented := Tables(Incremented(t.jobs, job.id), t.dlq);
    if ShouldRetry(job.attempts + 1, job.maxRetries) then
      var failed := SetState(incremented.jobs, job.id, Failed, "", msg, now);
      var released := if running then SetState(failed, job.id, Pending, "", "", now) else failed;
      Effect(Tables(released, t.dlq), RetryScheduled(running, CalculateBackoff(p, job.attempts, jitter)))
    else if MoveResultOf(incremented, job.id) == DuplicateEntry then
      Effect(incremented, Aborted(DuplicateDlqMessage))
    else
      var moved := MovedToDlq(incremented, job.id, DlqReason(job.maxRetries, msg), now);
      Effect(Tables(SetState(moved.jobs, job.id, Dead, "", msg, now), moved.dlq), DeadLettered)
  }

  /** `_execute_job(job)` once the command has produced `o`.  On a non-zero
      exit `_handle_job_failure` runs inside the `try`, so an exception it
      raises is handled by running it a second time with the exception's
      text; on a timeout or an exception it already runs in the handler. */
  function AfterExecution(t: Tables, job: Job, o: Outcome, running: bool,
                          p: RetryPolicy, jitter: real, now: nat): (e: Effect)
    requires 0.0 <= jitter <= p.maxJitter
    ensures e.kind == CompletedOk <==> Succeeded(o)
    ensures e.kind.RetryScheduled? <==> !Succeeded(o) && ShouldRetry(job.attempts + 1, job.maxRetries)
    ensures e.kind.Aborted? ==> e.kind.message == DuplicateDlqMessage
    ensures e.kind == DeadLettered ==> job.id !in e.tables.jobs
    ensures e.tables.jobs.Keys <= t.jobs.Keys
  {
    var claimed := Tables(SetState(t.jobs, job.id, Processing, "", "", now), t.dlq);
    if Succeeded(o) then
      Effect(Tables(SetState(claimed.jobs, job.id, Completed, o.stdout, "", now), t.dlq), CompletedOk)
    else
      var first := AfterFailure(claimed, job, FailureText(o), running, p, jitter, now);
      if o.Exited? && first.kind.Aborted? then
        AfterFailure(first.tables, job, first.kind.message, running, p, jitter, now)
      else
        first
  }

  /** The claimed row: live, pending, and no pending row is older. */
  ghost predicate IsOldestPending(jobs: Jobs, j: Job) {
    && j.id in jobs && jobs[j.id] == j && j.state == Pending
    && forall id :: id in IdsInState(jobs, Pending) ==> j.createdAt <= jobs[id].createdAt
  }

  // ---------------------------------------------------------------------------
  // What an execution does to the claimed job

  /** Exit status 0 completes the job with the captured stdout and leaves its
      attempt count and the DLQ alone. */
  lemma SuccessCompletes(t: Tables, job: Job, o: Outcome, running: bool, p: RetryPolicy, jitter: real, now: nat)
    requires 0.0 <= jitter <= p.maxJitter
    requires job.id in t.jobs && Succeeded(o)
    ensures var e := AfterExecution(t, job, o, running, p, jitter, now);
      && e.kind == CompletedOk && e.tables.dlq == t.dlq
      && job.id in e.tables.jobs
      && e.tables.jobs[job.id].state == Completed
      && e.tables.jobs[job.id].output == Some(o.stdout)
      && e.tables.jobs[job.id].error == Some("")
      && e.tables.jobs[job.id].attempts == t.jobs[job.id].attempts
  {
  }

  /** A failure while the id has no DLQ entry adds exactly one to the stored
      attempt count: the job is either still live with one more attempt, or
      its DLQ entry carries one more attempt. */
  lemma FailureCountsOneAttempt(t: Tables, job: Job, o: Outcome, running: bool, p: RetryPolicy, jitter: real, now: nat)
    requires 0.0 <= jitter <= p.maxJitter
    requires job.id in t.jobs && job.id !in t.dlq && !Succeeded(o)
    ensures var e := AfterExecution(t, job, o, running, p, jitter, now);
      || (job.id in e.tables.jobs && job.id !in e.tables.dlq
          && e.tables.jobs[job.id].attempts == t.jobs[job.id].attempts + 1)
      || (job.id !in e.tables.jobs && job.id in e.tables.dlq
          && e.tables.dlq[job.id].attempts == t.jobs[job.id].attempts + 1)
  {
    var claimed := Tables(SetState(t.jobs, job.id, Processing, "", "", now), t.dlq);
    assert MoveResultOf(Tables(Incremented(claimed.jobs, job.id), claimed.dlq), job.id) == Moved;
  }

  /** When the attempt count after this failure is still below the ceiling,
      the job is kept live with the error recorded; it is back in `pending`
      (error cleared) if the worker is still running and stays `failed`
      otherwise.  The delay is the backoff for the count before the failure. */
  lemma RetryReleasesUnlessStopping(t: Tables, job: Job, o: Outcome, running: bool, p: RetryPolicy, jitter: real, now: nat)
    requires 0.0 <= jitter <= p.maxJitter
    requires job.id in t.jobs && !Succeeded(o)
    requires ShouldRetry(job.attempts + 1, job.maxRetries)
    ensures var e := AfterExecution(t, job, o, running, p, jitter, now);
      && e.kind == RetryScheduled(running, CalculateBackoff(p, job.attempts, jitter))
      && e.tables.dlq == t.dlq
      && job.id in e.tables.jobs
      && e.tables.jobs[job.id].state == (if running then Pending else Failed)
      && e.tables.jobs[job.id].error == Some(if running then "" else FailureText(o))
      && e.tables.jobs[job.id].attempts == t.jobs[job.id].attempts + 1
  {
  }

  /** When the attempt count after this failure reaches the ceiling and the id
      has no DLQ entry yet, the job leaves the live table for the DLQ with the
      reason naming the ceiling and the last error; the `dead` update that
      follows finds no row. */
  lemma ExhaustedJobIsDeadLettered(t: Tables, job: Job, o: Outcome, running: bool, p: RetryPolicy, jitter: real, now: nat)
    requires 0.0 <= jitter <= p.maxJitter
    requires job.id in t.jobs && job.id !in t.dlq && !Succeeded(o)
    requires !ShouldRetry(job.attempts + 1, job.maxRetries)
    ensures var e := AfterExecution(t, job, o, running, p, jitter, now);
      && e.kind == DeadLettered
      && job.id !in e.tables.jobs
      && e.tables.jobs.Keys == t.jobs.Keys - {job.id}
      && job.id in e.tables.dlq
      && e.tables.dlq[job.id].reason == DlqReason(job.maxRetries, FailureText(o))
      && e.tables.dlq[job.id].command == t.jobs[job.id].command
      && e.tables.dlq[job.id].maxRetries == t.jobs[job.id].maxRetries
      && e.tables.dlq[job.id].attempts == t.jobs[job.id].attempts + 1
      && e.tables.dlq[job.id].movedAt == now
  {
    var claimed := Tables(SetState(t.jobs, job.id, Processing, "", "", now), t.dlq);
    assert MoveResultOf(Tables(Incremented(claimed.jobs, job.id), claimed.dlq), job.id) == Moved;
  }

  /** When the ceiling is reached but the id already has a DLQ entry, the
      INSERT fails before the DELETE: the job stays live in `processing`, the
      DLQ is untouched and the iteration ends with the integrity error.  On a
      non-zero exit the handler runs twice, so two attempts are counted. */
  lemma DuplicateDlqEntryKeepsJobLive(t: Tables, job: Job, o: Outcome, running: bool, p: RetryPolicy, jitter: real, now: nat)
    requires 0.0 <= jitter <= p.maxJitter
    requires job.id in t.jobs && job.id in t.dlq && !Succeeded(o)
    requires !ShouldRetry(job.attempts + 1, job.maxRetries)
    ensures var e := AfterExecution(t, job, o, running, p, jitter, now);
      && e.kind == Aborted(DuplicateDlqMessage)
      && e.tables.dlq == t.dlq
      && job.id in e.tables.jobs
      && e.tables.jobs[job.id].state == Processing
      && e.tables.jobs[job.id].attempts == t.jobs[job.id].attempts + (if o.Exited? then 2 else 1)
  {
  }

  /** An execution touches no row but the claimed job's, in either table. */
  lemma OnlyClaimedRowChanges(t: Tables, job: Job, o: Outcome, running: bool, p: RetryPolicy, jitter: real, now: nat, other: string)
    requires 0.0 <= jitter <= p.maxJitter
    requires other != job.id
    ensures var e := AfterExecution(t, job, o, running, p, jitter, now);
      && (other in e.tables.jobs <==> other in t.jobs)
      && (other in t.jobs ==> e.tables.jobs[other] == t.jobs[other])
      && (other in e.tables.dlq <==> other in t.dlq)
      && (other in t.dlq ==> e.tables.dlq[other] == t.dlq[other])
  {
    var claimed := Tables(SetState(t.jobs, job.id, Processing, "", "", now), t.dlq);
    if !Succeeded(o) {
      FailureOnlyTouchesJob(claimed, job, FailureText(o), running, p, jitter, now, other);
      var first := AfterFailure(claimed, job, FailureText(o), running, p, jitter, now);
      if o.Exited? && first.kind.Aborted? {
        FailureOnlyTouchesJob(first.tables, job, first.kind.message, running, p, jitter, now, other);
      }
    }
  }

  lemma FailureOnlyTouchesJob(t: Tables, job: Job, msg: string, running: bool, p: RetryPolicy, jitter: real, now: nat, other: string)
    requires 0.0 <= jitter <= p.maxJitter
    requires other != job.id
    ensures var e := AfterFailure(t, job, msg, running, p, jitter, now);
      && (other in e.tables.jobs <==> other in t.jobs)
      && (other in t.jobs ==> e.tables.jobs[other] == t.jobs[other])
      && (other in e.tables.dlq <==> other in t.dlq)
      && (other in t.dlq ==> e.tables.dlq[other] == t.dlq[other])
  {
  }

  /** No execution leaves a live row in state `dead`: the `dead` update only
      runs after the row was deleted. */
  lemma NoLiveDeadJob(t: Tables, job: Job, o: Outcome, running: bool, p: RetryPolicy, jitter: real, now: nat)
    requires 0.0 <= jitter <= p.maxJitter
    requires NoDeadRow(t.jobs)
    ensures NoDeadRow(AfterExecution(t, job, o, running, p, jitter, now).tables.jobs)
  {
    var claimed := Tables(SetState(t.jobs, job.id, Processing, "", "", now), t.dlq);
    if !Succeeded(o) {
      FailureKeepsNoDeadRow(claimed, job, FailureText(o), running, p, jitter, now);
      var first := AfterFailure(claimed, job, FailureText(o), running, p, jitter, now);
      if o.Exited? && first.kind.Aborted? {
        FailureKeepsNoDeadRow(first.tables, job, first.kind.message, running, p, jitter, now);
      }
    }
  }

  lemma FailureKeepsNoDeadRow(t: Tables, job: Job, msg: string, running: bool, p: RetryPolicy, jitter: real, now: nat)
    requires 0.0 <= jitter <= p.maxJitter
    requires NoDeadRow(t.jobs)
    ensures NoDeadRow(AfterFailure(t, job, msg, running, p, jitter, now).tables.jobs)
  {
    var incremented := Tables(Incremented(t.jobs, job.id), t.dlq);
    if !ShouldRetry(job.attempts + 1, job.maxRetries) && MoveResultOf(incremented, job.id) != DuplicateEntry {
      var moved := MovedToDlq(incremented, job.id, DlqReason(job.maxRetries, msg), now);
      assert job.id !in moved.jobs;
    }
  }

  /** An execution neither creates nor loses a row: live rows plus DLQ rows
      stay the same in number. */
  lemma ExecutionConservesRows(t: Tables, job: Job, o: Outcome, running: bool, p: RetryPolicy, jitter: real, now: nat)
    requires 0.0 <= jitter <= p.maxJitter
    ensures var e := AfterExecution(t, job, o, running, p, jitter, now);
      |e.tables.jobs| + |e.tables.dlq| == |t.jobs| + |t.dlq|
  {
    var claimed := Tables(SetState(t.jobs, job.id, Processing, "", "", now), t.dlq);
    if !Succeeded(o) {
      FailureConservesRows(claimed, job, FailureText(o), running, p, jitter, now);
      var first := AfterFailure(claimed, job, FailureText(o), running, p, jitter, now);
      if o.Exited? && first.kind.Aborted? {
        FailureConservesRows(first.tables, job, first.kind.message, running, p, jitter, now);
      }
    }
  }

  lemma FailureConservesRows(t: Tables, job: Job, msg: string, running: bool, p: RetryPolicy, jitter: real, now: nat)
    requires 0.0 <= jitter <= p.maxJitter
    ensures var e := AfterFailure(t, job, msg, running, p, jitter, now);
      |e.tables.jobs| + |e.tables.dlq| == |t.jobs| + |t.dlq|
  {
    var incremented := Tables(Incremented(t.jobs, job.id), t.dlq);
    if !ShouldRetry(job.attempts + 1, job.maxRetries) && MoveResultOf(incremented, job.id) != DuplicateEntry {
      MoveConservesRows(incremented, job.id, DlqReason(job.maxRetries, msg), now);
    }
  }

  // ---------------------------------------------------------------------------
  // The worker

  /** The inputs of one loop iteration: what the command produced, the jitter
      `random.uniform` draws, and whether a shutdown signal arrives. */
  datatype StepInput = StepInput(outcome: Outcome, jitter: real, interrupted: bool)

  datatype StepReport =
    | Idle
    | Ran(job: Job, kind: EffectKind)

  /** One iteration of the loop, as the tables see it: with no pending job
      nothing changes; otherwise an oldest pending job is executed, with the
      worker's flag as the input's shutdown signal leaves it. */
  ghost predicate IsStep(before: Tables, after: Tables, report: StepReport, input: StepInput,
                         p: RetryPolicy, now: nat)
  {
    && 0.0 <= input.jitter <= p.maxJitter
    && match report
       case Idle => after == before && CountInState(before.jobs, Pending) == 0
       case Ran(job, kind) =>
         && IsOldestPending(before.jobs, job)
         && Effect(after, kind) == AfterExecution(before, job, input.outcome, !input.interrupted, p, input.jitter, now)
  }

  /** An iteration neither creates nor loses a row and never leaves a live
      job in state `dead`. */
  lemma StepKeepsInvariants(before: Tables, after: Tables, report: StepReport, input: StepInput,
                            p: RetryPolicy, now: nat)
    requires IsStep(before, after, report, input, p, now)
    ensures |after.jobs| + |after.dlq| == |before.jobs| + |before.dlq|
    ensures NoDeadRow(before.jobs) ==> NoDeadRow(after.jobs)
  {
    if report.Ran? {
      ExecutionConservesRows(before, report.job, input.outcome, !input.interrupted, p, input.jitter, now);
      if NoDeadRow(before.jobs) {
        NoLiveDeadJob(before, report.job, input.outcome, !input.interrupted, p, input.jitter, now);
      }
    }
  }

  /** `trace` holds the tables before and after each iteration of `reports`,
      and iteration `i` is the step on `inputs[i]`. */
  ghost predicate Follows(trace: seq<Tables>, reports: seq<StepReport>, inputs: seq<StepInput>,
                          p: RetryPolicy, now: nat)
  {
    && |trace| == |reports| + 1 && |reports| <= |inputs|
    && forall i {:trigger reports[i]} :: 0 <= i < |reports| ==>
         IsStep(trace[i], trace[i + 1], reports[i], inputs[i], p, now)
  }

  /** One more iteration on the next input extends the trace. */
  lemma FollowsExtend(trace: seq<Tables>, reports: seq<StepReport>, inputs: seq<StepInput>,
                      p: RetryPolicy, now: nat, after: Tables, report: StepReport)
    requires Follows(trace, reports, inputs, p, now) && |reports| < |inputs|
    requires IsStep(trace[|reports|], after, report, inputs[|reports|], p, now)
    ensures Follows(trace + [after], reports + [report], inputs, p, now)
  {
    var trace', reports' := trace + [after], reports + [report];
    forall i | 0 <= i < |reports'|
      ensures IsStep(trace'[i], trace'[i + 1], reports'[i], inputs[i], p, now)
    {
      if i < |reports| {
        assert reports'[i] == reports[i] && trace'[i] == trace[i] && trace'[i + 1] == trace[i + 1];
      }
    }
  }

  class Worker {
    const workerId: int
    const storage: JobStorage
    const policy: RetryPolicy
    var running: bool
    var currentJobId: Option<string>

    constructor (workerId: int, storage: JobStorage)
      ensures this.workerId == workerId && this.storage == storage
      ensures policy == DefaultPolicy
      ensures running && currentJobId == None
    {
      this.workerId := workerId;
      this.storage := storage;
      policy := DefaultPolicy;
      running := true;
      currentJobId := None;
    }

    /** `_handle_shutdown`: the loop stops after the current iteration. */
    method HandleShutdown()
      modifies this
      ensures !running && currentJobId == old(currentJobId)
    {
      running := false;
    }

    /** `_handle_job_failure(job, errorMsg)`.  Returns `Aborted` where the
        source raises out of the method. */
    method HandleJobFailure(job: Job, errorMsg: string, jitter: real) returns (kind: EffectKind)
      requires storage.Valid()
      requires 0.0 <= jitter <= policy.maxJitter
      modifies storage
      ensures storage.Valid() && storage.clock == old(storage.clock)
      ensures Effect(storage.Snapshot(), kind)
                == AfterFailure(old(storage.Snapshot()), job, errorMsg, running, policy, jitter, storage.clock)
    {
      storage.IncrementAttempts(job.id);
      if ShouldRetry(job.attempts + 1, job.maxRetries) {
        storage.UpdateJobState(job.id, Failed, error := errorMsg);
        var delay := CalculateBackoff(policy, job.attempts, jitter);
        if running {
          // the backoff wait itself is not modelled
          storage.UpdateJobState(job.id, Pending);
        }
        kind := RetryScheduled(running, delay);
      } else {
        var reason := DlqReason(job.maxRetries, errorMsg);
        var moved := storage.MoveToDlq(job.id, reason);
        if moved == DuplicateEntry {
          return Aborted(DuplicateDlqMessage);
        }
        storage.UpdateJobState(job.id, Dead, error := errorMsg);
        kind := DeadLettered;
      }
    }

    /** `_execute_job(job)` with the command's outcome given; a shutdown
        signal, if one arrives, arrives while the command runs. */
    method ExecuteJob(job: Job, outcome: Outcome, jitter: real, interrupted: bool) returns (kind: EffectKind)
      requires storage.Valid()
      requires 0.0 <= jitter <= policy.maxJitter
      modifies this, storage
      ensures storage.Valid() && storage.clock == old(storage.clock)
      ensures running == (old(running) && !interrupted)
      ensures currentJobId == old(currentJobId)
      ensures Effect(storage.Snapshot(), kind)
                == AfterExecution(old(storage.Snapshot()), job, outcome, running, policy, jitter, storage.clock)
    {
      storage.UpdateJobState(job.id, Processing);
      if interrupted {
        HandleShutdown();
      }
      match outcome
      case Exited(code, out, err) =>
        if code == 0 {
          storage.UpdateJobState(job.id, Completed, output := out);
          kind := CompletedOk;
        } else {
          kind := HandleJobFailure(job, if err != "" then err else out, jitter);
          if kind.Aborted? {
            kind := HandleJobFailure(job, kind.message, jitter);
          }
        }
      case TimedOut =>
        kind := HandleJobFailure(job, TimeoutMessage, jitter);
      case Crashed(message) =>
        kind := HandleJobFailure(job, message, jitter);
    }

    /** One iteration of `start`'s loop: claim the oldest pending job by
        reading it and then marking it `processing`, and execute it; with no
        pending job, sleep and change nothing. */
    method Step(input: StepInput) returns (report: StepReport)
      requires storage.Valid() && running
      requires 0.0 <= input.jitter <= policy.maxJitter
      modifies this, storage
      ensures storage.Valid() && storage.clock == old(storage.clock)
      ensures running == !input.interrupted
      ensures report.Idle? <==> CountInState(old(storage.jobs), Pending) == 0
      ensures currentJobId == if report.Ran? then Some(report.job.id) else old(currentJobId)
      ensures IsStep(old(storage.Snapshot()), storage.Snapshot(), report, input, policy, storage.clock)
    {
      var pending := storage.GetPendingJobs(limit := 1);
      var jobs := pending.value;
      if |jobs| == 0 {
        // the poll interval is not modelled
        if input.interrupted {
          HandleShutdown();
        }
        return Idle;
      }
      var job := jobs[0];
      assert job.id in IdsOf(jobs, JobId);
      currentJobId := Some(job.id);
      var kind := ExecuteJob(job, input.outcome, input.jitter, input.interrupted);
      report := Ran(job, kind);
    }

    /** `start`: iterations run while the worker is running; the loop of the
        source never ends by itself, so here it also ends when the inputs
        run out.  `trace` holds both tables before and after every
        iteration, and each iteration is the `Step` on its own input.  The
        loop stops early only on a shutdown signal; the worker never
        creates or loses a row and never leaves a live job in state `dead`. */
    method Start(inputs: seq<StepInput>) returns (reports: seq<StepReport>, ghost trace: seq<Tables>)
      requires storage.Valid()
      requires forall i :: 0 <= i < |inputs| ==> 0.0 <= inputs[i].jitter <= policy.maxJitter
      modifies this, storage
      ensures storage.Valid() && storage.clock == old(storage.clock)
      ensures |reports| <= |inputs| && |trace| == |reports| + 1
      ensures trace[0] == old(storage.Snapshot()) && trace[|reports|] == storage.Snapshot()
      ensures Follows(trace, reports, inputs, policy, storage.clock)
      ensures !old(running) ==> reports == [] && !running
      ensures old(running) ==> |reports| >= 1 || |inputs| == 0
      ensures forall i :: 0 <= i < |reports| - 1 ==> !inputs[i].interrupted
      ensures |reports| > 0 ==> running == !inputs[|reports| - 1].interrupted
      ensures |reports| < |inputs| ==> !running
      ensures |storage.jobs| + |storage.dlq| == |old(storage.jobs)| + |old(storage.dlq)|
      ensures NoDeadRow(old(storage.jobs)) ==> NoDeadRow(storage.jobs)
    {
      reports := [];
      trace := [storage.Snapshot()];
      ghost var noDead := NoDeadRow(storage.jobs);
      while running && |reports| < |inputs|
        invariant storage.Valid() && storage.clock == old(storage.clock)
        invariant |reports| <= |inputs| && |trace| == |reports| + 1
        invariant trace[0] == old(storage.Snapshot()) && trace[|reports|] == storage.Snapshot()
        invariant Follows(trace, reports, inputs, policy, storage.clock)
        invariant reports == [] ==> running == old(running)
        invariant reports != [] ==> old(running)
        invariant forall i :: 0 <= i < |reports| - 1 ==> !inputs[i].interrupted
        invariant |reports| > 0 ==> running == !inputs[|reports| - 1].interrupted
        invariant |storage.jobs| + |storage.dlq| == |old(storage.jobs)| + |old(storage.dlq)|
        invariant noDead ==> NoDeadRow(storage.jobs)
        decreases |inputs| - |reports|
      {
        ghost var n := |reports|;
        assert forall i :: 0 <= i < n ==> !inputs[i].interrupted;
        var input := inputs[|reports|];
        ghost var before := storage.Snapshot();
        var report := Step(input);
        StepKeepsInvariants(before, storage.Snapshot(), report, input, policy, storage.clock);
        FollowsExtend(trace, reports, inputs, policy, storage.clock, storage.Snapshot(), report);
        reports := reports + [report];
        trace := trace + [storage.Snapshot()];
        assert |reports| - 1 == n && inputs[n] == input;
      }
    }
  }
}

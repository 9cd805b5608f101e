/**
 * The two end-to-end flows of the repository's demo script, driven through
 * the manager and one worker, with the command's outcome as the input the
 * real process would have produced.
 */
module Scenarios {
  import opened Wrappers
  import opened JobTable
  import opened Retry
  import opened Storage
  import opened Workers
  import opened Manager

  /** The number of times a job that fails on every attempt is executed
      before it reaches the DLQ. */
  function RunsUntilDeadLetter(maxRetries: int): nat {
    if maxRetries > 1 then maxRetries else 1
  }

  /** A job submitted as `echo hello` with a ceiling of 2 is completed by the
      first worker iteration, with the command's output and no failed attempt. */
  method BasicFlow(id: string) returns (completed: seq<Job>)
    ensures |completed| == 1
    ensures completed[0].id == id && completed[0].command == "echo hello"
    ensures completed[0].state == Completed && completed[0].output == Some("hello\n")
    ensures completed[0].attempts == 0
  {
    var store := new JobStorage(0);
    var manager := new JobQueueManager(store);
    var submitted := manager.Enqueue(id, "echo hello", 2);
    var worker := new Worker(0, store);
    assert id in IdsInState(store.jobs, Pending);
    var report := worker.Step(StepInput(Exited(0, "hello\n", ""), 0.0, false));
    assert report.job.id == id;
    completed := manager.ListJobsByState(Completed);
    assert IdsInState(store.jobs, Completed) == {id};
    assert id in IdsOf(completed, JobId);
  }

  /** A job whose command exits with status 1 on every attempt, writing
      `stdout` and `stderr` (the demo's `exit 1` writes nothing), submitted with
      ceiling `maxRetries`, is executed `RunsUntilDeadLetter(maxRetries)`
      times by a running worker and then sits in the DLQ, absent from the
      live table, with that many attempts and a reason naming the ceiling.
      A ceiling outside the INTEGER range makes `enqueue` raise, and no job
      exists to run. */
  method FailingJobReachesDlq(id: string, command: string, maxRetries: int, stdout: string, stderr: string)
    returns (runs: nat, entry: Option<DlqEntry>, live: bool)
    ensures !live
    ensures !FitsInteger(maxRetries) ==> runs == 0 && entry == None
    ensures FitsInteger(maxRetries) ==>
      && runs == RunsUntilDeadLetter(maxRetries)
      && entry.Some? && entry.value.id == id && entry.value.command == command
      && entry.value.attempts == runs && entry.value.maxRetries == maxRetries
      && entry.value.reason == DlqReason(maxRetries, FailureText(Exited(1, stdout, stderr)))
  {
    var store := new JobStorage(0);
    var manager := new JobQueueManager(store);
    var submitted := manager.Enqueue(id, command, maxRetries);
    if submitted.Failure? {
      assert store.jobs == map[] && store.dlq == map[];
      var entries := manager.GetDlqJobs();
      return 0, FindEntry(entries, id), id in store.jobs;
    }
    var worker := new Worker(0, store);
    var failing := StepInput(Exited(1, stdout, stderr), 0.0, false);
    runs := 0;
    while id in store.jobs
      invariant store.Valid() && worker.storage == store && worker.running
      invariant worker.policy == DefaultPolicy
      invariant id in store.jobs ==>
        && store.jobs.Keys == {id} && store.dlq == map[]
        && store.jobs[id].state == Pending && store.jobs[id].command == command
        && store.jobs[id].maxRetries == maxRetries && store.jobs[id].attempts == runs
        && runs < RunsUntilDeadLetter(maxRetries)
      invariant id !in store.jobs ==>
        && store.jobs == map[] && store.dlq.Keys == {id}
        && store.dlq[id].command == command && store.dlq[id].maxRetries == maxRetries
        && store.dlq[id].attempts == runs && store.dlq[id].reason == DlqReason(maxRetries, FailureText(failing.outcome))
        && runs == RunsUntilDeadLetter(maxRetries)
      decreases RunsUntilDeadLetter(maxRetries) - runs
    {
      ghost var before := store.Snapshot();
      assert id in IdsInState(store.jobs, Pending);
      var report := worker.Step(failing);
      assert report.Ran? && report.job == before.jobs[id];
      if ShouldRetry(runs + 1, maxRetries) {
        RetryReleasesUnlessStopping(before, report.job, failing.outcome, true, DefaultPolicy, 0.0, store.clock);
      } else {
        ExhaustedJobIsDeadLettered(before, report.job, failing.outcome, true, DefaultPolicy, 0.0, store.clock);
      }
      runs := runs + 1;
    }
    live := id in store.jobs;
    var entries := manager.GetDlqJobs();
    entry := FindEntry(entries, id);
    assert id in IdsOf(entries, EntryId);
  }
}

/**
 * The queue manager (`JobQueueManager`): submission with a caller-chosen id,
 * manual replay of a DLQ entry, and the read-only queries it hands on to the
 * store unchanged.
 */
module Manager {
  import opened Wrappers
  import opened JobTable
  import opened Storage

  const EnqueueFailedMessage: string := "Failed to enqueue job"

  /** `next((j for j in entries if j['id'] == id), None)`: the first entry of
      the listing with this id. */
  function FindEntry(entries: seq<DlqEntry>, id: string): (r: Option<DlqEntry>)
    ensures r.Some? <==> exists i :: 0 <= i < |entries| && entries[i].id == id
    ensures r.Some? ==> exists i :: 0 <= i < |entries| && entries[i] == r.value && r.value.id == id
                           && forall j :: 0 <= j < i ==> entries[j].id != id
  {
    if entries == [] then
      None
    else if entries[0].id == id then
      Some(entries[0])
    else
      var rest := FindEntry(entries[1..], id);
      assert forall i :: 1 <= i < |entries| ==> entries[i] == entries[1..][i - 1];
      rest
  }

  /** Both tables after `retry_dlq_job(id)`: nothing happens without a DLQ
      entry, nor when re-submitting its ceiling raises OverflowError (the
      exception leaves before the DELETE); otherwise the entry's command and
      ceiling are submitted again under the same id (which the primary key
      silently refuses when the id is live) and the entry is deleted either
      way. */
  function RetriedFromDlq(t: Tables, id: string, now: nat): (r: Tables)
    ensures id !in t.dlq || !FitsInteger(t.dlq[id].maxRetries) ==> r == t
    ensures id in t.dlq && FitsInteger(t.dlq[id].maxRetries) ==>
      && r.dlq.Keys == t.dlq.Keys - {id}
      && r.jobs.Keys == t.jobs.Keys + {id}
      && (id !in t.jobs ==> r.jobs[id] == NewJob(id, t.dlq[id].command, t.dlq[id].maxRetries, now))
    ensures forall other :: other in t.jobs ==> other in r.jobs && r.jobs[other] == t.jobs[other]
    ensures forall other :: other != id && other in t.dlq ==> other in r.dlq && r.dlq[other] == t.dlq[other]
  {
    if id !in t.dlq || !FitsInteger(t.dlq[id].maxRetries) then
      t
    else
      Tables(Inserted(t.jobs, id, t.dlq[id].command, t.dlq[id].maxRetries, now), RemovedFromDlq(t.dlq, id))
  }

  /** Replaying an id that has no DLQ entry changes nothing. */
  lemma RetryWithoutEntryChangesNothing(t: Tables, id: string, now: nat)
    requires id !in t.dlq
    ensures RetriedFromDlq(t, id, now) == t
  {
  }

  /** Replaying a DLQ entry whose id is not live yields a fresh pending job
      with no attempts and the entry's command and ceiling, and removes the
      entry; no other row of either table changes. */
  lemma RetryRestoresPendingJob(t: Tables, id: string, now: nat)
    requires id in t.dlq && id !in t.jobs && FitsInteger(t.dlq[id].maxRetries)
    ensures var r := RetriedFromDlq(t, id, now);
      && id in r.jobs && id !in r.dlq
      && r.jobs[id].state == Pending && r.jobs[id].attempts == 0
      && r.jobs[id].command == t.dlq[id].command
      && r.jobs[id].maxRetries == t.dlq[id].maxRetries
      && r.jobs.Keys == t.jobs.Keys + {id}
      && r.dlq.Keys == t.dlq.Keys - {id}
      && (forall other :: other in t.jobs ==> r.jobs[other] == t.jobs[other])
      && (forall other :: other in r.dlq ==> r.dlq[other] == t.dlq[other])
  {
  }

  /** Replaying a DLQ entry whose id is live leaves the live job as it is but
      still deletes the entry. */
  lemma RetryOfLiveIdDropsEntry(t: Tables, id: string, now: nat)
    requires id in t.dlq && id in t.jobs && FitsInteger(t.dlq[id].maxRetries)
    ensures var r := RetriedFromDlq(t, id, now);
      && r.jobs == t.jobs && id !in r.dlq && r.dlq.Keys == t.dlq.Keys - {id}
  {
  }

  /** A job moved to the DLQ and then replayed is live again as a fresh
      pending job with its command and ceiling, and the DLQ is as it was. */
  lemma DlqRoundTrip(t: Tables, id: string, reason: string, movedAt: nat, now: nat)
    requires id in t.jobs && id !in t.dlq && FitsInteger(t.jobs[id].maxRetries)
    ensures var r := RetriedFromDlq(MovedToDlq(t, id, reason, movedAt), id, now);
      && r.dlq == t.dlq
      && r.jobs.Keys == t.jobs.Keys
      && r.jobs[id] == NewJob(id, t.jobs[id].command, t.jobs[id].maxRetries, now)
      && forall other :: other in t.jobs && other != id ==> r.jobs[other] == t.jobs[other]
  {
    RoundTripJobs(t, id, reason, movedAt, now);
    RoundTripDlq(t, id, reason, movedAt, now);
  }

  lemma RoundTripJobs(t: Tables, id: string, reason: string, movedAt: nat, now: nat)
    requires id in t.jobs && id !in t.dlq && FitsInteger(t.jobs[id].maxRetries)
    ensures RetriedFromDlq(MovedToDlq(t, id, reason, movedAt), id, now).jobs
              == (t.jobs - {id})[id := NewJob(id, t.jobs[id].command, t.jobs[id].maxRetries, now)]
  {
    var moved := MovedToDlq(t, id, reason, movedAt);
    assert MoveResultOf(t, id) == Moved;
    assert moved.jobs == t.jobs - {id};
    assert moved.dlq[id] == DlqEntryOf(t.jobs[id], reason, movedAt);
  }

  lemma RoundTripDlq(t: Tables, id: string, reason: string, movedAt: nat, now: nat)
    requires id in t.jobs && id !in t.dlq && FitsInteger(t.jobs[id].maxRetries)
    ensures RetriedFromDlq(MovedToDlq(t, id, reason, movedAt), id, now).dlq == t.dlq
  {
    var moved := MovedToDlq(t, id, reason, movedAt);
    assert MoveResultOf(t, id) == Moved;
    assert moved.dlq == t.dlq[id := DlqEntryOf(t.jobs[id], reason, movedAt)];
    assert moved.dlq - {id} == t.dlq;
  }

  class JobQueueManager {
    const storage: JobStorage

    constructor (storage: JobStorage)
      ensures this.storage == storage
    {
      this.storage := storage;
    }

    /** `enqueue(command, max_retries)` with the id the caller chose in place
        of a fresh uuid prefix.  A refused insert raises "Failed to enqueue
        job"; the OverflowError of an out-of-range ceiling passes through. */
    method Enqueue(id: string, command: string, maxRetries: int := 3) returns (r: Result<string>)
      requires storage.Valid()
      modifies storage
      ensures storage.Valid() && storage.clock == old(storage.clock)
      ensures r.Success? <==> id !in old(storage.jobs) && FitsInteger(maxRetries)
      ensures r.Success? ==> r.value == id
      ensures r.Failure? && FitsInteger(maxRetries) ==> r.error == EnqueueFailedMessage
      ensures !FitsInteger(maxRetries) ==> r == Failure(IntegerOverflowMessage)
      ensures storage.jobs == Inserted(old(storage.jobs), id, command, maxRetries, storage.clock)
      ensures storage.dlq == old(storage.dlq)
    {
      var added := storage.AddJob(id, command, maxRetries);
      match added
      case Added => return Success(id);
      case IdTaken => return Failure(EnqueueFailedMessage);
      case OutOfRange => return Failure(IntegerOverflowMessage);
    }

    /** `get_status(id)`. */
    function GetStatus(id: string): (r: Option<Job>)
      reads storage
      ensures r.Some? <==> id in storage.jobs
      ensures r.Some? ==> r.value == storage.jobs[id]
    {
      storage.GetJob(id)
    }

    /** `list_jobs_by_state(state)`. */
    method ListJobsByState(s: State) returns (r: seq<Job>)
      requires storage.Valid()
      ensures IsStateListing(storage.jobs, s, r)
    {
      r := storage.GetJobsByState(s);
    }

    /** `get_queue_summary()`. */
    method GetQueueSummary() returns (summary: map<State, nat>)
      ensures summary == Summary(storage.jobs)
    {
      summary := storage.GetJobSummary();
    }

    /** `get_dlq_jobs()`. */
    method GetDlqJobs() returns (r: seq<DlqEntry>)
      requires storage.Valid()
      ensures IsDlqListing(storage.dlq, r)
    {
      r := storage.GetDlqJobs();
    }

    /** `retry_dlq_job(id)`: looks the entry up in the DLQ listing, submits it
        again without looking at whether the insert succeeded, deletes the
        entry and reports success. */
    method RetryDlqJob(id: string) returns (ok: bool)
      requires storage.Valid()
      modifies storage
      ensures storage.Valid() && storage.clock == old(storage.clock)
      ensures ok <==> id in old(storage.dlq)
      ensures storage.Snapshot() == RetriedFromDlq(old(storage.Snapshot()), id, storage.clock)
    {
      var entries := storage.GetDlqJobs();
      var entry := FindEntry(entries, id);
      if entry.None? {
        assert id !in IdsOf(entries, EntryId);
        return false;
      }
      assert entry.value == storage.dlq[id];
      // The stored ceiling fits an INTEGER, so this add_job does not raise.
      var _ := storage.AddJob(id, entry.value.command, entry.value.maxRetries);
      storage.RemoveFromDlq(id);
      return true;
    }
  }
}

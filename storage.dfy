/**
 * The job store (`JobStorage`): the `jobs` and `dlq_jobs` tables held as two
 * maps keyed by id, and the clock whose reading the store writes into
 * `created_at`, `updated_at` and `moved_at`.  Every mutator is proved to
 * perform the table transition of the same name in job_table.dfy; every
 * query is specified by what it returns.
 */
module Storage {
  import opened Wrappers
  import opened JobTable
  import Query

  /** The ids of a listing. */
  function IdsOf<T>(rows: seq<T>, id: T -> string): (ids: set<string>)
    ensures forall i :: 0 <= i < |rows| ==> id(rows[i]) in ids
    ensures forall k :: k in ids ==> exists i :: 0 <= i < |rows| && id(rows[i]) == k
  {
    set i | 0 <= i < |rows| :: id(rows[i])
  }

  /** The text of the OverflowError Python's sqlite3 module raises for an
      `int` outside the INTEGER range. */
  const IntegerOverflowMessage: string := "Python int too large to convert to SQLite INTEGER"

  function JobId(j: Job): string { j.id }

  function EntryId(e: DlqEntry): string { e.id }

  /** What `get_pending_jobs(limit)` returns: live pending rows without
      repetition, oldest first, as many as the LIMIT allows, and no pending
      row left out is older than a row returned. */
  ghost predicate IsPendingListing(jobs: Jobs, limit: int, r: seq<Job>) {
    && (forall i :: 0 <= i < |r| ==> r[i].id in jobs && jobs[r[i].id] == r[i] && r[i].state == Pending)
    && (forall i, j :: 0 <= i < j < |r| ==> r[i].id != r[j].id)
    && (forall i, j :: 0 <= i < j < |r| ==> r[i].createdAt <= r[j].createdAt)
    && |r| == Query.Limited(CountInState(jobs, Pending), limit)
    && (forall id, i :: id in IdsInState(jobs, Pending) && id !in IdsOf(r, JobId) && 0 <= i < |r| ==>
          r[i].createdAt <= jobs[id].createdAt)
  }

  /** What `get_jobs_by_state(s)` returns: every live row in state `s`, each
      once, newest first. */
  ghost predicate IsStateListing(jobs: Jobs, s: State, r: seq<Job>) {
    && (forall i :: 0 <= i < |r| ==> r[i].id in jobs && jobs[r[i].id] == r[i] && r[i].state == s)
    && (forall i, j :: 0 <= i < j < |r| ==> r[i].id != r[j].id)
    && (forall i, j :: 0 <= i < j < |r| ==> r[i].createdAt >= r[j].createdAt)
    && (forall id :: id in IdsInState(jobs, s) ==> id in IdsOf(r, JobId))
    && |r| == CountInState(jobs, s)
  }

  /** What `get_dlq_jobs()` returns: every DLQ entry, each once, most
      recently moved first. */
  ghost predicate IsDlqListing(dlq: Dlq, r: seq<DlqEntry>) {
    && (forall i :: 0 <= i < |r| ==> r[i].id in dlq && dlq[r[i].id] == r[i])
    && (forall i, j :: 0 <= i < j < |r| ==> r[i].id != r[j].id)
    && (forall i, j :: 0 <= i < j < |r| ==> r[i].movedAt >= r[j].movedAt)
    && (forall id :: id in dlq ==> id in IdsOf(r, EntryId))
    && |r| == |dlq|
  }

  class JobStorage {
    var jobs: Jobs
    var dlq: Dlq
    var clock: nat

    ghost predicate Valid()
      reads this
    {
      WellFormed(Tables(jobs, dlq), clock)
    }

    /** Both tables as one value. */
    function Snapshot(): (t: Tables)
      reads this
      ensures t.jobs == jobs && t.dlq == dlq
    {
      Tables(jobs, dlq)
    }

    /** A store over a new database file: both tables are created empty. */
    constructor (now: nat)
      ensures Valid()
      ensures jobs == map[] && dlq == map[] && clock == now
    {
      jobs, dlq, clock := map[], map[], now;
    }

    /** Time passes; nothing else changes. */
    method AdvanceClock(elapsed: nat)
      requires Valid()
      modifies this
      ensures Valid()
      ensures clock == old(clock) + elapsed && jobs == old(jobs) && dlq == old(dlq)
    {
      clock := clock + elapsed;
    }

    /** `add_job`: inserts a pending row unless the id is already live
        (`IdTaken`, the False result) or the ceiling does not fit an INTEGER
        (`OutOfRange`, the OverflowError it lets escape). */
    method AddJob(id: string, command: string, maxRetries: int := 3) returns (r: AddResult)
      requires Valid()
      modifies this
      ensures Valid()
      ensures r == AddResultOf(old(jobs), id, maxRetries)
      ensures jobs == Inserted(old(jobs), id, command, maxRetries, clock)
      ensures dlq == old(dlq) && clock == old(clock)
    {
      if !FitsInteger(maxRetries) {
        return OutOfRange;
      }
      if id in jobs {
        return IdTaken;
      }
      jobs := jobs[id := NewJob(id, command, maxRetries, clock)];
      return Added;
    }

    /** `get_job`: the live row with this id, if any. */
    function GetJob(id: string): (r: Option<Job>)
      reads this
      ensures r.Some? <==> id in jobs
      ensures r.Some? ==> r.value == jobs[id]
    {
      if id in jobs then Some(jobs[id]) else None
    }

    /** `get_pending_jobs(limit)`: binding a limit that does not fit an
        INTEGER raises OverflowError before the query runs. */
    method GetPendingJobs(limit: int := 10) returns (r: Result<seq<Job>>)
      requires Valid()
      ensures r.Success? <==> FitsInteger(limit)
      ensures r.Failure? ==> r.error == IntegerOverflowMessage
      ensures r.Success? ==> IsPendingListing(jobs, limit, r.value)
    {
      if !FitsInteger(limit) {
        return Failure(IntegerOverflowMessage);
      }
      var ks := Query.Select(jobs, (j: Job) => j.state == Pending, (j: Job) => j.createdAt, limit,
                             IdsInState(jobs, Pending));
      var rows := Query.RowsOf(jobs, ks);
      assert forall i :: 0 <= i < |rows| ==> rows[i].id == ks[i];
      forall id, i | id in IdsInState(jobs, Pending) && id !in IdsOf(rows, JobId) && 0 <= i < |rows|
        ensures rows[i].createdAt <= jobs[id].createdAt
      {
        assert id !in ks;
      }
      r := Success(rows);
    }

    /** `update_job_state(id, s, output, error)`; omitted texts are "". */
    method UpdateJobState(id: string, newState: State, output: string := "", error: string := "")
      requires Valid()
      modifies this
      ensures Valid()
      ensures jobs == SetState(old(jobs), id, newState, output, error, clock)
      ensures dlq == old(dlq) && clock == old(clock)
    {
      if id in jobs {
        jobs := jobs[id := jobs[id].(state := newState, updatedAt := clock,
                                     output := Some(output), error := Some(error))];
      }
    }

    /** `increment_attempts(id)`. */
    method IncrementAttempts(id: string)
      requires Valid()
      modifies this
      ensures Valid()
      ensures jobs == Incremented(old(jobs), id)
      ensures dlq == old(dlq) && clock == old(clock)
    {
      if id in jobs {
        jobs := jobs[id := jobs[id].(attempts := jobs[id].attempts + 1)];
      }
    }

    /** `move_to_dlq(id, reason)`: returns early when the id is not live;
        otherwise inserts the DLQ row, which raises (DuplicateEntry) when the
        id already has one, and only then deletes the live row. */
    method MoveToDlq(id: string, reason: string) returns (result: MoveResult)
      requires Valid()
      modifies this
      ensures Valid()
      ensures result == MoveResultOf(old(Snapshot()), id)
      ensures Snapshot() == MovedToDlq(old(Snapshot()), id, reason, clock)
      ensures clock == old(clock)
    {
      var job := GetJob(id);
      if job.None? {
        return NotLive;
      }
      if id in dlq {
        return DuplicateEntry;
      }
      dlq := dlq[id := DlqEntryOf(job.value, reason, clock)];
      jobs := jobs - {id};
      return Moved;
    }

    /** `get_dlq_jobs()`. */
    method GetDlqJobs() returns (r: seq<DlqEntry>)
      requires Valid()
      ensures IsDlqListing(dlq, r)
    {
      var ks := Query.Select(dlq, (e: DlqEntry) => true, (e: DlqEntry) => -(e.movedAt as int), -1, dlq.Keys);
      r := Query.RowsOf(dlq, ks);
    }

    /** `remove_from_dlq(id)`. */
    method RemoveFromDlq(id: string)
      requires Valid()
      modifies this
      ensures Valid()
      ensures dlq == RemovedFromDlq(old(dlq), id)
      ensures jobs == old(jobs) && clock == old(clock)
    {
      dlq := dlq - {id};
    }

    /** `get_job_summary()`: one GROUP BY row per state present, copied into
        the dictionary one by one. */
    method GetJobSummary() returns (summary: map<State, nat>)
      ensures summary == Summary(jobs)
    {
      summary := map[];
      var i := 0;
      while i < |AllStates|
        invariant 0 <= i <= |AllStates|
        invariant forall s :: s in summary <==> s in AllStates[..i] && CountInState(jobs, s) > 0
        invariant forall s :: s in summary ==> summary[s] == CountInState(jobs, s)
      {
        var count := CountInState(jobs, AllStates[i]);
        if count > 0 {
          summary := summary[AllStates[i] := count];
        }
        i := i + 1;
      }
      EveryStateListed();
      assert AllStates[..i] == AllStates;
    }

    /** `get_jobs_by_state(s)`. */
    method GetJobsByState(s: State) returns (r: seq<Job>)
      requires Valid()
      ensures IsStateListing(jobs, s, r)
    {
      var ks := Query.Select(jobs, (j: Job) => j.state == s, (j: Job) => -(j.createdAt as int), -1, IdsInState(jobs, s));
      r := Query.RowsOf(jobs, ks);
    }
  }
}

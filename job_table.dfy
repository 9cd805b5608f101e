/**
 * The rows of the two tables of the job store (`jobs` and `dlq_jobs`) and, as
 * pure functions on the tables, the effect of every statement the store runs
 * against them.  The class in storage.dfy is proved to perform exactly these
 * transitions; the lemmas here say what the transitions mean.
 */
module JobTable {
  import opened Wrappers

  /** The values the worker writes into the `state` column. */
  datatype State = Pending | Processing | Completed | Failed | Dead

  const AllStates: seq<State> := [Pending, Processing, Completed, Failed, Dead]

  lemma EveryStateListed()
    ensures forall s: State :: s in AllStates
  {
    forall s: State ensures s in AllStates {
      assert s == AllStates[0] || s == AllStates[1] || s == AllStates[2]
        || s == AllStates[3] || s == AllStates[4];
    }
  }

  /** One row of `jobs`.  Timestamps are clock readings; `output` and `error`
      are NULL (None) until the first `update_job_state`. */
  datatype Job = Job(
    id: string,
    command: string,
    state: State,
    attempts: nat,
    maxRetries: int,
    createdAt: nat,
    updatedAt: nat,
    output: Option<string>,
    error: Option<string>)

  /** One row of `dlq_jobs`; `original` is the live row as it was when moved. */
  datatype DlqEntry = DlqEntry(
    id: string,
    command: string,
    movedAt: nat,
    attempts: nat,
    maxRetries: int,
    reason: string,
    original: Job)

  type Jobs = map<string, Job>
  type Dlq = map<string, DlqEntry>

  /** Both tables, each keyed by its primary key `id`. */
  datatype Tables = Tables(jobs: Jobs, dlq: Dlq)

  /** The range of an SQLite INTEGER (64-bit two's complement).  Python's
      sqlite3 module refuses to bind an `int` outside it, raising
      OverflowError before the statement runs. */
  const MinInteger: int := -0x8000_0000_0000_0000
  const MaxInteger: int := 0x7FFF_FFFF_FFFF_FFFF

  predicate FitsInteger(x: int) {
    MinInteger <= x <= MaxInteger
  }

  /** Every row is stored under its own id, no timestamp lies in the future,
      and every retry ceiling is a value an INTEGER column can hold. */
  ghost predicate WellFormed(t: Tables, clock: nat) {
    && (forall id :: id in t.jobs ==>
          && t.jobs[id].id == id && t.jobs[id].createdAt <= t.jobs[id].updatedAt <= clock
          && FitsInteger(t.jobs[id].maxRetries))
    && (forall id :: id in t.dlq ==>
          t.dlq[id].id == id && t.dlq[id].movedAt <= clock && FitsInteger(t.dlq[id].maxRetries))
  }

  /** No live row is in state `dead`. */
  predicate NoDeadRow(jobs: Jobs) {
    forall id :: id in jobs ==> jobs[id].state != Dead
  }

  // ---------------------------------------------------------------------------
  // INSERT INTO jobs (storage.py add_job)

  /** The row `add_job` inserts. */
  function NewJob(id: string, command: string, maxRetries: int, now: nat): (j: Job)
    ensures j.id == id && j.command == command && j.maxRetries == maxRetries
    ensures j.state == Pending && j.attempts == 0
    ensures j.createdAt == now && j.updatedAt == now
    ensures j.output == None && j.error == None
  {
    Job(id, command, Pending, 0, maxRetries, now, now, None, None)
  }

  /** How `add_job` ends: the row is inserted (True), the primary key
      refuses an id that is already live (False), or binding a ceiling outside
      the INTEGER range raises OverflowError, whatever the id. */
  datatype AddResult = Added | IdTaken | OutOfRange

  function AddResultOf(jobs: Jobs, id: string, maxRetries: int): (r: AddResult)
    ensures r == Added <==> id !in jobs && FitsInteger(maxRetries)
    ensures r == IdTaken <==> id in jobs && FitsInteger(maxRetries)
    ensures r == OutOfRange <==> !FitsInteger(maxRetries)
  {
    if !FitsInteger(maxRetries) then OutOfRange else if id in jobs then IdTaken else Added
  }

  /** The `jobs` table after `add_job`: only an `Added` outcome inserts; the
      DLQ is not consulted. */
  function Inserted(jobs: Jobs, id: string, command: string, maxRetries: int, now: nat): (r: Jobs)
    ensures AddResultOf(jobs, id, maxRetries) != Added ==> r == jobs
    ensures AddResultOf(jobs, id, maxRetries) == Added ==>
      && r.Keys == jobs.Keys + {id} && |r| == |jobs| + 1
      && r[id] == NewJob(id, command, maxRetries, now)
    ensures forall other :: other in jobs ==> other in r && r[other] == jobs[other]
  {
    if AddResultOf(jobs, id, maxRetries) == Added then jobs[id := NewJob(id, command, maxRetries, now)] else jobs
  }

  // ---------------------------------------------------------------------------
  // UPDATE jobs SET state, updated_at, output, error (storage.py update_job_state)

  /** The `jobs` table after `update_job_state(id, s, output, error)`. */
  function SetState(jobs: Jobs, id: string, s: State, output: string, error: string, now: nat): (r: Jobs)
    ensures r.Keys == jobs.Keys
    ensures forall other :: other in jobs && other != id ==> r[other] == jobs[other]
    ensures id in jobs ==>
      && r[id].state == s && r[id].updatedAt == now
      && r[id].output == Some(output) && r[id].error == Some(error)
      && r[id].id == jobs[id].id && r[id].command == jobs[id].command
      && r[id].attempts == jobs[id].attempts && r[id].maxRetries == jobs[id].maxRetries
      && r[id].createdAt == jobs[id].createdAt
  {
    if id in jobs then
      jobs[id := jobs[id].(state := s, updatedAt := now, output := Some(output), error := Some(error))]
    else
      jobs
  }

  // ---------------------------------------------------------------------------
  // UPDATE jobs SET attempts = attempts + 1 (storage.py increment_attempts)

  /** The `jobs` table after `increment_attempts(id)`; `updated_at` is not touched. */
  function Incremented(jobs: Jobs, id: string): (r: Jobs)
    ensures r.Keys == jobs.Keys
    ensures forall other :: other in jobs && other != id ==> r[other] == jobs[other]
    ensures id in jobs ==>
      && r[id].attempts == jobs[id].attempts + 1
      && r[id] == jobs[id].(attempts := r[id].attempts)
  {
    if id in jobs then jobs[id := jobs[id].(attempts := jobs[id].attempts + 1)] else jobs
  }

  // ---------------------------------------------------------------------------
  // move_to_dlq: INSERT INTO dlq_jobs, then DELETE FROM jobs

  /** What `move_to_dlq` does: returns early when the id is not live; the
      INSERT raises an integrity error when the id already has a DLQ entry. */
  datatype MoveResult = Moved | NotLive | DuplicateEntry

  function MoveResultOf(t: Tables, id: string): (r: MoveResult)
    ensures r == Moved <==> id in t.jobs && id !in t.dlq
    ensures r == NotLive <==> id !in t.jobs
  {
    if id !in t.jobs then NotLive else if id in t.dlq then DuplicateEntry else Moved
  }

  /** The DLQ row made from a live row. */
  function DlqEntryOf(j: Job, reason: string, now: nat): (e: DlqEntry)
    ensures e.id == j.id && e.command == j.command && e.attempts == j.attempts
    ensures e.maxRetries == j.maxRetries && e.reason == reason && e.movedAt == now
    ensures e.original == j
  {
    DlqEntry(j.id, j.command, now, j.attempts, j.maxRetries, reason, j)
  }

  /** Both tables after `move_to_dlq(id, reason)`.  Only the `Moved` case
      changes anything: the failing INSERT happens before the DELETE. */
  function MovedToDlq(t: Tables, id: string, reason: string, now: nat): (r: Tables)
    ensures MoveResultOf(t, id) != Moved ==> r == t
    ensures MoveResultOf(t, id) == Moved ==>
      && r.jobs.Keys == t.jobs.Keys - {id}
      && r.dlq.Keys == t.dlq.Keys + {id}
      && r.dlq[id] == DlqEntryOf(t.jobs[id], reason, now)
    ensures forall other :: other != id && other in t.jobs ==> other in r.jobs && r.jobs[other] == t.jobs[other]
    ensures forall other :: other != id && other in t.dlq ==> other in r.dlq && r.dlq[other] == t.dlq[other]
  {
    if MoveResultOf(t, id) == Moved then
      Tables(t.jobs - {id}, t.dlq[id := DlqEntryOf(t.jobs[id], reason, now)])
    else
      t
  }

  /** Moving a job to the DLQ neither creates nor loses a row: the number of
      live rows plus DLQ rows is the same before and after. */
  lemma MoveConservesRows(t: Tables, id: string, reason: string, now: nat)
    ensures var r := MovedToDlq(t, id, reason, now);
      |r.jobs| + |r.dlq| == |t.jobs| + |t.dlq|
  {
    if MoveResultOf(t, id) == Moved {
      var r := MovedToDlq(t, id, reason, now);
      assert r.jobs.Keys == t.jobs.Keys - {id};
      assert |r.jobs.Keys| == |t.jobs.Keys| - 1;
      assert r.dlq.Keys == t.dlq.Keys + {id};
      assert |r.dlq.Keys| == |t.dlq.Keys| + 1;
    }
  }

  // ---------------------------------------------------------------------------
  // DELETE FROM dlq_jobs (storage.py remove_from_dlq)

  /** The DLQ after `remove_from_dlq(id)`. */
  function RemovedFromDlq(dlq: Dlq, id: string): (r: Dlq)
    ensures r.Keys == dlq.Keys - {id}
    ensures forall other :: other in r ==> r[other] == dlq[other]
  {
    dlq - {id}
  }

  /** Removing the same DLQ entry twice is the same as removing it once. */
  lemma RemoveFromDlqIdempotent(dlq: Dlq, id: string)
    ensures RemovedFromDlq(RemovedFromDlq(dlq, id), id) == RemovedFromDlq(dlq, id)
  {
  }

  // ---------------------------------------------------------------------------
  // SELECT state, COUNT(*) FROM jobs GROUP BY state (storage.py get_job_summary)

  /** The set of live ids in state `s`. */
  function IdsInState(jobs: Jobs, s: State): (ids: set<string>)
    ensures forall id :: id in ids <==> id in jobs && jobs[id].state == s
  {
    set id | id in jobs && jobs[id].state == s
  }

  /** COUNT(*) of the group for state `s`. */
  function CountInState(jobs: Jobs, s: State): (n: nat)
    ensures n == 0 <==> forall id :: id in jobs ==> jobs[id].state != s
  {
    var ids := IdsInState(jobs, s);
    assert (exists id :: id in jobs && jobs[id].state == s) ==> ids != {};
    |ids|
  }

  /** The dictionary `get_job_summary` returns: one entry per state that has
      at least one live row, mapped to the number of such rows. */
  function Summary(jobs: Jobs): (m: map<State, nat>)
    ensures forall s :: s in m <==> exists id :: id in jobs && jobs[id].state == s
    ensures forall s :: s in m ==> m[s] == CountInState(jobs, s) && m[s] > 0
  {
    EveryStateListed();
    map s | s in AllStates && CountInState(jobs, s) > 0 :: CountInState(jobs, s)
  }

  /** A summary's entry for `s`, or 0 when the state is absent. */
  function CountOf(m: map<State, nat>, s: State): nat {
    if s in m then m[s] else 0
  }

  /** The sum of a summary's entries over every state. */
  function SummaryTotal(m: map<State, nat>): nat {
    CountOf(m, Pending) + CountOf(m, Processing) + CountOf(m, Completed)
      + CountOf(m, Failed) + CountOf(m, Dead)
  }

  /** Removing one row lowers the count of its own state by one and leaves
      the other counts alone. */
  lemma CountAfterRemoval(jobs: Jobs, x: string, s: State)
    requires x in jobs
    ensures CountInState(jobs, s) == CountInState(jobs - {x}, s) + (if jobs[x].state == s then 1 else 0)
  {
    var before := IdsInState(jobs, s);
    var after := IdsInState(jobs - {x}, s);
    assert x !in after;
    if jobs[x].state == s {
      forall id ensures id in before <==> id in after + {x} {
      }
      assert before == after + {x};
    } else {
      forall id ensures id in before <==> id in after {
      }
      assert before == after;
    }
  }

  /** The five group counts add up to the number of live rows. */
  lemma {:induction false} StateCountsAddUp(jobs: Jobs)
    ensures CountInState(jobs, Pending) + CountInState(jobs, Processing) + CountInState(jobs, Completed)
              + CountInState(jobs, Failed) + CountInState(jobs, Dead) == |jobs|
    decreases |jobs|
  {
    if jobs != map[] {
      var x :| x in jobs;
      var rest := jobs - {x};
      assert rest.Keys == jobs.Keys - {x};
      assert |rest| == |jobs| - 1;
      StateCountsAddUp(rest);
      CountAfterRemoval(jobs, x, Pending);
      CountAfterRemoval(jobs, x, Processing);
      CountAfterRemoval(jobs, x, Completed);
      CountAfterRemoval(jobs, x, Failed);
      CountAfterRemoval(jobs, x, Dead);
    }
  }

  /** The counts of the summary add up to the number of live rows. */
  lemma SummaryCountsAddUp(jobs: Jobs)
    ensures SummaryTotal(Summary(jobs)) == |jobs|
  {
    var m := Summary(jobs);
    assert forall s :: CountOf(m, s) == CountInState(jobs, s);
    StateCountsAddUp(jobs);
  }
}

/**
 The persistent job queue as values: the rows of `jobs` and `job_items`, and one function for each
 transaction the queue, the control calls and the sweeps commit. Row ids are positions: rows are only
 ever appended, and the identifiers the database hands out grow with insertion.
 */
module JobModel {
  import opened Options

  datatype ItemStatus = Pending | Leased | Running | RetryWait | Succeeded | Failed | Skipped | Cancelled

  datatype JobStatus =
    Queued | Running | Pausing | Paused | Cancelling | Cancelled | Completed | Partial | Failed

  datatype Item = Item(
    job: nat, status: ItemStatus, attempts: nat, maxAttempts: nat, createdAt: int,
    runAfter: Option<int>, owner: Option<string>, expires: Option<int>,
    startedAt: Option<int>, finishedAt: Option<int>)

  datatype Job = Job(
    status: JobStatus, priority: int, total: nat, succeeded: nat, failed: nat, skipped: nat,
    cancelAt: Option<int>, startedAt: Option<int>, finishedAt: Option<int>)

  /** What a worker keeps of the row it was handed. */
  datatype Lease = Lease(item: nat, job: nat, attempts: nat, maxAttempts: nat, owner: string)

  datatype Db = Db(jobs: seq<Job>, items: seq<Item>)

  datatype QueueError = ItemDisappeared | OwnershipChanged | JobNotFound | JobCancelling | JobNotPaused

  const DEFAULT_MAX_ATTEMPTS: nat := 3

  predicate Unfinished(s: ItemStatus) {
    s in {Pending, Leased, ItemStatus.Running, RetryWait}
  }

  predicate Waiting(s: ItemStatus) {
    s in {Pending, RetryWait}
  }

  predicate InFlight(s: ItemStatus) {
    s in {Leased, ItemStatus.Running}
  }

  predicate Terminal(s: JobStatus) {
    s in {Completed, Partial, JobStatus.Failed, JobStatus.Cancelled}
  }

  /** The foreign key of an item. */
  predicate Linked(db: Db) {
    forall i | 0 <= i < |db.items| :: db.items[i].job < |db.jobs|
  }

  predicate Hit(item: Item, j: nat, s: ItemStatus) {
    item.job == j && item.status == s
  }

  /** The number of items of job `j` in status `s`. */
  function Count(items: seq<Item>, j: nat, s: ItemStatus): nat {
    if items == [] then 0
    else (if Hit(items[0], j, s) then 1 else 0) + Count(items[1..], j, s)
  }

  function UnfinishedCount(items: seq<Item>, j: nat): nat {
    Count(items, j, Pending) + Count(items, j, Leased)
    + Count(items, j, ItemStatus.Running) + Count(items, j, RetryWait)
  }

  /** The status a job ends in, given its final counts. */
  function Verdict(cancelled: bool, succeeded: nat, failed: nat, skipped: nat): JobStatus {
    if cancelled then JobStatus.Cancelled
    else if failed > 0 && (succeeded > 0 || skipped > 0) then Partial
    else if failed > 0 then JobStatus.Failed
    else Completed
  }

  /** Recounts job `j`, and ends it when nothing is unfinished. */
  function Refresh(job: Job, j: nat, items: seq<Item>, now: int): Job {
    var counted := job.(
      succeeded := Count(items, j, Succeeded),
      failed := Count(items, j, ItemStatus.Failed),
      skipped := Count(items, j, Skipped));
    if UnfinishedCount(items, j) > 0 then counted
    else counted.(
      finishedAt := Some(now),
      status := Verdict(job.cancelAt.Some?, counted.succeeded, counted.failed, counted.skipped))
  }

  // ---- leasing -------------------------------------------------------------------------------

  predicate Claimable(db: Db, now: int, i: nat)
    requires Linked(db) && i < |db.items|
  {
    var item, job := db.items[i], db.jobs[db.items[i].job];
    && Waiting(item.status)
    && (item.runAfter.None? || item.runAfter.value <= now)
    && (item.expires.None? || item.expires.value < now)
    && job.status in {Queued, JobStatus.Running}
    && job.cancelAt.None?
  }

  /** The order of the candidate query: priority first, then age, then id. */
  predicate Precedes(db: Db, i: nat, k: nat)
    requires Linked(db) && i < |db.items| && k < |db.items|
  {
    var p, q := db.jobs[db.items[i].job].priority, db.jobs[db.items[k].job].priority;
    p > q || (p == q && (db.items[i].createdAt < db.items[k].createdAt
                         || (db.items[i].createdAt == db.items[k].createdAt && i < k)))
  }

  predicate IsNext(db: Db, now: int, i: nat)
    requires Linked(db)
  {
    && i < |db.items| && Claimable(db, now, i)
    && forall k | 0 <= k < |db.items| && k != i && Claimable(db, now, k) :: Precedes(db, i, k)
  }

  function LeaseDb(db: Db, now: int, i: nat, worker: string, seconds: nat): Db
    requires Linked(db) && i < |db.items|
  {
    var item, job := db.items[i], db.jobs[db.items[i].job];
    Db(
      if job.status == Queued
      then db.jobs[item.job := job.(status := JobStatus.Running, startedAt := Some(now))]
      else db.jobs,
      db.items[i := item.(
        status := ItemStatus.Running, owner := Some(worker), expires := Some(now + seconds),
        attempts := item.attempts + 1,
        startedAt := if item.startedAt.Some? then item.startedAt else Some(now))])
  }

  function LeaseOf(db: Db, i: nat, worker: string): Lease
    requires i < |db.items|
  {
    Lease(i, db.items[i].job, db.items[i].attempts + 1, db.items[i].maxAttempts, worker)
  }

  // ---- ending an attempt ---------------------------------------------------------------------

  /** The fence: the row still names the holder of the lease. */
  predicate Accepts(db: Db, lease: Lease) {
    lease.item < |db.items| && db.items[lease.item].owner == Some(lease.owner)
  }

  function FinishDb(db: Db, now: int, lease: Lease, status: ItemStatus): Db
    requires Accepts(db, lease) && lease.job < |db.jobs|
  {
    var items := db.items[lease.item := db.items[lease.item].(
      status := status, finishedAt := Some(now), owner := None, expires := None)];
    Db(db.jobs[lease.job := Refresh(db.jobs[lease.job], lease.job, items, now)], items)
  }

  function Pow2(n: nat): (p: nat)
    ensures p >= 1
  {
    if n == 0 then 1 else 2 * Pow2(n - 1)
  }

  /** Exponential backoff, five seconds doubling up to five minutes. */
  function Backoff(attempts: nat): nat {
    var delay := 5 * Pow2(if attempts == 0 then 0 else attempts - 1);
    if delay < 300 then delay else 300
  }

  /** A caller's own delay counts only when it is neither absent nor zero. */
  function RetryDelay(lease: Lease, asked: Option<nat>): nat {
    if asked.Some? && asked.value != 0 then asked.value else Backoff(lease.attempts)
  }

  function RetryDb(db: Db, now: int, lease: Lease, asked: Option<nat>): Db
    requires Accepts(db, lease) && lease.job < |db.jobs|
  {
    if lease.attempts >= lease.maxAttempts then FinishDb(db, now, lease, ItemStatus.Failed)
    else db.(items := db.items[lease.item := db.items[lease.item].(
      status := RetryWait, runAfter := Some(now + RetryDelay(lease, asked)),
      finishedAt := None, owner := None, expires := None)])
  }

  // ---- sweeps --------------------------------------------------------------------------------

  predicate Expired(item: Item, now: int) {
    InFlight(item.status) && item.expires.Some? && item.expires.value < now
  }

  function RecoverItem(item: Item, now: int): Item {
    if !Expired(item, now) then item
    else item.(
      status := if item.attempts >= item.maxAttempts then ItemStatus.Failed else Pending,
      owner := None, expires := None)
  }

  predicate Affected(items: seq<Item>, j: nat, now: int) {
    exists i :: 0 <= i < |items| && items[i].job == j && Expired(items[i], now)
  }

  function RecoverDb(db: Db, now: int): Db {
    var items := seq(|db.items|, i requires 0 <= i < |db.items| => RecoverItem(db.items[i], now));
    Db(
      seq(|db.jobs|, j requires 0 <= j < |db.jobs| =>
        if Affected(db.items, j, now) then Refresh(db.jobs[j], j, items, now) else db.jobs[j]),
      items)
  }

  function SweepItem(jobs: seq<Job>, item: Item, now: int): Item
    requires item.job < |jobs|
  {
    if jobs[item.job].status == Cancelling && Waiting(item.status)
    then item.(status := ItemStatus.Cancelled, finishedAt := Some(now))
    else item
  }

  function SweepDb(db: Db, now: int): Db
    requires Linked(db)
  {
    var items := seq(|db.items|, i requires 0 <= i < |db.items| => SweepItem(db.jobs, db.items[i], now));
    Db(
      seq(|db.jobs|, j requires 0 <= j < |db.jobs| =>
        if db.jobs[j].status == Cancelling then Refresh(db.jobs[j], j, items, now) else db.jobs[j]),
      items)
  }

  // ---- control calls -------------------------------------------------------------------------

  function CreateDb(db: Db, now: int, priority: int, size: nat): Db {
    var job := Job(if size == 0 then Completed else Queued, priority, size, 0, 0, 0, None,
                   if size == 0 then Some(now) else None, if size == 0 then Some(now) else None);
    Db(db.jobs + [job], db.items + seq(size, _ => FreshItem(|db.jobs|, now)))
  }

  function FreshItem(j: nat, now: int): Item {
    Item(j, Pending, 0, DEFAULT_MAX_ATTEMPTS, now, None, None, None, None, None)
  }

  function CancelDb(db: Db, now: int, j: nat): Db
    requires j < |db.jobs|
  {
    if Terminal(db.jobs[j].status) then db
    else db.(jobs := db.jobs[j := db.jobs[j].(cancelAt := Some(now), status := Cancelling)])
  }

  function PauseDb(db: Db, j: nat): Result<Db, QueueError>
    requires j < |db.jobs|
  {
    var job := db.jobs[j];
    if Terminal(job.status) || job.status == Paused then Ok(db)
    else if job.status == Cancelling then Err(JobCancelling)
    else Ok(db.(jobs := db.jobs[j := job.(status := Pausing)]))
  }

  predicate Idle(items: seq<Item>, j: nat) {
    forall i | 0 <= i < |items| && items[i].job == j :: !InFlight(items[i].status)
  }

  /** Pauses those of the fetched jobs that are pausing and have nothing in flight. */
  function FinalizeDb(db: Db, fetched: set<nat>): Db {
    db.(jobs := seq(|db.jobs|, j requires 0 <= j < |db.jobs| =>
      if j in fetched && db.jobs[j].status == Pausing && Idle(db.items, j)
      then db.jobs[j].(status := Paused) else db.jobs[j]))
  }

  function ResumeDb(db: Db, j: nat): Result<Db, QueueError>
    requires j < |db.jobs|
  {
    var job := db.jobs[j];
    if job.status != Paused then Err(JobNotPaused)
    else Ok(db.(jobs := db.jobs[j := job.(
      status := if job.startedAt.Some? then JobStatus.Running else Queued)]))
  }
}

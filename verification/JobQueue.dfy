/**
 The queue as the services run it: two tables updated in place, one method a transaction. Each method
 is tied to the transition function whose runs JobRuns reasons about; `now` is the database clock.
 */
module JobQueue {
  import opened Options
  import opened JobModel
  import opened JobInvariant
  import opened JobRuns

  // ---- the candidate query -------------------------------------------------------------------

  /** The best claimable row among the first `n`. */
  lemma {:induction false} BestOfFirst(db: Db, now: int, n: nat) returns (best: nat)
    requires Linked(db) && n <= |db.items|
    requires exists i :: 0 <= i < n && Claimable(db, now, i)
    ensures best < n && Claimable(db, now, best)
    ensures forall k | 0 <= k < n && k != best && Claimable(db, now, k) :: Precedes(db, best, k)
  {
    var last := n - 1;
    if exists i :: 0 <= i < last && Claimable(db, now, i) {
      best := BestOfFirst(db, now, last);
      if Claimable(db, now, last) && !Precedes(db, best, last) { best := last; }
    } else {
      best := last;
    }
  }

  /** An item may be claimed when it waits, its delay is over, and its job is queued or running, not cancelled. */
  lemma ClaimableMeans(db: Db, now: int, i: nat)
    requires Linked(db) && i < |db.items|
    ensures var item, job := db.items[i], db.jobs[db.items[i].job];
            Claimable(db, now, i) <==>
              && item.status in {Pending, RetryWait}
              && (item.runAfter.Some? ==> item.runAfter.value <= now)
              && (item.expires.Some? ==> item.expires.value < now)
              && job.status in {Queued, JobStatus.Running} && job.cancelAt.None?
  {
  }

  /** A job is idle when none of its items is leased or running. */
  lemma IdleMeans(items: seq<Item>, j: nat)
    ensures Idle(items, j) <==>
            !exists i :: 0 <= i < |items| && items[i].job == j && items[i].status in {Leased, ItemStatus.Running}
  {
  }

  /** The query returns a row exactly when some row is claimable, and then only one row can be first. */
  lemma NextIsWellDefined(db: Db, now: int)
    requires Linked(db)
    ensures (exists i :: 0 <= i < |db.items| && Claimable(db, now, i)) <==>
            (exists i :: 0 <= i < |db.items| && IsNext(db, now, i))
    ensures forall i, k | IsNext(db, now, i) && IsNext(db, now, k) :: i == k
  {
    if exists i :: 0 <= i < |db.items| && Claimable(db, now, i) {
      var best := BestOfFirst(db, now, |db.items|);
      assert IsNext(db, now, best);
    }
  }

  /** The delay doubles from five seconds and saturates at five minutes from the seventh attempt on. */
  lemma {:induction false} BackoffSaturates(attempts: nat)
    ensures 5 <= Backoff(attempts) <= 300
    ensures attempts <= 1 ==> Backoff(attempts) == 5
    ensures attempts >= 7 ==> Backoff(attempts) == 300
    ensures 1 <= attempts < 6 ==> Backoff(attempts + 1) == 2 * Backoff(attempts)
  {
    if attempts >= 7 {
      PowGrows(6, attempts - 1);
      assert Pow2(6) == 64;
    } else if 1 <= attempts < 6 {
      PowGrows(attempts, 5);
      assert Pow2(5) == 32;
    }
  }

  lemma {:induction false} PowGrows(m: nat, n: nat)
    requires m <= n
    ensures Pow2(m) <= Pow2(n)
  {
    if m < n { PowGrows(m, n - 1); }
  }

  /**
   A recount in columns: each counter is the number of the job's items with that outcome. The job ends
   when it has no unfinished item: cancelled if that was asked for, completed if nothing failed, partial
   if something else did not fail, and failed otherwise.
   */
  ghost predicate Recounted(was: Job, is_: Job, j: nat, items: seq<Item>, now: int) {
    && is_ == was.(status := is_.status, finishedAt := is_.finishedAt,
                   succeeded := |set i | 0 <= i < |items| && items[i].job == j && items[i].status == Succeeded|,
                   failed := |set i | 0 <= i < |items| && items[i].job == j && items[i].status == ItemStatus.Failed|,
                   skipped := |set i | 0 <= i < |items| && items[i].job == j && items[i].status == Skipped|)
    && if exists i :: 0 <= i < |items| && items[i].job == j
                      && items[i].status in {Pending, Leased, ItemStatus.Running, RetryWait}
       then is_.status == was.status && is_.finishedAt == was.finishedAt
       else && is_.finishedAt == Some(now)
            && is_.status == if was.cancelAt.Some? then JobStatus.Cancelled
                             else if is_.failed == 0 then Completed
                             else if is_.succeeded + is_.skipped > 0 then Partial
                             else JobStatus.Failed
  }

  /** A sweep in columns: waiting items of cancelling jobs are cancelled and those jobs recounted. */
  ghost predicate Swept(was: Db, is_: Db, now: int)
    requires Linked(was)
  {
    && |is_.items| == |was.items| && |is_.jobs| == |was.jobs|
    && (forall i | 0 <= i < |was.items| ::
          is_.items[i] == if was.items[i].status in {Pending, RetryWait}
                             && was.jobs[was.items[i].job].status == Cancelling
                          then was.items[i].(status := ItemStatus.Cancelled, finishedAt := Some(now))
                          else was.items[i])
    && forall j | 0 <= j < |was.jobs| ::
         if was.jobs[j].status == Cancelling
         then Recounted(was.jobs[j], is_.jobs[j], j, is_.items, now) else is_.jobs[j] == was.jobs[j]
  }

  lemma SweepMeans(db: Db, now: int)
    requires Linked(db)
    ensures Swept(db, SweepDb(db, now), now)
  {
    forall j | 0 <= j < |db.jobs|
      ensures db.jobs[j].status == Cancelling ==>
                Recounted(db.jobs[j], SweepDb(db, now).jobs[j], j, SweepDb(db, now).items, now)
    {
      RefreshMeans(db.jobs[j], j, SweepDb(db, now).items, now);
    }
  }

  /** The item was handed out and its lease ran out. */
  ghost predicate IsLate(item: Item, now: int) {
    item.status in {Leased, ItemStatus.Running} && item.expires.Some? && item.expires.value < now
  }

  /**
   A recovery in columns: late items lose their holder and fail if they are out of attempts, else wait
   again; the jobs of late items are recounted; nothing else changes.
   */
  ghost predicate Recovered(was: Db, is_: Db, now: int) {
    && |is_.items| == |was.items| && |is_.jobs| == |was.jobs|
    && (forall i | 0 <= i < |was.items| ::
          is_.items[i] == if IsLate(was.items[i], now)
                          then was.items[i].(status := if was.items[i].attempts >= was.items[i].maxAttempts
                                                       then ItemStatus.Failed else Pending,
                                             owner := None, expires := None)
                          else was.items[i])
    && forall j | 0 <= j < |was.jobs| ::
         if HasLate(was.items, j, now)
         then Recounted(was.jobs[j], is_.jobs[j], j, is_.items, now) else is_.jobs[j] == was.jobs[j]
  }

  ghost predicate HasLate(items: seq<Item>, j: nat, now: int) {
    exists i :: 0 <= i < |items| && items[i].job == j && IsLate(items[i], now)
  }

  lemma NothingLate(db: Db, now: int)
    requires forall i | 0 <= i < |db.items| :: !Expired(db.items[i], now)
    ensures RecoverDb(db, now) == db
  {
    assert RecoverDb(db, now).items == db.items && RecoverDb(db, now).jobs == db.jobs;
  }

  lemma RecoverMeans(db: Db, now: int)
    ensures Recovered(db, RecoverDb(db, now), now)
  {
    var after := RecoverDb(db, now);
    forall j | 0 <= j < |db.jobs|
      ensures if HasLate(db.items, j, now)
              then Recounted(db.jobs[j], after.jobs[j], j, after.items, now) else after.jobs[j] == db.jobs[j]
    {
      assert HasLate(db.items, j, now) <==> Affected(db.items, j, now);
      RefreshMeans(db.jobs[j], j, after.items, now);
    }
  }

  lemma RefreshMeans(job: Job, j: nat, items: seq<Item>, now: int)
    ensures Recounted(job, Refresh(job, j, items, now), j, items, now)
  {
    CountIsSize(items, j, Succeeded);
    CountIsSize(items, j, ItemStatus.Failed);
    CountIsSize(items, j, Skipped);
    UnfinishedCounted(items, j);
  }

  // ---- the service ---------------------------------------------------------------------------

  class Queue {
    var jobs: seq<Job>
    var items: seq<Item>

    function Rows(): Db
      reads this
    {
      Db(jobs, items)
    }

    constructor ()
      ensures Rows() == Db([], [])
    {
      jobs, items := [], [];
    }

    method CreateJob(now: int, priority: int, size: nat) returns (j: nat)
      modifies this
      ensures Rows() == CreateDb(old(Rows()), now, priority, size)
      ensures j == |old(jobs)| && |jobs| == j + 1 && jobs[..j] == old(jobs)
      ensures jobs[j] == (if size == 0 then Job(Completed, priority, 0, 0, 0, 0, None, Some(now), Some(now))
                          else Job(Queued, priority, size, 0, 0, 0, None, None, None))
      ensures |items| == |old(items)| + size && items[..|old(items)|] == old(items)
      ensures forall i | |old(items)| <= i < |items| ::
                items[i] == Item(j, Pending, 0, 3, now, None, None, None, None, None)
    {
      j := |jobs|;
      var job := Job(Queued, priority, size, 0, 0, 0, None, None, None);
      if size == 0 {
        job := job.(status := Completed, startedAt := Some(now), finishedAt := Some(now));
      }
      jobs := jobs + [job];
      ghost var before := items;
      for added := 0 to size
        invariant items == before + seq(added, _ => FreshItem(j, now))
        invariant jobs == old(jobs) + [job]
      {
        items := items + [FreshItem(j, now)];
      }
    }

    method RefreshJobSummary(j: nat, now: int)
      requires j < |jobs|
      modifies this`jobs
      ensures jobs == old(jobs)[j := Refresh(old(jobs[j]), j, items, now)]
      ensures Recounted(old(jobs)[j], jobs[j], j, items, now)
    {
      RefreshMeans(jobs[j], j, items, now);
      var job := jobs[j];
      job := job.(succeeded := Count(items, j, Succeeded),
                  failed := Count(items, j, ItemStatus.Failed),
                  skipped := Count(items, j, Skipped));
      if UnfinishedCount(items, j) == 0 {
        job := job.(finishedAt := Some(now));
        if job.cancelAt.Some? {
          job := job.(status := JobStatus.Cancelled);
        } else if job.failed > 0 && (job.succeeded > 0 || job.skipped > 0) {
          job := job.(status := Partial);
        } else if job.failed > 0 {
          job := job.(status := JobStatus.Failed);
        } else {
          job := job.(status := Completed);
        }
      }
      jobs := jobs[j := job];
    }

    /** Refreshes the jobs in `chosen`, in any order. */
    method RefreshAll(chosen: set<nat>, now: int)
      requires forall j | j in chosen :: j < |jobs|
      modifies this`jobs
      ensures |jobs| == |old(jobs)|
      ensures forall j | 0 <= j < |jobs| ::
                jobs[j] == if j in chosen then Refresh(old(jobs)[j], j, items, now) else old(jobs)[j]
    {
      var rest := chosen;
      while rest != {}
        invariant rest <= chosen && |jobs| == |old(jobs)|
        invariant forall j | 0 <= j < |jobs| ::
                    jobs[j] == if j in chosen - rest then Refresh(old(jobs)[j], j, items, now) else old(jobs)[j]
        decreases |rest|
      {
        var j :| j in rest;
        RefreshJobSummary(j, now);
        rest := rest - {j};
      }
    }

    method RecoverExpiredLeases(now: int) returns (recovered: nat)
      requires Linked(Rows())
      modifies this
      ensures Rows() == RecoverDb(old(Rows()), now)
      ensures recovered == |set i | 0 <= i < |old(items)| && IsLate(old(items)[i], now)|
      ensures Recovered(old(Rows()), Rows(), now)
    {
      RecoverMeans(Rows(), now);
      var expired := set i | 0 <= i < |items| && Expired(items[i], now);
      assert expired == set i | 0 <= i < |items| && IsLate(items[i], now);
      recovered := |expired|;
      if expired == {} {
        forall i | 0 <= i < |items| ensures !Expired(items[i], now) {
          assert i !in expired;
        }
        NothingLate(Rows(), now);
        return;
      }
      ReleaseItems(set i | i in expired :: items[i].job, now);
    }

    /** Takes back every expired lease and refreshes the jobs concerned. */
    method ReleaseItems(affected: set<nat>, now: int)
      requires Linked(Rows())
      requires forall j :: j in affected <==> Affected(items, j, now)
      modifies this
      ensures Rows() == RecoverDb(old(Rows()), now)
    {
      ghost var after := RecoverDb(Rows(), now);
      var before := items;
      items := seq(|before|, i requires 0 <= i < |before| => RecoverItem(before[i], now));
      RefreshAll(affected, now);
      assert items == after.items && jobs == after.jobs;
    }

    method LeaseNextItem(now: int, worker: string, seconds: nat) returns (lease: Option<Lease>)
      requires Linked(Rows())
      modifies this
      ensures lease.None? ==> Rows() == old(Rows()) && forall i | 0 <= i < |items| :: !Claimable(Rows(), now, i)
      ensures lease.Some? ==>
                var i := lease.value.item;
                && i < |old(items)| == |items| && |jobs| == |old(jobs)| && Claimable(old(Rows()), now, i)
                && (forall k | 0 <= k < |old(items)| && Claimable(old(Rows()), now, k) ::
                      var p, q := old(jobs)[old(items)[i].job].priority, old(jobs)[old(items)[k].job].priority;
                      && q <= p
                      && (p == q ==> old(items)[i].createdAt <= old(items)[k].createdAt)
                      && (p == q && old(items)[i].createdAt == old(items)[k].createdAt ==> i <= k))
                && items == old(items)[i := items[i]]
                && items[i] == old(items)[i].(
                     status := ItemStatus.Running, owner := Some(worker), expires := Some(now + seconds),
                     attempts := old(items)[i].attempts + 1,
                     startedAt := if old(items)[i].startedAt.None? then Some(now) else old(items)[i].startedAt)
                && lease.value == Lease(i, items[i].job, items[i].attempts, items[i].maxAttempts, worker)
                && jobs == old(jobs)[items[i].job := jobs[items[i].job]]
                && jobs[items[i].job] == if old(jobs)[items[i].job].status == Queued
                                         then old(jobs)[items[i].job].(status := JobStatus.Running,
                                                                       startedAt := Some(now))
                                         else old(jobs)[items[i].job]
      ensures lease.Some? ==>
                && IsNext(old(Rows()), now, lease.value.item)
                && Rows() == LeaseDb(old(Rows()), now, lease.value.item, worker, seconds)
                && lease.value == LeaseOf(old(Rows()), lease.value.item, worker)
    {
      NextIsWellDefined(Rows(), now);
      if !exists i :: 0 <= i < |items| && IsNext(Rows(), now, i) {
        return None;
      }
      var i :| 0 <= i < |items| && IsNext(Rows(), now, i);
      var item := items[i];
      items := items[i := item.(
        status := ItemStatus.Running, owner := Some(worker), expires := Some(now + seconds),
        attempts := item.attempts + 1,
        startedAt := if item.startedAt.Some? then item.startedAt else Some(now))];
      var job := jobs[item.job];
      if job.status == Queued {
        jobs := jobs[item.job := job.(status := JobStatus.Running, startedAt := Some(now))];
      }
      lease := Some(Lease(i, item.job, items[i].attempts, item.maxAttempts, worker));
    }

    method FinishItem(now: int, lease: Lease, status: ItemStatus) returns (r: Result<(), QueueError>)
      requires lease.job < |jobs|
      modifies this
      ensures r.Ok? <==> Accepts(old(Rows()), lease)
      ensures r.Ok? ==> Rows() == FinishDb(old(Rows()), now, lease, status)
      ensures r.Ok? ==>
                && lease.item < |old(items)| && old(items)[lease.item].owner == Some(lease.owner)
                && items == old(items)[lease.item := old(items)[lease.item].(
                              status := status, finishedAt := Some(now), owner := None, expires := None)]
                && jobs == old(jobs)[lease.job := jobs[lease.job]]
                && Recounted(old(jobs)[lease.job], jobs[lease.job], lease.job, items, now)
      ensures r.Err? ==> Rows() == old(Rows())
      ensures r.Err? ==> r.error == if lease.item < |items| then OwnershipChanged else ItemDisappeared
    {
      if lease.item >= |items| { return Err(ItemDisappeared); }
      var item := items[lease.item];
      if item.owner != Some(lease.owner) { return Err(OwnershipChanged); }
      items := items[lease.item := item.(
        status := status, finishedAt := Some(now), owner := None, expires := None)];
      RefreshJobSummary(lease.job, now);
      r := Ok(());
    }

    method RetryItem(now: int, lease: Lease, delay: Option<nat>) returns (r: Result<(), QueueError>)
      requires lease.job < |jobs|
      modifies this
      ensures r.Ok? <==> Accepts(old(Rows()), lease)
      ensures r.Ok? ==> Rows() == RetryDb(old(Rows()), now, lease, delay)
      ensures r.Ok? ==>
                && lease.item < |old(items)| && old(items)[lease.item].owner == Some(lease.owner)
                && items == old(items)[lease.item := items[lease.item]]
                && jobs == old(jobs)[lease.job := jobs[lease.job]]
      ensures r.Ok? && lease.attempts >= lease.maxAttempts ==>
                && items[lease.item] == old(items)[lease.item].(
                     status := ItemStatus.Failed, finishedAt := Some(now), owner := None, expires := None)
                && Recounted(old(jobs)[lease.job], jobs[lease.job], lease.job, items, now)
      ensures r.Ok? && lease.attempts < lease.maxAttempts ==>
                && jobs == old(jobs)
                && items[lease.item] == old(items)[lease.item].(
                     status := RetryWait, finishedAt := None, owner := None, expires := None,
                     runAfter := Some(now + if delay.Some? && delay.value > 0 then delay.value
                                            else Backoff(lease.attempts)))
      ensures r.Err? ==> Rows() == old(Rows())
      ensures r.Err? ==> r.error == if lease.item < |items| then OwnershipChanged else ItemDisappeared
    {
      if lease.attempts >= lease.maxAttempts {
        r := FinishItem(now, lease, ItemStatus.Failed);
        return;
      }
      if lease.item >= |items| { return Err(ItemDisappeared); }
      var item := items[lease.item];
      if item.owner != Some(lease.owner) { return Err(OwnershipChanged); }
      var seconds := if delay.Some? && delay.value != 0 then delay.value else Backoff(lease.attempts);
      items := items[lease.item := item.(
        status := RetryWait, runAfter := Some(now + seconds),
        finishedAt := None, owner := None, expires := None)];
      r := Ok(());
    }

    method CancelPendingItems(now: int) returns (cancelled: nat)
      requires Linked(Rows())
      modifies this
      ensures Rows() == SweepDb(old(Rows()), now)
      ensures cancelled == |set i | 0 <= i < |old(items)| && old(items)[i].status in {Pending, RetryWait}
                                    && old(jobs)[old(items)[i].job].status == Cancelling|
      ensures Swept(old(Rows()), Rows(), now)
    {
      SweepMeans(Rows(), now);
      var cancelling := set j | 0 <= j < |jobs| && jobs[j].status == Cancelling;
      var hit := set i | 0 <= i < |items| && Waiting(items[i].status) && jobs[items[i].job].status == Cancelling;
      assert hit == set i | 0 <= i < |items| && items[i].status in {Pending, RetryWait}
                            && jobs[items[i].job].status == Cancelling;
      SweepItems(cancelling, now);
      cancelled := |hit|;
    }

    /** Cancels the waiting items of the cancelling jobs and refreshes those jobs. */
    method SweepItems(cancelling: set<nat>, now: int)
      requires Linked(Rows())
      requires cancelling == set j | 0 <= j < |jobs| && jobs[j].status == Cancelling
      modifies this
      ensures Rows() == SweepDb(old(Rows()), now)
    {
      ghost var after := SweepDb(Rows(), now);
      var before, owners := items, jobs;
      items := seq(|before|, i requires 0 <= i < |before| && before[i].job < |owners| =>
        SweepItem(owners, before[i], now));
      RefreshAll(cancelling, now);
      assert items == after.items && jobs == after.jobs;
    }

    method RequestJobCancel(now: int, j: nat) returns (r: Result<Job, QueueError>)
      modifies this`jobs
      ensures r.Ok? <==> j < |old(jobs)|
      ensures r.Err? ==> r.error == JobNotFound && Rows() == old(Rows())
      ensures r.Ok? ==> Rows() == CancelDb(old(Rows()), now, j) && r.value == jobs[j]
      ensures r.Ok? ==>
                jobs == if old(jobs)[j].status in {Completed, Partial, JobStatus.Failed, JobStatus.Cancelled}
                        then old(jobs)
                        else old(jobs)[j := old(jobs)[j].(cancelAt := Some(now), status := Cancelling)]
    {
      if j >= |jobs| { return Err(JobNotFound); }
      var job := jobs[j];
      if job.status in {Completed, Partial, JobStatus.Failed, JobStatus.Cancelled} { return Ok(job); }
      job := job.(cancelAt := Some(now), status := Cancelling);
      jobs := jobs[j := job];
      r := Ok(job);
    }

    method RequestJobPause(j: nat) returns (r: Result<Job, QueueError>)
      modifies this`jobs
      ensures j >= |old(jobs)| ==> r == Err(JobNotFound)
      ensures j < |old(jobs)| ==>
                match PauseDb(old(Rows()), j)
                case Ok(db) => r.Ok? && Rows() == db && r.value == jobs[j]
                case Err(e) => r == Err(e)
      ensures j < |old(jobs)| ==>
                var status := old(jobs)[j].status;
                && (r == Err(JobCancelling) <==> status == Cancelling)
                && (r.Ok? <==> status != Cancelling)
                && (r.Ok? ==>
                      jobs == if status in {Completed, Partial, JobStatus.Failed, JobStatus.Cancelled, Paused}
                              then old(jobs)
                              else old(jobs)[j := old(jobs)[j].(status := Pausing)])
      ensures r.Err? ==> Rows() == old(Rows())
    {
      if j >= |jobs| { return Err(JobNotFound); }
      var job := jobs[j];
      if job.status in {Completed, Partial, JobStatus.Failed, JobStatus.Cancelled, Paused} { return Ok(job); }
      if job.status == Cancelling { return Err(JobCancelling); }
      job := job.(status := Pausing);
      jobs := jobs[j := job];
      r := Ok(job);
    }

    /** `fetched` is what the query returned: up to a hundred of the pausing jobs. */
    method FinalizePausingJobs(fetched: set<nat>) returns (paused: nat)
      requires fetched <= set j | 0 <= j < |jobs| && jobs[j].status == Pausing
      modifies this`jobs
      ensures Rows() == FinalizeDb(old(Rows()), fetched)
      ensures paused == |set j | j in fetched && Idle(items, j)|
      ensures |jobs| == |old(jobs)| && forall j | 0 <= j < |jobs| ::
                jobs[j] == if j in fetched && Idle(items, j) then old(jobs)[j].(status := Paused) else old(jobs)[j]
    {
      var rest, done := fetched, {};
      paused := 0;
      while rest != {}
        invariant rest <= fetched && |jobs| == |old(jobs)|
        invariant done == set j | j in fetched - rest && Idle(items, j)
        invariant paused == |done|
        invariant forall j | 0 <= j < |jobs| ::
                    jobs[j] == if j in done then old(jobs)[j].(status := Paused) else old(jobs)[j]
        decreases |rest|
      {
        var j :| j in rest;
        rest := rest - {j};
        if Idle(items, j) {
          jobs := jobs[j := jobs[j].(status := Paused)];
          paused := paused + 1;
          done := done + {j};
        }
      }
      assert done == set j | j in fetched && Idle(items, j);
    }

    method ResumeJob(j: nat) returns (r: Result<Job, QueueError>)
      modifies this`jobs
      ensures j >= |old(jobs)| ==> r == Err(JobNotFound)
      ensures j < |old(jobs)| ==>
                match ResumeDb(old(Rows()), j)
                case Ok(db) => r.Ok? && Rows() == db && r.value == jobs[j]
                case Err(e) => r == Err(e)
      ensures j < |old(jobs)| ==>
                var job := old(jobs)[j];
                && (r == Err(JobNotPaused) <==> job.status != Paused)
                && (r.Ok? <==> job.status == Paused)
                && (r.Ok? ==> jobs == old(jobs)[j := job.(
                      status := if job.startedAt.None? then Queued else JobStatus.Running)])
      ensures r.Err? ==> Rows() == old(Rows())
    {
      if j >= |jobs| { return Err(JobNotFound); }
      var job := jobs[j];
      if job.status != Paused { return Err(JobNotPaused); }
      job := job.(status := if job.startedAt.Some? then JobStatus.Running else Queued);
      jobs := jobs[j := job];
      r := Ok(job);
    }
  }

  // ---- the worker ----------------------------------------------------------------------------

  /** How one attempt ended. A raised exception turns into a retry; a crash leaves the lease to expire. */
  datatype Handled = Unregistered | Done(status: ItemStatus) | Rescheduled(delay: Option<nat>) | Raised | Died

  /** The rows after an attempt on `lease` ended as `how`. */
  function AttemptDb(db: Db, now: int, lease: Lease, how: Handled): Db
    requires lease.job < |db.jobs| && Accepts(db, lease)
  {
    match how
    case Unregistered => FinishDb(db, now, lease, ItemStatus.Failed)
    case Done(status) => FinishDb(db, now, lease, status)
    case Rescheduled(delay) => RetryDb(db, now, lease, delay)
    case Raised => RetryDb(db, now, lease, None)
    case _ => db
  }

  /**
   Whatever the other workers, the sweeps and the control calls commit while the handler runs. What is
   promised of it is what `HeldLeaseSurvives` proves of any such run; the lease may have lost its row.
   */
  method OthersRun(queue: Queue, lease: Lease)
    requires DbOk(queue.Rows()) && LeaseOk(queue.Rows(), lease)
    modifies queue
    ensures DbOk(queue.Rows()) && LeaseOk(queue.Rows(), lease)
  {
  }

  /** The calls of the queue with which an attempt ends; a refused one raises out of the worker's pass. */
  method EndAttempt(queue: Queue, now: int, lease: Lease, how: Handled) returns (escaped: bool)
    requires DbOk(queue.Rows()) && LeaseOk(queue.Rows(), lease)
    requires how.Done? ==> how.status in {Succeeded, ItemStatus.Failed, Skipped}
    modifies queue
    ensures DbOk(queue.Rows())
    ensures escaped <==> Calls(how) && !Accepts(old(queue.Rows()), lease)
    ensures queue.Rows() == if Accepts(old(queue.Rows()), lease)
                            then AttemptDb(old(queue.Rows()), now, lease, how) else old(queue.Rows())
    ensures Calls(how) && !escaped ==>
              && queue.items == old(queue.items)[lease.item := queue.items[lease.item]]
              && queue.items[lease.item].owner.None? && queue.items[lease.item].expires.None?
              && queue.items[lease.item].status ==
                   match how
                   case Done(status) => status
                   case Unregistered => ItemStatus.Failed
                   case _ => if lease.attempts >= lease.maxAttempts then ItemStatus.Failed else RetryWait
    ensures Calls(how) && !escaped && queue.items[lease.item].status == RetryWait ==>
              queue.items[lease.item].runAfter
              == Some(now + if how.Rescheduled? && how.delay.Some? && how.delay.value > 0 then how.delay.value
                            else Backoff(lease.attempts))
    ensures how.Done? && !escaped ==>
              var before, after := old(queue.jobs)[lease.job], queue.jobs[lease.job];
              && after.succeeded == before.succeeded + (if how.status == Succeeded then 1 else 0)
              && after.failed == before.failed + (if how.status == ItemStatus.Failed then 1 else 0)
              && after.skipped == before.skipped + (if how.status == Skipped then 1 else 0)
              && queue.jobs == old(queue.jobs)[lease.job := after]
    ensures !Calls(how) ==> queue.Rows() == old(queue.Rows()) && !escaped
  {
    if Accepts(queue.Rows(), lease) { AttemptKeeps(queue.Rows(), now, lease, how); }
    if Accepts(queue.Rows(), lease) && how.Done? { FinishCounts(queue.Rows(), now, lease, how.status); }
    var r: Result<(), QueueError> := Ok(());
    match how {
      case Unregistered => r := queue.FinishItem(now, lease, ItemStatus.Failed);
      case Done(status) =>
        r := queue.FinishItem(now, lease, status);
        if r.Err? { r := queue.RetryItem(now, lease, None); }
      case Rescheduled(delay) =>
        r := queue.RetryItem(now, lease, delay);
        if r.Err? { r := queue.RetryItem(now, lease, None); }
      case Raised => r := queue.RetryItem(now, lease, None);
      case _ =>
    }
    escaped := r.Err?;
  }

  predicate Calls(how: Handled) {
    how.Unregistered? || how.Done? || how.Rescheduled? || how.Raised?
  }

  /**
   One pass of a worker: recover, sweep, settle pauses, lease, handle. The handler is outside the
   queue, and would end as `how`; others act while it runs, and `reached` is what they leave;
   `later` is the clock when it ends. `escaped` is an error raised out of the pass.
   */
  method RunOnce(queue: Queue, now: int, later: int, fetched: set<nat>, worker: string, seconds: nat, how: Handled)
    returns (worked: bool, escaped: bool, lease: Option<Lease>, ghost reached: Db)
    requires how.Done? ==> how.status in {Succeeded, ItemStatus.Failed, Skipped}
    requires DbOk(queue.Rows())
    requires fetched <= set j | 0 <= j < |queue.jobs| &&
                                SweepDb(RecoverDb(queue.Rows(), now), now).jobs[j].status == Pausing
    modifies queue
    ensures DbOk(queue.Rows())
    ensures var ready := Housekeep(old(queue.Rows()), now, fetched);
            && DbOk(ready)
            && worked == lease.Some?
            && (worked <==> exists i :: 0 <= i < |ready.items| && Claimable(ready, now, i))
            && (!worked ==> queue.Rows() == ready && !escaped)
            && (worked ==>
                  && IsNext(ready, now, lease.value.item)
                  && lease.value == LeaseOf(ready, lease.value.item, worker)
                  && Accepts(LeaseDb(ready, now, lease.value.item, worker, seconds), lease.value))
    ensures worked ==>
              && DbOk(reached) && LeaseOk(reached, lease.value)
              && (escaped <==> Calls(how) && !Accepts(reached, lease.value))
              && queue.Rows() == if Accepts(reached, lease.value)
                                 then AttemptDb(reached, later, lease.value, how) else reached
  {
    RecoverKeeps(queue.Rows(), now);
    var recovered := queue.RecoverExpiredLeases(now);
    SweepKeeps(queue.Rows(), now);
    var cancelled := queue.CancelPendingItems(now);
    FinalizeKeeps(queue.Rows(), fetched);
    var paused := queue.FinalizePausingJobs(fetched);
    ghost var ready := queue.Rows();
    lease := queue.LeaseNextItem(now, worker, seconds);
    reached := queue.Rows();
    if lease.None? {
      return false, false, None, reached;
    }
    LeaseKeeps(ready, now, lease.value.item, worker, seconds);
    worked := true;
    OthersRun(queue, lease.value);
    reached := queue.Rows();
    escaped := EndAttempt(queue, later, lease.value, how);
  }

  lemma AttemptKeeps(db: Db, now: int, lease: Lease, how: Handled)
    requires DbOk(db) && LeaseOk(db, lease) && Accepts(db, lease)
    requires how.Done? ==> how.status in {Succeeded, ItemStatus.Failed, Skipped}
    ensures DbOk(AttemptDb(db, now, lease, how))
  {
    match how
    case Unregistered => FinishKeeps(db, now, lease, ItemStatus.Failed);
    case Done(status) => FinishKeeps(db, now, lease, status);
    case Rescheduled(delay) => RetryKeeps(db, now, lease, delay);
    case Raised => RetryKeeps(db, now, lease, None);
    case _ =>
  }
}

/**
 What every transaction of the job queue keeps. No single function guarantees any of it: the cached
 counters and the job status agree with the items only because every writer refreshes the right jobs.
 That part holds however workers are named. Attempts stay within their maximum, although leasing never
 looks at it, only as long as an accepted lease is the latest one of its item.
 */
module JobInvariant {
  import opened Options
  import opened JobModel

  // ---- counting ------------------------------------------------------------------------------

  lemma {:induction false} CountSame(a: seq<Item>, b: seq<Item>, j: nat, s: ItemStatus)
    requires |a| == |b|
    requires forall i | 0 <= i < |a| :: Hit(a[i], j, s) == Hit(b[i], j, s)
    ensures Count(a, j, s) == Count(b, j, s)
  {
    if a != [] { CountSame(a[1..], b[1..], j, s); }
  }

  lemma {:induction false} CountPositive(items: seq<Item>, j: nat, s: ItemStatus)
    ensures Count(items, j, s) > 0 <==> exists i :: 0 <= i < |items| && Hit(items[i], j, s)
  {
    if items != [] {
      CountPositive(items[1..], j, s);
      if i :| 0 <= i < |items| && Hit(items[i], j, s) {
        if i > 0 { assert items[1..][i - 1] == items[i]; }
      }
    }
  }

  lemma {:induction false} CountConcat(a: seq<Item>, b: seq<Item>, j: nat, s: ItemStatus)
    ensures Count(a + b, j, s) == Count(a, j, s) + Count(b, j, s)
  {
    if a == [] {
      assert a + b == b;
    } else {
      CountConcat(a[1..], b, j, s);
      assert (a + b)[1..] == a[1..] + b;
    }
  }

  /** Counting is the size of the set counted. */
  lemma CountIsSize(items: seq<Item>, j: nat, s: ItemStatus)
    ensures Count(items, j, s) == |set i | 0 <= i < |items| && items[i].job == j && items[i].status == s|
  {
    PrefixCount(items, |items|, j, s);
    assert items[..|items|] == items;
    assert (set i | 0 <= i < |items| && items[i].job == j && items[i].status == s) == Places(items, |items|, j, s);
  }

  function Places(items: seq<Item>, n: nat, j: nat, s: ItemStatus): set<int>
    requires n <= |items|
  {
    set i | 0 <= i < n && items[i].job == j && items[i].status == s
  }

  lemma {:induction false} PrefixCount(items: seq<Item>, n: nat, j: nat, s: ItemStatus)
    requires n <= |items|
    ensures Count(items[..n], j, s) == |Places(items, n, j, s)|
  {
    if n > 0 {
      PrefixCount(items, n - 1, j, s);
      CountConcat(items[..n - 1], [items[n - 1]], j, s);
      assert items[..n] == items[..n - 1] + [items[n - 1]];
      var before, more := Places(items, n - 1, j, s), Places(items, n, j, s);
      if items[n - 1].job == j && items[n - 1].status == s {
        assert more == before + {n - 1};
      } else {
        assert more == before;
      }
    }
  }

  lemma {:induction false} CountUpdate(items: seq<Item>, k: nat, item: Item, j: nat, s: ItemStatus)
    requires k < |items|
    ensures Count(items[k := item], j, s)
            == Count(items, j, s) - (if Hit(items[k], j, s) then 1 else 0) + (if Hit(item, j, s) then 1 else 0)
  {
    if k == 0 {
      assert items[k := item][1..] == items[1..];
    } else {
      assert items[k := item][1..] == items[1..][k - 1 := item];
      CountUpdate(items[1..], k - 1, item, j, s);
    }
  }

  ghost predicate HasUnfinished(items: seq<Item>, j: nat) {
    exists i :: 0 <= i < |items| && items[i].job == j && Unfinished(items[i].status)
  }

  lemma UnfinishedCounted(items: seq<Item>, j: nat)
    ensures UnfinishedCount(items, j) > 0 <==> HasUnfinished(items, j)
  {
    CountPositive(items, j, Pending);
    CountPositive(items, j, Leased);
    CountPositive(items, j, ItemStatus.Running);
    CountPositive(items, j, RetryWait);
    if i :| 0 <= i < |items| && items[i].job == j && Unfinished(items[i].status) {
      assert Hit(items[i], j, items[i].status);
    }
  }

  function Size(items: seq<Item>, j: nat): nat {
    if items == [] then 0 else (if items[0].job == j then 1 else 0) + Size(items[1..], j)
  }

  lemma {:induction false} SizeSame(a: seq<Item>, b: seq<Item>, j: nat)
    requires |a| == |b|
    requires forall i | 0 <= i < |a| :: a[i].job == b[i].job
    ensures Size(a, j) == Size(b, j)
  {
    if a != [] { SizeSame(a[1..], b[1..], j); }
  }

  lemma {:induction false} SizeConcat(a: seq<Item>, b: seq<Item>, j: nat)
    ensures Size(a + b, j) == Size(a, j) + Size(b, j)
  {
    if a == [] {
      assert a + b == b;
    } else {
      SizeConcat(a[1..], b, j);
      assert (a + b)[1..] == a[1..] + b;
    }
  }

  lemma {:induction false} SizeUniform(items: seq<Item>, j: nat, own: bool)
    requires forall i | 0 <= i < |items| :: (items[i].job == j) == own
    ensures Size(items, j) == if own then |items| else 0
  {
    if items != [] { SizeUniform(items[1..], j, own); }
  }

  /** Every item of a job is in exactly one status. */
  lemma {:induction false} CountsAddUp(items: seq<Item>, j: nat)
    ensures Size(items, j) == UnfinishedCount(items, j) + Count(items, j, Succeeded)
              + Count(items, j, ItemStatus.Failed) + Count(items, j, Skipped)
              + Count(items, j, ItemStatus.Cancelled)
  {
    if items != [] { CountsAddUp(items[1..], j); }
  }

  // ---- the invariant -------------------------------------------------------------------------

  ghost predicate CountersAgree(db: Db, j: nat)
    requires j < |db.jobs|
  {
    && db.jobs[j].succeeded == Count(db.items, j, Succeeded)
    && db.jobs[j].failed == Count(db.items, j, ItemStatus.Failed)
    && db.jobs[j].skipped == Count(db.items, j, Skipped)
  }

  ghost predicate JobOk(db: Db, j: nat)
    requires j < |db.jobs|
  {
    var job := db.jobs[j];
    && CountersAgree(db, j)
    && job.total == Size(db.items, j)
    && (Terminal(job.status) <==> !HasUnfinished(db.items, j))
    && (job.cancelAt.Some? <==> job.status in {Cancelling, JobStatus.Cancelled})
    && (Terminal(job.status) ==>
          job.status == Verdict(job.cancelAt.Some?, job.succeeded, job.failed, job.skipped))
    && (job.status in {Queued, Paused} ==> Idle(db.items, j))
  }

  ghost predicate ItemOk(item: Item) {
    && 1 <= item.maxAttempts
    && item.status != Leased
    && (item.status == ItemStatus.Running ==> item.owner.Some? && item.expires.Some? && item.attempts >= 1)
    && (item.status != ItemStatus.Running ==> item.owner.None? && item.expires.None?)
  }

  ghost predicate DbOk(db: Db) {
    && Linked(db)
    && (forall i | 0 <= i < |db.items| :: ItemOk(db.items[i]))
    && (forall i | 0 <= i < |db.items| && db.items[i].status == ItemStatus.Cancelled ::
          db.jobs[db.items[i].job].cancelAt.Some?)
    && (forall j | 0 <= j < |db.jobs| :: JobOk(db, j))
  }

  /** What the final status of a job that was not cancelled says about its items. */
  lemma EndingMeans(db: Db, j: nat)
    requires DbOk(db) && j < |db.jobs|
    requires Terminal(db.jobs[j].status) && db.jobs[j].status != JobStatus.Cancelled
    ensures forall i | 0 <= i < |db.items| && db.items[i].job == j ::
              db.items[i].status in {Succeeded, ItemStatus.Failed, Skipped}
    ensures db.jobs[j].succeeded + db.jobs[j].failed + db.jobs[j].skipped == db.jobs[j].total
    ensures db.jobs[j].status == Completed <==>
              forall i | 0 <= i < |db.items| && db.items[i].job == j :: db.items[i].status != ItemStatus.Failed
    ensures db.jobs[j].status == JobStatus.Failed ==>
              forall i | 0 <= i < |db.items| && db.items[i].job == j :: db.items[i].status == ItemStatus.Failed
    ensures db.jobs[j].status == Partial ==>
              exists i :: 0 <= i < |db.items| && db.items[i].job == j && db.items[i].status in {Succeeded, Skipped}
  {
    assert JobOk(db, j);
    CountPositive(db.items, j, Succeeded);
    CountPositive(db.items, j, ItemStatus.Failed);
    CountPositive(db.items, j, Skipped);
    CountPositive(db.items, j, ItemStatus.Cancelled);
    UnfinishedCounted(db.items, j);
    CountsAddUp(db.items, j);
    forall i | 0 <= i < |db.items| && db.items[i].job == j
      ensures Hit(db.items[i], j, db.items[i].status) && !Unfinished(db.items[i].status)
    {
    }
  }

  /** A held lease names a real row, as it was handed out. */
  ghost predicate LeaseOk(db: Db, lease: Lease) {
    && lease.item < |db.items|
    && var item := db.items[lease.item];
    && lease.job == item.job
    && lease.maxAttempts == item.maxAttempts
    && 1 <= lease.attempts <= item.attempts
  }

  /** An accepted lease is the latest one handed out for its item. */
  ghost predicate Current(db: Db, lease: Lease) {
    Accepts(db, lease) ==> db.items[lease.item].attempts == lease.attempts
  }

  /** An item has attempts left whenever it waits for one, and never more than its maximum behind it. */
  ghost predicate BudgetOk(item: Item) {
    item.attempts <= item.maxAttempts && (Waiting(item.status) ==> item.attempts < item.maxAttempts)
  }

  ghost predicate WithinBudget(db: Db) {
    forall i | 0 <= i < |db.items| :: BudgetOk(db.items[i])
  }

  // ---- jobs an update does not touch ---------------------------------------------------------

  /** Two item tables look alike to job `j`: same jobs, and the same statuses up to waiting or running. */
  ghost predicate SameFor(a: seq<Item>, b: seq<Item>, j: nat) {
    && |a| == |b|
    && forall i | 0 <= i < |a| ::
         && a[i].job == b[i].job
         && (a[i].job == j ==>
               && Unfinished(a[i].status) == Unfinished(b[i].status)
               && (a[i].status != b[i].status ==> Unfinished(a[i].status)))
  }

  /** The counters and the terminal test of a job depend only on what `SameFor` compares. */
  lemma SameCounts(a: seq<Item>, b: seq<Item>, j: nat)
    requires SameFor(a, b, j)
    ensures Count(a, j, Succeeded) == Count(b, j, Succeeded)
    ensures Count(a, j, ItemStatus.Failed) == Count(b, j, ItemStatus.Failed)
    ensures Count(a, j, Skipped) == Count(b, j, Skipped)
    ensures HasUnfinished(a, j) == HasUnfinished(b, j)
    ensures Size(a, j) == Size(b, j)
  {
    SizeSame(a, b, j);
    CountSame(a, b, j, Succeeded);
    CountSame(a, b, j, ItemStatus.Failed);
    CountSame(a, b, j, Skipped);
  }

  /** Refreshing an active job against any items leaves it in order, provided it is not parked. */
  lemma RefreshOk(db: Db, job: Job, j: nat, now: int)
    requires Linked(db) && j < |db.jobs|
    requires db.jobs[j] == Refresh(job, j, db.items, now)
    requires !Terminal(job.status) && job.total == Size(db.items, j)
    requires job.cancelAt.Some? <==> job.status == Cancelling
    requires job.status in {Queued, Paused} ==> Idle(db.items, j)
    ensures JobOk(db, j)
  {
    UnfinishedCounted(db.items, j);
  }

  // ---- one lemma per transaction -------------------------------------------------------------

  lemma LeaseKeeps(db: Db, now: int, i: nat, worker: string, seconds: nat)
    requires DbOk(db) && i < |db.items| && Claimable(db, now, i)
    ensures DbOk(LeaseDb(db, now, i, worker, seconds))
    ensures LeaseOk(LeaseDb(db, now, i, worker, seconds), LeaseOf(db, i, worker))
  {
    var after := LeaseDb(db, now, i, worker, seconds);
    forall j | 0 <= j < |after.jobs| ensures JobOk(after, j) {
      assert JobOk(db, j);
      SameCounts(db.items, after.items, j);
    }
  }

  lemma FinishKeeps(db: Db, now: int, lease: Lease, status: ItemStatus)
    requires DbOk(db) && LeaseOk(db, lease) && Accepts(db, lease)
    requires status in {Succeeded, ItemStatus.Failed, Skipped}
    ensures DbOk(FinishDb(db, now, lease, status))
  {
    var after := FinishDb(db, now, lease, status);
    forall j | 0 <= j < |after.jobs| ensures JobOk(after, j) {
      assert JobOk(db, j);
      if j == lease.job {
        assert Unfinished(db.items[lease.item].status);
        SizeSame(db.items, after.items, j);
        RefreshOk(after, db.jobs[j], j, now);
      } else {
        SameCounts(db.items, after.items, j);
      }
    }
  }

  /** An accepted outcome raises exactly its own counter, on exactly the job of the lease, by one. */
  lemma FinishCounts(db: Db, now: int, lease: Lease, status: ItemStatus)
    requires DbOk(db) && LeaseOk(db, lease) && Accepts(db, lease)
    requires status in {Succeeded, ItemStatus.Failed, Skipped}
    ensures var before, after := db.jobs[lease.job], FinishDb(db, now, lease, status).jobs[lease.job];
            && after.succeeded == before.succeeded + (if status == Succeeded then 1 else 0)
            && after.failed == before.failed + (if status == ItemStatus.Failed then 1 else 0)
            && after.skipped == before.skipped + (if status == Skipped then 1 else 0)
            && after.total == before.total
  {
    var item := FinishDb(db, now, lease, status).items[lease.item];
    assert JobOk(db, lease.job) && ItemOk(db.items[lease.item]);
    CountUpdate(db.items, lease.item, item, lease.job, Succeeded);
    CountUpdate(db.items, lease.item, item, lease.job, ItemStatus.Failed);
    CountUpdate(db.items, lease.item, item, lease.job, Skipped);
  }

  lemma RetryKeeps(db: Db, now: int, lease: Lease, asked: Option<nat>)
    requires DbOk(db) && LeaseOk(db, lease) && Accepts(db, lease)
    ensures DbOk(RetryDb(db, now, lease, asked))
  {
    if lease.attempts >= lease.maxAttempts {
      FinishKeeps(db, now, lease, ItemStatus.Failed);
    } else {
      var after := RetryDb(db, now, lease, asked);
      forall j | 0 <= j < |after.jobs| ensures JobOk(after, j) {
        assert JobOk(db, j);
        SameCounts(db.items, after.items, j);
      }
    }
  }

  lemma RecoverKeeps(db: Db, now: int)
    requires DbOk(db)
    ensures DbOk(RecoverDb(db, now))
  {
    var after := RecoverDb(db, now);
    forall j | 0 <= j < |after.jobs| ensures JobOk(after, j) {
      assert JobOk(db, j);
      if Affected(db.items, j, now) {
        SizeSame(db.items, after.items, j);
        RefreshOk(after, db.jobs[j], j, now);
      } else {
        SameCounts(db.items, after.items, j);
      }
    }
  }

  lemma SweepJobKeeps(db: Db, now: int, j: nat)
    requires DbOk(db) && j < |db.jobs|
    ensures JobOk(SweepDb(db, now), j)
  {
    var after := SweepDb(db, now);
    assert JobOk(db, j);
    if db.jobs[j].status == Cancelling {
      SizeSame(db.items, after.items, j);
      RefreshOk(after, db.jobs[j], j, now);
    } else {
      SameCounts(db.items, after.items, j);
    }
  }

  lemma SweepKeeps(db: Db, now: int)
    requires DbOk(db)
    ensures DbOk(SweepDb(db, now))
  {
    var after := SweepDb(db, now);
    forall j | 0 <= j < |after.jobs| ensures JobOk(after, j) { SweepJobKeeps(db, now, j); }
    forall i | 0 <= i < |after.items|
      ensures ItemOk(after.items[i])
      ensures after.items[i].status == ItemStatus.Cancelled ==> after.jobs[after.items[i].job].cancelAt.Some?
    {
      assert ItemOk(db.items[i]) && JobOk(db, db.items[i].job);
    }
  }

  lemma CancelKeeps(db: Db, now: int, j: nat)
    requires DbOk(db) && j < |db.jobs|
    ensures DbOk(CancelDb(db, now, j))
  {
    var after := CancelDb(db, now, j);
    forall k | 0 <= k < |after.jobs| ensures JobOk(after, k) { assert JobOk(db, k); }
  }

  lemma PauseKeeps(db: Db, j: nat)
    requires DbOk(db) && j < |db.jobs|
    ensures PauseDb(db, j).Ok? ==> DbOk(PauseDb(db, j).value)
  {
    if PauseDb(db, j).Ok? {
      var after := PauseDb(db, j).value;
      forall k | 0 <= k < |after.jobs| ensures JobOk(after, k) { assert JobOk(db, k); }
    }
  }

  lemma FinalizeKeeps(db: Db, fetched: set<nat>)
    requires DbOk(db)
    ensures DbOk(FinalizeDb(db, fetched))
  {
    var after := FinalizeDb(db, fetched);
    forall k | 0 <= k < |after.jobs| ensures JobOk(after, k) { assert JobOk(db, k); }
  }

  lemma ResumeKeeps(db: Db, j: nat)
    requires DbOk(db) && j < |db.jobs|
    ensures ResumeDb(db, j).Ok? ==> DbOk(ResumeDb(db, j).value)
  {
    if ResumeDb(db, j).Ok? {
      var after := ResumeDb(db, j).value;
      forall k | 0 <= k < |after.jobs| ensures JobOk(after, k) { assert JobOk(db, k); }
    }
  }

  lemma CreateCounts(db: Db, now: int, priority: int, size: nat, k: nat)
    requires Linked(db)
    ensures var items := CreateDb(db, now, priority, size).items;
            && Size(items, k) == Size(db.items, k) + (if k == |db.jobs| then size else 0)
            && forall s | !Unfinished(s) :: Count(items, k, s) == Count(db.items, k, s)
  {
    var added := seq(size, _ => FreshItem(|db.jobs|, now));
    SizeConcat(db.items, added, k);
    SizeUniform(added, k, k == |db.jobs|);
    forall s | !Unfinished(s) ensures Count(db.items + added, k, s) == Count(db.items, k, s) {
      CountConcat(db.items, added, k, s);
      CountPositive(added, k, s);
    }
  }

  lemma OthersOk(db: Db, now: int, priority: int, size: nat, k: nat)
    requires DbOk(db) && k < |db.jobs|
    ensures JobOk(CreateDb(db, now, priority, size), k)
  {
    var after := CreateDb(db, now, priority, size);
    CreateCounts(db, now, priority, size, k);
    assert JobOk(db, k);
    assert forall i | 0 <= i < |db.items| :: after.items[i] == db.items[i];
    if HasUnfinished(db.items, k) {
      var i :| 0 <= i < |db.items| && db.items[i].job == k && Unfinished(db.items[i].status);
      assert after.items[i] == db.items[i];
    }
  }

  lemma CreatedOk(db: Db, now: int, priority: int, size: nat)
    requires DbOk(db)
    ensures JobOk(CreateDb(db, now, priority, size), |db.jobs|)
  {
    var k := |db.jobs|;
    var after := CreateDb(db, now, priority, size);
    CreateCounts(db, now, priority, size, k);
    SizeUniform(db.items, k, false);
    CountPositive(db.items, k, Succeeded);
    CountPositive(db.items, k, ItemStatus.Failed);
    CountPositive(db.items, k, Skipped);
    if size > 0 { assert after.items[|db.items|] == FreshItem(k, now); }
  }

  lemma CreateKeeps(db: Db, now: int, priority: int, size: nat)
    requires DbOk(db)
    ensures DbOk(CreateDb(db, now, priority, size))
  {
    CreatedOk(db, now, priority, size);
    forall k | 0 <= k < |db.jobs| ensures JobOk(CreateDb(db, now, priority, size), k) {
      OthersOk(db, now, priority, size, k);
    }
  }
}

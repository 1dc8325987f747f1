/**
 Whole runs of the queue: any interleaving of the transactions of any number of workers, the sweeps,
 the control calls and the clock. A worker keeps the last lease it was given and may present it as
 often as it likes, however late; a refused call rolls back and changes nothing. Leasing takes any
 eligible row, since rows other transactions have locked are skipped.
 */
module JobRuns {
  import opened Options
  import opened JobModel
  import opened JobInvariant

  datatype World = World(db: Db, held: map<nat, Lease>, now: int)

  datatype Step =
    | Create(priority: int, size: nat)
    | Take(worker: nat, item: nat, seconds: nat)
    | Finish(worker: nat, status: ItemStatus)
    | Retry(worker: nat, asked: Option<nat>)
    | Forget(worker: nat)
    | Recover
    | Sweep
    | Cancel(job: nat)
    | Pause(job: nat)
    | Finalize(fetched: set<nat>)
    | Resume(job: nat)
    | Tick(seconds: nat)

  /** The configured id of each worker process. */
  type Naming = nat -> string

  ghost predicate Distinct(name: Naming) {
    forall p, q :: name(p) == name(q) ==> p == q
  }

  predicate Granted(w: World, step: Step) {
    step.Take? && Linked(w.db) && step.item < |w.db.items| && Claimable(w.db, w.now, step.item)
  }

  /** The lease worker `p` holds is one the queue would act on now. */
  predicate Accepted(w: World, p: nat) {
    p in w.held && Accepts(w.db, w.held[p]) && w.held[p].job < |w.db.jobs|
  }

  function Next(name: Naming, w: World, step: Step): World {
    match step
    case Create(priority, size) => w.(db := CreateDb(w.db, w.now, priority, size))
    case Take(p, i, seconds) =>
      if Granted(w, step) then
        w.(db := LeaseDb(w.db, w.now, i, name(p), seconds), held := w.held[p := LeaseOf(w.db, i, name(p))])
      else w
    case Finish(p, status) =>
      if Accepted(w, p) && status in {Succeeded, ItemStatus.Failed, Skipped}
      then w.(db := FinishDb(w.db, w.now, w.held[p], status)) else w
    case Retry(p, asked) =>
      if Accepted(w, p) then w.(db := RetryDb(w.db, w.now, w.held[p], asked)) else w
    case Forget(p) => w.(held := w.held - {p})
    case Recover => w.(db := RecoverDb(w.db, w.now))
    case Sweep => if Linked(w.db) then w.(db := SweepDb(w.db, w.now)) else w
    case Cancel(j) => if j < |w.db.jobs| then w.(db := CancelDb(w.db, w.now, j)) else w
    case Pause(j) =>
      if j < |w.db.jobs| && PauseDb(w.db, j).Ok? then w.(db := PauseDb(w.db, j).value) else w
    case Finalize(fetched) => w.(db := FinalizeDb(w.db, fetched))
    case Resume(j) =>
      if j < |w.db.jobs| && ResumeDb(w.db, j).Ok? then w.(db := ResumeDb(w.db, j).value) else w
    case Tick(seconds) => w.(now := w.now + seconds)
  }

  function Run(name: Naming, w: World, steps: seq<Step>): World
    decreases steps
  {
    if steps == [] then w else Run(name, Next(name, w, steps[0]), steps[1..])
  }

  function Start(now: int): World {
    World(Db([], []), map[], now)
  }

  ghost predicate WorldOk(name: Naming, w: World) {
    && DbOk(w.db)
    && forall p | p in w.held :: LeaseOk(w.db, w.held[p]) && w.held[p].owner == name(p)
  }

  // ---- how one item evolves ------------------------------------------------------------------

  /** The only things a transaction ever does to an item it changes. */
  ghost predicate Moves(a: Item, b: Item) {
    && b.job == a.job && b.maxAttempts == a.maxAttempts
    && (|| (Waiting(a.status) && b.status == ItemStatus.Running && b.attempts == a.attempts + 1)
        || (Waiting(a.status) && b.status == ItemStatus.Cancelled && b.attempts == a.attempts)
        || (a.status == ItemStatus.Running && b.status in {Succeeded, ItemStatus.Failed, Skipped}
            && b.attempts == a.attempts)
        || (a.status == ItemStatus.Running && Waiting(b.status) && b.attempts == a.attempts))
  }

  /** An item keeps its owner, loses it, or is handed to the worker the step grants it to. */
  ghost predicate OwnerMoves(name: Naming, w: World, step: Step, i: nat, a: Item, b: Item) {
    || b.owner == a.owner
    || b.owner.None?
    || (Granted(w, step) && step.item == i && b.owner == Some(name(step.worker)))
  }

  ghost predicate Evolves(name: Naming, w: World, step: Step, after: World) {
    var a, b := w.db.items, after.db.items;
    && |a| <= |b|
    && |w.db.jobs| <= |after.db.jobs|
    && (forall i | 0 <= i < |a| :: a[i] == b[i] || Moves(a[i], b[i]))
    && (forall i | 0 <= i < |a| :: OwnerMoves(name, w, step, i, a[i], b[i]))
    && (forall i | |a| <= i < |b| :: b[i].job == |w.db.jobs|)
  }

  /** Leases change hands only by being granted or dropped. */
  ghost predicate LeasesMove(name: Naming, w: World, step: Step, after: World) {
    forall p | p in after.held ::
      if Granted(w, step) && step.worker == p
      then step.item < |w.db.items| && after.held[p] == LeaseOf(w.db, step.item, name(p))
      else p in w.held && after.held[p] == w.held[p]
  }

  lemma ItemsMove(name: Naming, w: World, step: Step)
    requires WorldOk(name, w)
    ensures var a, b := w.db.items, Next(name, w, step).db.items;
            && |a| <= |b|
            && (forall i | 0 <= i < |a| :: a[i] == b[i] || Moves(a[i], b[i]))
            && (forall i | |a| <= i < |b| :: b[i].job == |w.db.jobs|)
  {
  }

  lemma OwnersMove(name: Naming, w: World, step: Step)
    requires WorldOk(name, w)
    ensures var a, b := w.db.items, Next(name, w, step).db.items;
            && |w.db.jobs| <= |Next(name, w, step).db.jobs|
            && |a| <= |b|
            && (forall i | 0 <= i < |a| :: OwnerMoves(name, w, step, i, a[i], b[i]))
  {
  }

  lemma ItemsEvolve(name: Naming, w: World, step: Step)
    requires WorldOk(name, w)
    ensures Evolves(name, w, step, Next(name, w, step))
  {
    ItemsMove(name, w, step);
    OwnersMove(name, w, step);
  }

  lemma LeaseSurvives(name: Naming, w: World, step: Step, after: World, p: nat)
    requires WorldOk(name, w)
    requires Evolves(name, w, step, after) && DbOk(after.db)
    requires p in w.held && !(Granted(w, step) && step.worker == p)
    ensures LeaseOk(after.db, w.held[p])
  {
    var i := w.held[p].item;
    assert LeaseOk(w.db, w.held[p]);
    assert w.db.items[i] == after.db.items[i] || Moves(w.db.items[i], after.db.items[i]);
  }

  /** With distinct ids no step hands a row back to a worker it does not grant it to. */
  lemma FenceHolds(name: Naming, w: World, step: Step, after: World, p: nat)
    requires Distinct(name) && WorldOk(name, w)
    requires Evolves(name, w, step, after) && DbOk(after.db)
    requires p in w.held && !(Granted(w, step) && step.worker == p)
    ensures !Accepts(w.db, w.held[p]) ==> !Accepts(after.db, w.held[p])
    ensures Current(w.db, w.held[p]) ==> Current(after.db, w.held[p])
  {
    var i := w.held[p].item;
    assert LeaseOk(w.db, w.held[p]);
    assert OwnerMoves(name, w, step, i, w.db.items[i], after.db.items[i]);
    assert w.db.items[i] == after.db.items[i] || Moves(w.db.items[i], after.db.items[i]);
  }

  // ---- the invariant holds in every reachable state ------------------------------------------

  lemma StepKeeps(name: Naming, w: World, step: Step)
    requires WorldOk(name, w)
    ensures WorldOk(name, Next(name, w, step))
  {
    StepKeepsRows(name, w, step);
    StepKeepsLeases(name, w, step);
  }

  lemma StepKeepsLeases(name: Naming, w: World, step: Step)
    requires WorldOk(name, w)
    ensures var after := Next(name, w, step);
            forall p | p in after.held :: LeaseOk(after.db, after.held[p]) && after.held[p].owner == name(p)
  {
    ItemsEvolve(name, w, step);
    StepKeepsRows(name, w, step);
    StepMovesLeases(name, w, step);
    LeasesSurvive(name, w, step, Next(name, w, step));
  }

  lemma StepMovesLeases(name: Naming, w: World, step: Step)
    requires WorldOk(name, w)
    ensures LeasesMove(name, w, step, Next(name, w, step))
    ensures Granted(w, step) ==> var after := Next(name, w, step);
                                 LeaseOk(after.db, LeaseOf(w.db, step.item, name(step.worker)))
  {
    if Granted(w, step) { LeaseKeeps(w.db, w.now, step.item, name(step.worker), step.seconds); }
  }

  lemma LeasesSurvive(name: Naming, w: World, step: Step, after: World)
    requires WorldOk(name, w)
    requires Evolves(name, w, step, after) && DbOk(after.db) && LeasesMove(name, w, step, after)
    requires Granted(w, step) ==> LeaseOk(after.db, LeaseOf(w.db, step.item, name(step.worker)))
    ensures forall p | p in after.held :: LeaseOk(after.db, after.held[p]) && after.held[p].owner == name(p)
  {
    forall p | p in after.held && !(Granted(w, step) && p == step.worker) ensures LeaseOk(after.db, w.held[p]) {
      LeaseSurvives(name, w, step, after, p);
    }
  }

  lemma StepKeepsRows(name: Naming, w: World, step: Step)
    requires WorldOk(name, w)
    ensures DbOk(Next(name, w, step).db)
  {
    match step
    case Create(priority, size) => CreateKeeps(w.db, w.now, priority, size);
    case Take(p, i, seconds) => if Granted(w, step) { LeaseKeeps(w.db, w.now, i, name(p), seconds); }
    case Finish(p, status) =>
      if Accepted(w, p) && status in {Succeeded, ItemStatus.Failed, Skipped} {
        FinishKeeps(w.db, w.now, w.held[p], status);
      }
    case Retry(p, asked) => if Accepted(w, p) { RetryKeeps(w.db, w.now, w.held[p], asked); }
    case Forget(p) =>
    case Recover => RecoverKeeps(w.db, w.now);
    case Sweep => SweepKeeps(w.db, w.now);
    case Cancel(j) => if j < |w.db.jobs| { CancelKeeps(w.db, w.now, j); }
    case Pause(j) => if j < |w.db.jobs| { PauseKeeps(w.db, j); }
    case Finalize(fetched) => FinalizeKeeps(w.db, fetched);
    case Resume(j) => if j < |w.db.jobs| { ResumeKeeps(w.db, j); }
    case Tick(seconds) =>
  }

  lemma {:induction false} RunKeeps(name: Naming, w: World, steps: seq<Step>)
    requires WorldOk(name, w)
    ensures WorldOk(name, Run(name, w, steps))
    decreases steps
  {
    if steps != [] {
      StepKeeps(name, w, steps[0]);
      RunKeeps(name, Next(name, w, steps[0]), steps[1..]);
    }
  }

  lemma LeaseStaysHeld(name: Naming, w: World, step: Step, p: nat)
    requires p in w.held && !((step.Take? || step.Forget?) && step.worker == p)
    ensures var after := Next(name, w, step);
            p in after.held && after.held[p] == w.held[p] && w.now <= after.now
  {
  }

  lemma {:induction false} LeasesStayHeld(name: Naming, w: World, steps: seq<Step>, p: nat)
    requires p in w.held
    requires forall k | 0 <= k < |steps| :: !((steps[k].Take? || steps[k].Forget?) && steps[k].worker == p)
    ensures var end := Run(name, w, steps);
            p in end.held && end.held[p] == w.held[p] && w.now <= end.now
    decreases steps
  {
    if steps != [] {
      LeaseStaysHeld(name, w, steps[0], p);
      LeasesStayHeld(name, Next(name, w, steps[0]), steps[1..], p);
    }
  }

  /** Whatever the others do, and even under the same id, a worker's lease still names its row, job and attempt. */
  lemma HeldLeaseSurvives(name: Naming, w: World, steps: seq<Step>, p: nat)
    requires WorldOk(name, w) && p in w.held
    requires forall k | 0 <= k < |steps| :: !((steps[k].Take? || steps[k].Forget?) && steps[k].worker == p)
    ensures DbOk(Run(name, w, steps).db) && LeaseOk(Run(name, w, steps).db, w.held[p])
    ensures w.now <= Run(name, w, steps).now
  {
    RunKeeps(name, w, steps);
    LeasesStayHeld(name, w, steps, p);
  }

  /** Every state any run reaches from an empty queue is in order, whatever the workers are called. */
  lemma EveryReachableStateIsOk(name: Naming, now: int, steps: seq<Step>)
    ensures WorldOk(name, Run(name, Start(now), steps))
  {
    RunKeeps(name, Start(now), steps);
  }

  // ---- attempts and the fence, with distinct ids ---------------------------------------------

  /** What only distinct worker ids guarantee: attempts within their maximum, and no accepted stale lease. */
  ghost predicate FenceOk(w: World) {
    WithinBudget(w.db) && forall p | p in w.held :: Current(w.db, w.held[p])
  }

  lemma StepKeepsBudget(name: Naming, w: World, step: Step)
    requires WorldOk(name, w) && FenceOk(w)
    ensures WithinBudget(Next(name, w, step).db)
  {
    if step.Retry? && Accepted(w, step.worker) {
      assert LeaseOk(w.db, w.held[step.worker]) && Current(w.db, w.held[step.worker]);
    }
  }

  lemma StepKeepsFence(name: Naming, w: World, step: Step)
    requires Distinct(name) && WorldOk(name, w) && FenceOk(w)
    ensures FenceOk(Next(name, w, step))
  {
    var after := Next(name, w, step);
    StepKeepsBudget(name, w, step);
    StepKeepsRows(name, w, step);
    ItemsEvolve(name, w, step);
    StepMovesLeases(name, w, step);
    forall p | p in after.held ensures Current(after.db, after.held[p]) {
      if !(Granted(w, step) && step.worker == p) { FenceHolds(name, w, step, after, p); }
    }
  }

  lemma {:induction false} RunKeepsFence(name: Naming, w: World, steps: seq<Step>)
    requires Distinct(name) && WorldOk(name, w) && FenceOk(w)
    ensures WorldOk(name, Run(name, w, steps)) && FenceOk(Run(name, w, steps))
    decreases steps
  {
    if steps != [] {
      StepKeeps(name, w, steps[0]);
      StepKeepsFence(name, w, steps[0]);
      RunKeepsFence(name, Next(name, w, steps[0]), steps[1..]);
    }
  }

  /** With distinct ids every reachable state also keeps attempts within bounds and accepts only latest leases. */
  lemma EveryReachableStateIsFenced(name: Naming, now: int, steps: seq<Step>)
    requires Distinct(name)
    ensures FenceOk(Run(name, Start(now), steps))
  {
    RunKeepsFence(name, Start(now), steps);
  }

  // ---- outcomes ------------------------------------------------------------------------------

  /** No step changes an item that has an outcome. */
  lemma {:induction false} OutcomeIsFinal(name: Naming, w: World, steps: seq<Step>, i: nat)
    requires WorldOk(name, w)
    requires i < |w.db.items| && !Unfinished(w.db.items[i].status)
    ensures i < |Run(name, w, steps).db.items| && Run(name, w, steps).db.items[i] == w.db.items[i]
    decreases steps
  {
    if steps != [] {
      StepKeeps(name, w, steps[0]);
      ItemsEvolve(name, w, steps[0]);
      OutcomeIsFinal(name, Next(name, w, steps[0]), steps[1..], i);
    }
  }

  lemma JobOutcomeSurvives(name: Naming, w: World, step: Step, j: nat)
    requires WorldOk(name, w)
    requires j < |w.db.jobs| && Terminal(w.db.jobs[j].status)
    ensures j < |Next(name, w, step).db.jobs| && Next(name, w, step).db.jobs[j] == w.db.jobs[j]
  {
    assert JobOk(w.db, j);
    if step.Finish? || step.Retry? {
      if Accepted(w, step.worker) {
        var lease := w.held[step.worker];
        assert Unfinished(w.db.items[lease.item].status);
      }
    }
  }

  /** A job that has ended stays exactly as it ended: status, counters and times. */
  lemma {:induction false} JobOutcomeIsFinal(name: Naming, w: World, steps: seq<Step>, j: nat)
    requires WorldOk(name, w)
    requires j < |w.db.jobs| && Terminal(w.db.jobs[j].status)
    ensures j < |Run(name, w, steps).db.jobs| && Run(name, w, steps).db.jobs[j] == w.db.jobs[j]
    decreases steps
  {
    if steps != [] {
      StepKeeps(name, w, steps[0]);
      JobOutcomeSurvives(name, w, steps[0], j);
      JobOutcomeIsFinal(name, Next(name, w, steps[0]), steps[1..], j);
    }
  }

  // ---- how a job ends ------------------------------------------------------------------------

  /** Some step of the run recorded `status` for item `i` under an accepted lease. */
  ghost predicate FinishedAs(name: Naming, w: World, steps: seq<Step>, i: nat, status: ItemStatus) {
    exists k :: 0 <= k < |steps| && RecordsAt(name, w, steps, k, i, status)
  }

  predicate RecordsAt(name: Naming, w: World, steps: seq<Step>, k: nat, i: nat, status: ItemStatus)
    requires k < |steps|
  {
    && steps[k].Finish? && steps[k].status == status && status in {Succeeded, ItemStatus.Failed, Skipped}
    && Accepted(Run(name, w, steps[..k]), steps[k].worker)
    && Run(name, w, steps[..k]).held[steps[k].worker].item == i
  }

  lemma StepRecords(name: Naming, w: World, s: Step, status: ItemStatus)
    requires WorldOk(name, w) && s.Finish? && s.status == status && status in {Succeeded, ItemStatus.Failed, Skipped}
    requires Accepted(w, s.worker)
    ensures var i, items := w.held[s.worker].item, Next(name, w, s).db.items;
            i < |items| && items[i].status == status
  {
  }

  /** What was recorded for an item is its status ever after. */
  lemma RecordedStays(name: Naming, w: World, steps: seq<Step>, i: nat, status: ItemStatus)
    requires WorldOk(name, w) && FinishedAs(name, w, steps, i, status)
    ensures i < |Run(name, w, steps).db.items| && Run(name, w, steps).db.items[i].status == status
  {
    var k :| 0 <= k < |steps| && RecordsAt(name, w, steps, k, i, status);
    var before := Run(name, w, steps[..k]);
    RunKeeps(name, w, steps[..k]);
    RunSplits(name, w, steps, k);
    StepRecords(name, before, steps[k], status);
    RecordLasts(name, before, steps[k], steps[k + 1..], i, status);
  }

  /** A run up to a step, the step, and the rest of the run. */
  lemma RunSplits(name: Naming, w: World, steps: seq<Step>, k: nat)
    requires k < |steps|
    ensures Run(name, w, steps) == Run(name, Next(name, Run(name, w, steps[..k]), steps[k]), steps[k + 1..])
  {
    assert steps == steps[..k] + steps[k..];
    RunJoins(name, w, steps[..k], steps[k..]);
    assert steps[k..][1..] == steps[k + 1..];
  }

  lemma RecordLasts(name: Naming, w: World, s: Step, rest: seq<Step>, i: nat, status: ItemStatus)
    requires WorldOk(name, w) && !Unfinished(status)
    requires i < |Next(name, w, s).db.items| && Next(name, w, s).db.items[i].status == status
    ensures i < |Run(name, Next(name, w, s), rest).db.items|
    ensures Run(name, Next(name, w, s), rest).db.items[i].status == status
  {
    StepKeeps(name, w, s);
    OutcomeIsFinal(name, Next(name, w, s), rest, i);
  }

  /** A job all of whose items were recorded as succeeded ends completed, or cancelled if that was asked for. */
  lemma AllSucceededCompletes(name: Naming, now: int, steps: seq<Step>, j: nat)
    requires j < |Run(name, Start(now), steps).db.jobs|
    requires forall i | 0 <= i < |Run(name, Start(now), steps).db.items|
                        && Run(name, Start(now), steps).db.items[i].job == j ::
               FinishedAs(name, Start(now), steps, i, Succeeded)
    ensures var job := Run(name, Start(now), steps).db.jobs[j];
            && job.status == (if job.cancelAt.Some? then JobStatus.Cancelled else Completed)
            && job.succeeded == job.total && job.failed == 0 && job.skipped == 0
  {
    var end := Run(name, Start(now), steps).db;
    EveryReachableStateIsOk(name, now, steps);
    assert JobOk(end, j);
    forall i | 0 <= i < |end.items| && end.items[i].job == j ensures end.items[i].status == Succeeded {
      RecordedStays(name, Start(now), steps, i, Succeeded);
    }
    CountPositive(end.items, j, ItemStatus.Failed);
    CountPositive(end.items, j, Skipped);
    CountPositive(end.items, j, ItemStatus.Cancelled);
    UnfinishedCounted(end.items, j);
    CountsAddUp(end.items, j);
  }

  // ---- work runs out -------------------------------------------------------------------------

  function Work(item: Item): nat {
    if !Unfinished(item.status) || item.attempts > item.maxAttempts then 0
    else 2 * (item.maxAttempts - item.attempts) + if item.status == ItemStatus.Running then 1 else 0
  }

  /** Sums a measure over the items of job `j`. */
  function Total(items: seq<Item>, j: nat, f: Item -> nat): nat {
    if items == [] then 0
    else (if items[0].job == j then f(items[0]) else 0) + Total(items[1..], j, f)
  }

  lemma {:induction false} TotalCompare(a: seq<Item>, b: seq<Item>, j: nat, f: Item -> nat)
    requires |a| <= |b|
    requires forall i | 0 <= i < |a| :: a[i].job == b[i].job && f(b[i]) <= f(a[i])
    requires forall i | |a| <= i < |b| :: b[i].job != j
    ensures Total(b, j, f) <= Total(a, j, f)
    ensures (exists i :: 0 <= i < |a| && a[i].job == j && f(b[i]) < f(a[i])) ==> Total(b, j, f) < Total(a, j, f)
  {
    if a == [] {
      if b != [] { TotalCompare(a, b[1..], j, f); }
    } else {
      TotalCompare(a[1..], b[1..], j, f);
      if i :| 0 <= i < |a| && a[i].job == j && f(b[i]) < f(a[i]) {
        if i > 0 { assert f(b[1..][i - 1]) < f(a[1..][i - 1]); }
      }
    }
  }

  predicate Touched(a: seq<Item>, b: seq<Item>, j: nat) {
    exists i :: 0 <= i < |a| && i < |b| && a[i].job == j && a[i] != b[i]
  }

  lemma WorkFalls(a: seq<Item>, b: seq<Item>)
    requires |a| <= |b|
    requires forall i | 0 <= i < |a| :: BudgetOk(a[i]) && BudgetOk(b[i]) && (a[i] == b[i] || Moves(a[i], b[i]))
    ensures forall i | 0 <= i < |a| :: a[i].job == b[i].job && Work(b[i]) <= Work(a[i])
    ensures forall i | 0 <= i < |a| && a[i] != b[i] :: Work(b[i]) < Work(a[i])
  {
  }

  lemma StepCostsWork(name: Naming, w: World, step: Step, j: nat)
    requires WorldOk(name, w) && FenceOk(w) && j < |w.db.jobs|
    ensures var a, b := w.db.items, Next(name, w, step).db.items;
            Total(b, j, Work) + (if Touched(a, b, j) then 1 else 0) <= Total(a, j, Work)
  {
    var a, b := w.db.items, Next(name, w, step).db.items;
    ItemsEvolve(name, w, step);
    StepKeepsBudget(name, w, step);
    WorkFalls(a, b);
    TotalCompare(a, b, j, Work);
  }

  /** The number of steps of a run that change some item of job `j`. */
  function Activity(name: Naming, w: World, steps: seq<Step>, j: nat): nat
    decreases steps
  {
    if steps == [] then 0
    else
      var then_ := Next(name, w, steps[0]);
      (if Touched(w.db.items, then_.db.items, j) then 1 else 0) + Activity(name, then_, steps[1..], j)
  }

  /** A job cannot run forever: every lease, finish, retry, recovery and sweep of its items uses up work. */
  lemma {:induction false} WorkBoundsActivity(name: Naming, w: World, steps: seq<Step>, j: nat)
    requires Distinct(name) && WorldOk(name, w) && FenceOk(w) && j < |w.db.jobs|
    ensures Activity(name, w, steps, j) + Total(Run(name, w, steps).db.items, j, Work)
            <= Total(w.db.items, j, Work)
    decreases steps
  {
    if steps != [] {
      StepKeeps(name, w, steps[0]);
      StepKeepsFence(name, w, steps[0]);
      StepCostsWork(name, w, steps[0], j);
      ItemsEvolve(name, w, steps[0]);
      WorkBoundsActivity(name, Next(name, w, steps[0]), steps[1..], j);
    }
  }

  // ---- leases granted ------------------------------------------------------------------------

  /** The number of leases a run grants on items of job `j`. */
  function Grants(name: Naming, w: World, steps: seq<Step>, j: nat): nat
    decreases steps
  {
    if steps == [] then 0
    else
      (if Granted(w, steps[0]) && w.db.items[steps[0].item].job == j then 1 else 0)
      + Grants(name, Next(name, w, steps[0]), steps[1..], j)
  }

  lemma {:induction false} TotalUpdate(items: seq<Item>, i: nat, x: Item, j: nat, f: Item -> nat)
    requires i < |items| && x.job == items[i].job
    ensures Total(items[i := x], j, f)
            == if x.job == j then Total(items, j, f) + f(x) - f(items[i]) else Total(items, j, f)
  {
    if i == 0 {
      assert items[i := x][1..] == items[1..];
    } else {
      TotalUpdate(items[1..], i - 1, x, j, f);
      assert items[i := x][1..] == items[1..][i - 1 := x];
    }
  }

  lemma {:induction false} TotalSame(a: seq<Item>, b: seq<Item>, j: nat, f: Item -> nat)
    requires |a| <= |b|
    requires forall i | 0 <= i < |a| :: a[i].job == b[i].job && f(b[i]) == f(a[i])
    requires forall i | |a| <= i < |b| :: b[i].job != j
    ensures Total(b, j, f) == Total(a, j, f)
  {
    if b != [] { TotalSame(if a == [] then [] else a[1..], b[1..], j, f); }
  }

  const ATTEMPTS_OF: Item -> nat := (item: Item) => item.attempts
  const MAX_OF: Item -> nat := (item: Item) => item.maxAttempts

  lemma AttemptsStay(name: Naming, w: World, step: Step)
    requires WorldOk(name, w) && !Granted(w, step)
    ensures var a, b := w.db.items, Next(name, w, step).db.items;
            |a| <= |b| && forall i | 0 <= i < |a| :: a[i].attempts == b[i].attempts
  {
  }

  lemma StepCountsGrants(name: Naming, w: World, step: Step, j: nat)
    requires WorldOk(name, w) && j < |w.db.jobs|
    ensures Total(Next(name, w, step).db.items, j, ATTEMPTS_OF)
            == Total(w.db.items, j, ATTEMPTS_OF)
               + if Granted(w, step) && w.db.items[step.item].job == j then 1 else 0
  {
    if Granted(w, step) {
      var b := Next(name, w, step).db.items;
      TotalUpdate(w.db.items, step.item, b[step.item], j, ATTEMPTS_OF);
    } else {
      AttemptsStay(name, w, step);
      ItemsEvolve(name, w, step);
      TotalSame(w.db.items, Next(name, w, step).db.items, j, ATTEMPTS_OF);
    }
  }

  /** The attempt counters record exactly the leases granted. */
  lemma {:induction false} GrantsAreAttempts(name: Naming, w: World, steps: seq<Step>, j: nat)
    requires WorldOk(name, w) && j < |w.db.jobs|
    ensures Total(Run(name, w, steps).db.items, j, ATTEMPTS_OF)
            == Total(w.db.items, j, ATTEMPTS_OF) + Grants(name, w, steps, j)
    decreases steps
  {
    if steps != [] {
      StepKeeps(name, w, steps[0]);
      StepCountsGrants(name, w, steps[0], j);
      ItemsEvolve(name, w, steps[0]);
      GrantsAreAttempts(name, Next(name, w, steps[0]), steps[1..], j);
    }
  }

  lemma {:induction false} TotalBelow(items: seq<Item>, j: nat)
    requires forall i | 0 <= i < |items| :: items[i].attempts <= items[i].maxAttempts
    ensures Total(items, j, ATTEMPTS_OF) <= Total(items, j, MAX_OF)
  {
    if items != [] { TotalBelow(items[1..], j); }
  }

  lemma {:induction false} MaxIsFixed(name: Naming, w: World, steps: seq<Step>, j: nat)
    requires WorldOk(name, w) && j < |w.db.jobs|
    ensures Total(Run(name, w, steps).db.items, j, MAX_OF) == Total(w.db.items, j, MAX_OF)
    decreases steps
  {
    if steps != [] {
      StepKeeps(name, w, steps[0]);
      ItemsEvolve(name, w, steps[0]);
      TotalSame(w.db.items, Next(name, w, steps[0]).db.items, j, MAX_OF);
      MaxIsFixed(name, Next(name, w, steps[0]), steps[1..], j);
    }
  }

  /** In any run a job is leased at most as often as its items' maxima allow, less what was used before. */
  lemma LeaseBudget(name: Naming, w: World, steps: seq<Step>, j: nat)
    requires Distinct(name) && WorldOk(name, w) && FenceOk(w) && j < |w.db.jobs|
    ensures Total(w.db.items, j, ATTEMPTS_OF) + Grants(name, w, steps, j) <= Total(w.db.items, j, MAX_OF)
  {
    GrantsAreAttempts(name, w, steps, j);
    RunKeepsFence(name, w, steps);
    MaxIsFixed(name, w, steps, j);
    TotalBelow(Run(name, w, steps).db.items, j);
  }

  // ---- the fence -----------------------------------------------------------------------------

  /** At any point of any run at most one worker can act on an item. */
  lemma OneHolder(name: Naming, now: int, steps: seq<Step>, p: nat, q: nat)
    requires Distinct(name)
    requires var w := Run(name, Start(now), steps);
             Accepted(w, p) && Accepted(w, q) && w.held[p].item == w.held[q].item
    ensures p == q
  {
    EveryReachableStateIsOk(name, now, steps);
  }

  lemma StaleStaysStale(name: Naming, w: World, step: Step, p: nat)
    requires Distinct(name) && WorldOk(name, w)
    requires !Accepted(w, p) && !(step.Take? && step.worker == p)
    ensures !Accepted(Next(name, w, step), p)
  {
    ItemsEvolve(name, w, step);
    StepKeepsRows(name, w, step);
    StepMovesLeases(name, w, step);
    if p in w.held { FenceHolds(name, w, step, Next(name, w, step), p); }
  }

  /** A lease that has lost its row never gets it back: until it leases again the worker can change nothing. */
  lemma {:induction false} StaleLeaseIsDead(name: Naming, w: World, steps: seq<Step>, p: nat)
    requires Distinct(name) && WorldOk(name, w)
    requires !Accepted(w, p)
    requires forall k | 0 <= k < |steps| :: !(steps[k].Take? && steps[k].worker == p)
    ensures !Accepted(Run(name, w, steps), p)
    ensures forall status :: Next(name, Run(name, w, steps), Finish(p, status)) == Run(name, w, steps)
    ensures forall asked :: Next(name, Run(name, w, steps), Retry(p, asked)) == Run(name, w, steps)
    decreases steps
  {
    if steps != [] {
      StepKeeps(name, w, steps[0]);
      StaleStaysStale(name, w, steps[0], p);
      StaleLeaseIsDead(name, Next(name, w, steps[0]), steps[1..], p);
    }
  }

  /** Recovery fences the worker whose lease ran out, for good. */
  lemma RecoveredWorkerIsFenced(name: Naming, w: World, steps: seq<Step>, p: nat)
    requires Distinct(name) && WorldOk(name, w)
    requires p in w.held && Expired(w.db.items[w.held[p].item], w.now)
    requires forall k | 0 <= k < |steps| :: !(steps[k].Take? && steps[k].worker == p)
    ensures var end := Run(name, Next(name, w, Recover), steps);
            && (forall status :: Next(name, end, Finish(p, status)) == end)
            && (forall asked :: Next(name, end, Retry(p, asked)) == end)
  {
    StepKeeps(name, w, Recover);
    assert Next(name, w, Recover).held == w.held;
    StaleLeaseIsDead(name, Next(name, w, Recover), steps, p);
  }

  // ---- cancel and pause ----------------------------------------------------------------------

  predicate Active(job: Job) {
    job.status in {Queued, JobStatus.Running}
  }

  ghost predicate StaysInactive(before: Job, after: Job) {
    !Active(after) && (before.cancelAt.Some? ==> after.cancelAt.Some?)
  }

  lemma InactiveStays(name: Naming, w: World, step: Step, j: nat)
    requires WorldOk(name, w)
    requires j < |w.db.jobs| && !Active(w.db.jobs[j])
    requires step != Resume(j) || w.db.jobs[j].cancelAt.Some?
    ensures j < |Next(name, w, step).db.jobs|
    ensures StaysInactive(w.db.jobs[j], Next(name, w, step).db.jobs[j])
  {
    assert JobOk(w.db, j);
    if step.Recover? || step.Sweep? {
      SweepsEndJobs(w.db, w.now, j);
    } else if step.Finish? || step.Retry? {
      EndsKeepInactive(name, w, step, j);
    }
  }

  lemma EndsKeepInactive(name: Naming, w: World, step: Step, j: nat)
    requires step.Finish? || step.Retry?
    requires j < |w.db.jobs| && !Active(w.db.jobs[j])
    ensures j < |Next(name, w, step).db.jobs|
    ensures StaysInactive(w.db.jobs[j], Next(name, w, step).db.jobs[j])
  {
  }

  /** The sweeps change the status of a job only by ending it. */
  lemma SweepsEndJobs(db: Db, now: int, j: nat)
    requires Linked(db) && j < |db.jobs|
    ensures var job := RecoverDb(db, now).jobs[j];
            job.cancelAt == db.jobs[j].cancelAt && (job.status == db.jobs[j].status || Terminal(job.status))
    ensures var job := SweepDb(db, now).jobs[j];
            job.cancelAt == db.jobs[j].cancelAt && (job.status == db.jobs[j].status || Terminal(job.status))
  {
    RefreshStatus(db.jobs[j], j, RecoverDb(db, now).items, now);
    RefreshStatus(db.jobs[j], j, SweepDb(db, now).items, now);
  }

  lemma RefreshStatus(job: Job, j: nat, items: seq<Item>, now: int)
    ensures var after := Refresh(job, j, items, now);
            after.cancelAt == job.cancelAt && (after.status == job.status || Terminal(after.status))
  {
  }

  /** After a cancel request nothing of the job starts again, whatever follows. */
  lemma {:induction false} CancelIsFinal(name: Naming, w: World, steps: seq<Step>, j: nat)
    requires WorldOk(name, w)
    requires j < |w.db.jobs| && w.db.jobs[j].cancelAt.Some?
    ensures Grants(name, w, steps, j) == 0
    ensures j < |Run(name, w, steps).db.jobs|
    ensures Run(name, w, steps).db.jobs[j].status in {Cancelling, JobStatus.Cancelled}
    decreases steps
  {
    assert JobOk(w.db, j);
    if steps != [] {
      StepKeeps(name, w, steps[0]);
      InactiveStays(name, w, steps[0], j);
      CancelIsFinal(name, Next(name, w, steps[0]), steps[1..], j);
    }
  }

  /** Between a pause request and the resume nothing of the job starts. */
  lemma PauseHolds(name: Naming, w: World, steps: seq<Step>, j: nat)
    requires WorldOk(name, w)
    requires j < |w.db.jobs| && w.db.jobs[j].status in {Pausing, Paused}
    requires Resume(j) !in steps
    ensures Grants(name, w, steps, j) == 0
  {
    NothingStarts(name, w, steps, j);
  }

  lemma {:induction false} NothingStarts(name: Naming, w: World, steps: seq<Step>, j: nat)
    requires WorldOk(name, w)
    requires j < |w.db.jobs| && !Active(w.db.jobs[j])
    requires Resume(j) !in steps
    ensures Grants(name, w, steps, j) == 0
    decreases steps
  {
    if steps != [] {
      StepKeeps(name, w, steps[0]);
      InactiveStays(name, w, steps[0], j);
      NothingStarts(name, Next(name, w, steps[0]), steps[1..], j);
    }
  }

  /** Once the running items of a cancelling job have ended, one sweep ends every item and the job. */
  lemma SweepFinishesCancel(db: Db, now: int, j: nat)
    requires DbOk(db) && j < |db.jobs| && db.jobs[j].status == Cancelling && Idle(db.items, j)
    ensures SweepDb(db, now).jobs[j].status == JobStatus.Cancelled
    ensures forall i | 0 <= i < |db.items| && db.items[i].job == j ::
              !Unfinished(SweepDb(db, now).items[i].status)
  {
    var after := SweepDb(db, now);
    assert JobOk(db, j);
    assert forall i | 0 <= i < |db.items| && db.items[i].job == j :: !Unfinished(after.items[i].status);
    UnfinishedCounted(after.items, j);
  }

  /** The queue half of a worker's pass: recovery, then the cancel sweep, then the pause sweep. */
  function Housekeep(db: Db, now: int, fetched: set<nat>): Db
    requires Linked(db)
  {
    FinalizeDb(SweepDb(RecoverDb(db, now), now), fetched)
  }

  ghost predicate FlightsExpired(db: Db, now: int, j: nat) {
    forall i | 0 <= i < |db.items| && db.items[i].job == j && InFlight(db.items[i].status) ::
      Expired(db.items[i], now)
  }

  lemma RecoveryGrounds(db: Db, now: int, j: nat)
    requires DbOk(db) && j < |db.jobs| && FlightsExpired(db, now, j)
    ensures DbOk(RecoverDb(db, now)) && Idle(RecoverDb(db, now).items, j)
    ensures var job := RecoverDb(db, now).jobs[j];
            job.status == db.jobs[j].status || (Terminal(job.status) && job.failed > 0)
    ensures RecoverDb(db, now).jobs[j].cancelAt == db.jobs[j].cancelAt
  {
    var after := RecoverDb(db, now);
    RecoverKeeps(db, now);
    assert JobOk(after, j);
    if Affected(db.items, j, now) {
      UnfinishedCounted(after.items, j);
      if !HasUnfinished(after.items, j) {
        var i :| 0 <= i < |db.items| && db.items[i].job == j && Expired(db.items[i], now);
        assert Hit(after.items[i], j, ItemStatus.Failed);
        CountPositive(after.items, j, ItemStatus.Failed);
      }
    }
  }

  /** Every retry of the job may start. */
  ghost predicate RetriesDue(db: Db, now: int, j: nat) {
    forall i | 0 <= i < |db.items| && db.items[i].job == j ::
      db.items[i].runAfter.None? || db.items[i].runAfter.value <= now
  }

  /**
   An active job is never stuck: once whatever was in flight has expired and the retries are due, the
   recovery of the next pass leaves it ended or leaves an item the pass may lease.
   */
  lemma NeverStuck(db: Db, now: int, j: nat)
    requires DbOk(db) && j < |db.jobs| && Active(db.jobs[j])
    requires FlightsExpired(db, now, j) && RetriesDue(db, now, j)
    ensures var after := RecoverDb(db, now);
            || Terminal(after.jobs[j].status)
            || exists i :: 0 <= i < |after.items| && after.items[i].job == j && Claimable(after, now, i)
  {
    var after := RecoverDb(db, now);
    RecoveryGrounds(db, now, j);
    assert JobOk(db, j) && JobOk(after, j);
    if !Terminal(after.jobs[j].status) {
      var i :| 0 <= i < |after.items| && after.items[i].job == j && Unfinished(after.items[i].status);
      assert ItemOk(after.items[i]) && Claimable(after, now, i);
    }
  }

  /** If whatever was in flight has expired, one worker pass ends a cancelled job. */
  lemma OnePassCancels(db: Db, now: int, fetched: set<nat>, j: nat)
    requires DbOk(db) && j < |db.jobs| && FlightsExpired(db, now, j)
    requires db.jobs[j].status == Cancelling
    ensures Housekeep(db, now, fetched).jobs[j].status == JobStatus.Cancelled
  {
    RecoveryGrounds(db, now, j);
    var recovered := RecoverDb(db, now);
    assert JobOk(db, j) && JobOk(recovered, j);
    if recovered.jobs[j].status == Cancelling { SweepFinishesCancel(recovered, now, j); }
  }

  /** Likewise one pass settles a pausing job: it is paused, unless its last attempts have just failed. */
  lemma OnePassPauses(db: Db, now: int, fetched: set<nat>, j: nat)
    requires DbOk(db) && j < |db.jobs| && FlightsExpired(db, now, j)
    requires db.jobs[j].status == Pausing && j in fetched
    ensures Housekeep(db, now, fetched).jobs[j].status in {Paused, JobStatus.Failed, Partial}
  {
    RecoveryGrounds(db, now, j);
    var recovered := RecoverDb(db, now);
    assert JobOk(db, j) && JobOk(recovered, j);
    if recovered.jobs[j].status == Pausing {
      var swept := SweepDb(recovered, now);
      assert swept.jobs[j] == recovered.jobs[j];
      assert forall i | 0 <= i < |swept.items| && swept.items[i].job == j :: swept.items[i] == recovered.items[i];
      assert Idle(swept.items, j);
    }
  }

  // ---- shared worker ids ---------------------------------------------------------------------

  predicate AttemptsBounded(db: Db) {
    forall i | 0 <= i < |db.items| :: db.items[i].attempts <= db.items[i].maxAttempts
  }

  /** Two processes under one id: each keeps a stale lease that the fence mistakes for the other's. */
  function SharedIdTrace(p: nat, q: nat): seq<Step> {
    BothHold(p, q) + [Retry(p, None), Tick(300), Take(p, 0, 60), Retry(q, None), Tick(300), Take(p, 0, 60)]
  }

  function BothHold(p: nat, q: nat): seq<Step> {
    [Create(0, 1), Take(p, 0, 60), Tick(61), Recover, Take(q, 0, 60)]
  }

  /** A queue of one active job with one item. */
  ghost predicate Lone(w: World, status: ItemStatus, attempts: nat, owner: Option<string>) {
    && |w.db.jobs| == |w.db.items| == 1
    && Active(w.db.jobs[0]) && w.db.jobs[0].cancelAt.None?
    && var item := w.db.items[0];
    && item.job == 0 && item.maxAttempts == DEFAULT_MAX_ATTEMPTS
    && item.status == status && item.attempts == attempts && item.owner == owner
    && (Waiting(status) ==> item.expires.None?)
  }

  lemma LoneTake(name: Naming, w: World, status: ItemStatus, attempts: nat, p: nat) returns (next: World)
    requires Lone(w, status, attempts, None) && Waiting(status)
    requires w.db.items[0].runAfter.Some? ==> w.db.items[0].runAfter.value <= w.now
    ensures next == Next(name, w, Take(p, 0, 60))
    ensures Lone(next, ItemStatus.Running, attempts + 1, Some(name(p)))
    ensures next.held == w.held[p := Lease(0, 0, attempts + 1, DEFAULT_MAX_ATTEMPTS, name(p))]
    ensures next.db.items[0].expires == Some(w.now + 60) && next.now == w.now
    ensures next.db.items[0].runAfter == w.db.items[0].runAfter
  {
    next := Next(name, w, Take(p, 0, 60));
  }

  lemma LoneRetry(name: Naming, w: World, attempts: nat, p: nat) returns (next: World)
    requires p in w.held && w.held[p].item == w.held[p].job == 0
    requires w.held[p].attempts < w.held[p].maxAttempts
    requires Lone(w, ItemStatus.Running, attempts, Some(w.held[p].owner))
    ensures next == Next(name, Next(name, w, Retry(p, None)), Tick(300))
    ensures Lone(next, RetryWait, attempts, None) && next.held == w.held
    ensures next.db.items[0].runAfter.Some? && next.db.items[0].runAfter.value <= next.now
  {
    next := Next(name, Next(name, w, Retry(p, None)), Tick(300));
  }

  lemma LoneExpire(name: Naming, w: World, attempts: nat, owner: string) returns (next: World)
    requires Lone(w, ItemStatus.Running, attempts, Some(owner)) && attempts < DEFAULT_MAX_ATTEMPTS
    requires w.db.items[0].expires == Some(w.now + 60) && w.db.items[0].runAfter.None?
    ensures next == Next(name, Next(name, w, Tick(61)), Recover)
    ensures Lone(next, Pending, attempts, None) && next.held == w.held
    ensures next.db.items[0].runAfter.None?
  {
    next := Next(name, Next(name, w, Tick(61)), Recover);
    UnfinishedCounted(next.db.items, 0);
    assert next.db.items[0].status == Pending;
    assert HasUnfinished(next.db.items, 0);
  }

  lemma BothCanHold(name: Naming, p: nat, q: nat) returns (w: World)
    requires p != q && name(p) == name(q)
    ensures w == Run(name, Start(0), BothHold(p, q))
    ensures Lone(w, ItemStatus.Running, 2, Some(name(p)))
    ensures w.db.items[0].runAfter.None?
    ensures p in w.held && w.held[p] == Lease(0, 0, 1, DEFAULT_MAX_ATTEMPTS, name(p))
    ensures q in w.held && w.held[q] == Lease(0, 0, 2, DEFAULT_MAX_ATTEMPTS, name(q))
  {
    var w1 := Next(name, Start(0), Create(0, 1));
    assert w1.db.items == [FreshItem(0, 0)];
    var w2 := LoneTake(name, w1, Pending, 0, p);
    var w4 := LoneExpire(name, w2, 1, name(p));
    w := LoneTake(name, w4, Pending, 1, q);
    RunUnfolds(name, Start(0), BothHold(p, q), [w1, w2, Next(name, w2, Tick(61)), w4, w]);
  }

  lemma SharedIdBreaksTheBound(name: Naming, p: nat, q: nat)
    requires p != q && name(p) == name(q)
    ensures !AttemptsBounded(Run(name, Start(0), SharedIdTrace(p, q)).db)
  {
    var w5 := BothCanHold(name, p, q);
    RunJoins(name, Start(0), BothHold(p, q), SharedIdTrace(p, q)[5..]);
    var w7 := LoneRetry(name, w5, 2, p);
    var w8 := LoneTake(name, w7, RetryWait, 2, p);
    var w10 := LoneRetry(name, w8, 3, q);
    var w11 := LoneTake(name, w10, RetryWait, 3, p);
    RunUnfolds(name, w5, SharedIdTrace(p, q)[5..],
      [Next(name, w5, Retry(p, None)), w7, w8, Next(name, w8, Retry(q, None)), w10, w11]);
  }

  lemma {:induction false} RunJoins(name: Naming, w: World, first: seq<Step>, then_: seq<Step>)
    ensures Run(name, w, first + then_) == Run(name, Run(name, w, first), then_)
    decreases first
  {
    if first == [] {
      assert first + then_ == then_;
    } else {
      assert (first + then_)[1..] == first[1..] + then_;
      RunJoins(name, Next(name, w, first[0]), first[1..], then_);
    }
  }

  lemma {:induction false} RunUnfolds(name: Naming, w: World, steps: seq<Step>, states: seq<World>)
    requires |states| == |steps| > 0 && states[0] == Next(name, w, steps[0])
    requires forall k | 0 < k < |steps| :: states[k] == Next(name, states[k - 1], steps[k])
    ensures Run(name, w, steps) == states[|states| - 1]
    decreases steps
  {
    if |steps| > 1 { RunUnfolds(name, states[0], steps[1..], states[1..]); }
  }

  /** Attempts stay within the maximum in every run if and only if no two workers share an id. */
  lemma BoundedIffDistinctIds(name: Naming)
    ensures Distinct(name) <==>
            forall now, steps :: AttemptsBounded(Run(name, Start(now), steps).db)
  {
    if Distinct(name) {
      forall now, steps ensures AttemptsBounded(Run(name, Start(now), steps).db) {
        EveryReachableStateIsFenced(name, now, steps);
      }
    } else {
      var p, q :| name(p) == name(q) && p != q;
      SharedIdBreaksTheBound(name, p, q);
    }
  }
}

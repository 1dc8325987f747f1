/**
 Schedules that create background jobs: each due slot is turned into one job under an idempotency key
 made of the schedule and the slot, and the schedule moves on to a slot after the moment it ran.
 */
module Schedules {
  import opened Options
  import opened SetSizes

  /** Next slot of an expression (with its time zone) after a moment. Only its strictness is assumed. */
  type Calendar = (nat, int) -> int

  ghost predicate StrictlyLater(cal: Calendar) {
    forall cron, t :: t < cal(cron, t)
  }

  datatype Schedule = Schedule(cron: nat, enabled: bool, next: int, lastRun: Option<int>, lastJob: Option<nat>)

  datatype Firing = Firing(id: nat, slot: int, at: int, job: nat)

  /** The schedule rows, the jobs by idempotency key, every schedule id ever used, and the firings so far. */
  datatype State = State(rows: map<nat, Schedule>, jobs: map<(nat, int), nat>, used: set<nat>, firings: seq<Firing>)

  // ---- running what is due -------------------------------------------------------------------

  predicate Due(row: Schedule, now: int) {
    row.enabled && row.next <= now
  }

  function DueIds(rows: map<nat, Schedule>, now: int): set<nat> {
    set id | id in rows && Due(rows[id], now)
  }

  predicate Before(rows: map<nat, Schedule>, a: nat, b: nat) {
    a in rows && b in rows && (rows[a].next < rows[b].next || (rows[a].next == rows[b].next && a < b))
  }

  /** The query: the first `limit` due schedules by slot and then id. */
  predicate IsBatch(rows: map<nat, Schedule>, now: int, limit: nat, batch: seq<nat>) {
    && |batch| <= limit
    && (forall id :: id in batch ==> id in DueIds(rows, now))
    && (forall i, j :: 0 <= i < j < |batch| ==> Before(rows, batch[i], batch[j]))
    && (forall id :: id in DueIds(rows, now) && id !in batch ==>
          |batch| == limit && forall i :: 0 <= i < |batch| ==> Before(rows, batch[i], id))
  }

  /**
   The same in columns: enabled rows whose slot has come, by slot and then by id, and a row is left out
   only when the batch is full of earlier ones.
   */
  ghost predicate EarliestDue(rows: map<nat, Schedule>, now: int, limit: nat, batch: seq<nat>) {
    && |batch| <= limit
    && (forall id | id in batch :: id in rows && rows[id].enabled && rows[id].next <= now)
    && (forall i, j | 0 <= i < j < |batch| ::
          && rows[batch[i]].next <= rows[batch[j]].next
          && (rows[batch[i]].next == rows[batch[j]].next ==> batch[i] < batch[j]))
    && (forall id | id in rows && rows[id].enabled && rows[id].next <= now && id !in batch ::
          && |batch| == limit
          && forall other | other in batch ::
               rows[other].next <= rows[id].next && (rows[other].next == rows[id].next ==> other < id))
  }

  lemma BatchMeans(rows: map<nat, Schedule>, now: int, limit: nat, batch: seq<nat>)
    requires IsBatch(rows, now, limit, batch)
    ensures EarliestDue(rows, now, limit, batch)
  {
    forall id, other | id in rows && rows[id].enabled && rows[id].next <= now && id !in batch && other in batch
      ensures rows[other].next <= rows[id].next && (rows[other].next == rows[id].next ==> other < id)
    {
      assert id in DueIds(rows, now);
      var i :| 0 <= i < |batch| && batch[i] == other;
      assert Before(rows, batch[i], id);
    }
    forall id | id in batch ensures id in rows && rows[id].enabled && rows[id].next <= now {
      assert id in DueIds(rows, now);
    }
    forall i, j | 0 <= i < j < |batch| ensures Before(rows, batch[i], batch[j]) {
    }
    forall id | id in rows && rows[id].enabled && rows[id].next <= now && id !in batch ensures |batch| == limit {
      assert id in DueIds(rows, now);
    }
  }

  /** Creating a job under a key that is taken returns the job that has it. */
  function JobFor(jobs: map<(nat, int), nat>, key: (nat, int)): nat {
    if key in jobs then jobs[key] else |jobs|
  }

  function FireOne(st: State, id: nat, now: int, cal: Calendar): State
    requires id in st.rows
  {
    var row := st.rows[id];
    var job := JobFor(st.jobs, (id, row.next));
    st.(rows := st.rows[id := Schedule(row.cron, row.enabled, cal(row.cron, now), Some(now), Some(job))],
        jobs := st.jobs[(id, row.next) := job],
        firings := st.firings + [Firing(id, row.next, now, job)])
  }

  function FireAll(st: State, batch: seq<nat>, now: int, cal: Calendar): (after: State)
    requires forall id :: id in batch ==> id in st.rows
    ensures after.rows.Keys == st.rows.Keys
  {
    if batch == [] then st
    else FireOne(FireAll(st, batch[..|batch| - 1], now, cal), batch[|batch| - 1], now, cal)
  }

  // ---- writing -------------------------------------------------------------------------------

  function Created(st: State, id: nat, cron: nat, enabled: bool, readAt: int, cal: Calendar): State {
    st.(rows := st.rows[id := Schedule(cron, enabled, cal(cron, readAt), None, None)], used := st.used + {id})
  }

  /** An edit computes the next slot from the clock it read, whatever has run since. */
  function Edited(st: State, id: nat, cron: nat, enabled: bool, readAt: int, cal: Calendar): State
    requires id in st.rows
  {
    st.(rows := st.rows[id := st.rows[id].(cron := cron, enabled := enabled, next := cal(cron, readAt))])
  }

  function Deleted(st: State, id: nat): State {
    st.(rows := st.rows - {id})
  }

  // ---- runs ----------------------------------------------------------------------------------

  datatype World = World(clock: int, st: State)

  datatype Step =
    | Tick(now: int)
    | Create(id: nat, cron: nat, enabled: bool, readAt: int)
    | Edit(id: nat, cron: nat, enabled: bool, readAt: int)
    | Delete(id: nat)
    | RunDue(batch: seq<nat>, limit: nat, readAt: int)

  /**
   A call may read the clock some time before its transaction takes effect. A pass takes any of the due
   schedules up to its limit, since rows another pass has locked are skipped.
   */
  predicate Next(w: World, s: Step, w': World, cal: Calendar) {
    match s
    case Tick(now) => w.clock <= now && w' == World(now, w.st)
    case Create(id, cron, enabled, readAt) =>
      readAt <= w.clock && id !in w.st.used && w' == w.(st := Created(w.st, id, cron, enabled, readAt, cal))
    case Edit(id, cron, enabled, readAt) =>
      readAt <= w.clock && id in w.st.rows && w' == w.(st := Edited(w.st, id, cron, enabled, readAt, cal))
    case Delete(id) => id in w.st.rows && w' == w.(st := Deleted(w.st, id))
    case RunDue(batch, limit, readAt) =>
      && readAt <= w.clock && Distinct(batch) && |batch| <= limit
      && (forall id :: id in batch ==> id in DueIds(w.st.rows, readAt))
      && w' == w.(st := FireAll(w.st, batch, readAt, cal))
  }

  const NOTHING: State := State(map[], map[], {}, [])

  ghost predicate Run(ws: seq<World>, steps: seq<Step>, cal: Calendar) {
    && |ws| == |steps| + 1
    && ws[0].st == NOTHING
    && StrictlyLater(cal)
    && forall i :: 0 <= i < |steps| ==> Next(ws[i], steps[i], ws[i + 1], cal)
  }

  /** An edit that read the clock no earlier than any slot the schedule has a job for. */
  predicate Timely(st: State, s: Step) {
    s.Edit? ==> forall k :: k in st.jobs && k.0 == s.id ==> k.1 <= s.readAt
  }

  ghost predicate TimelyRun(ws: seq<World>, steps: seq<Step>, cal: Calendar) {
    Run(ws, steps, cal) && forall i :: 0 <= i < |steps| ==> Timely(ws[i].st, steps[i])
  }

  /** An edit that read the clock no earlier than the schedule's last run. */
  predicate Fresh(st: State, s: Step) {
    s.Edit? && s.id in st.rows && st.rows[s.id].lastRun.Some? ==> st.rows[s.id].lastRun.value <= s.readAt
  }

  ghost predicate FreshRun(ws: seq<World>, steps: seq<Step>, cal: Calendar) {
    Run(ws, steps, cal) && forall i :: 0 <= i < |steps| ==> Fresh(ws[i].st, steps[i])
  }

  // ---- one job per slot, always --------------------------------------------------------------

  predicate FiringOk(st: State, f: Firing) {
    && f.id in st.used && f.slot <= f.at
    && (f.id, f.slot) in st.jobs && st.jobs[(f.id, f.slot)] == f.job
    && (f.id in st.rows ==> st.rows[f.id].lastRun.Some?)
  }

  ghost predicate Keyed(st: State) {
    && st.rows.Keys <= st.used
    && (forall i :: 0 <= i < |st.firings| ==> FiringOk(st, st.firings[i]))
    && (forall k :: k in st.jobs ==> st.jobs[k] < |st.jobs|)
    && (forall k, l :: k in st.jobs && l in st.jobs && st.jobs[k] == st.jobs[l] ==> k == l)
  }

  lemma FireKeepsKeyed(st: State, id: nat, now: int, cal: Calendar)
    requires Keyed(st) && id in st.rows && st.rows[id].next <= now
    ensures Keyed(FireOne(st, id, now, cal))
  {
    var after := FireOne(st, id, now, cal);
    forall i | 0 <= i < |after.firings| ensures FiringOk(after, after.firings[i]) {
      if i < |st.firings| { assert FiringOk(st, st.firings[i]); }
    }
  }

  /** Firing a batch leaves the rows outside it alone. */
  lemma {:induction false} OutsideBatch(st: State, batch: seq<nat>, now: int, cal: Calendar)
    requires forall id :: id in batch ==> id in st.rows
    ensures forall id :: id in st.rows && id !in batch ==> FireAll(st, batch, now, cal).rows[id] == st.rows[id]
  {
    if batch != [] {
      OutsideBatch(st, batch[..|batch| - 1], now, cal);
    }
  }

  predicate Distinct(batch: seq<nat>) {
    forall i, j :: 0 <= i < j < |batch| ==> batch[i] != batch[j]
  }

  lemma {:induction false} BatchKeepsKeyed(st: State, batch: seq<nat>, now: int, cal: Calendar)
    requires Keyed(st) && Distinct(batch)
    requires forall id :: id in batch ==> id in st.rows && st.rows[id].next <= now
    ensures Keyed(FireAll(st, batch, now, cal))
  {
    if batch != [] {
      var front, last := batch[..|batch| - 1], batch[|batch| - 1];
      BatchKeepsKeyed(st, front, now, cal);
      OutsideBatch(st, front, now, cal);
      assert last !in front;
      FireKeepsKeyed(FireAll(st, front, now, cal), last, now, cal);
    }
  }

  lemma StepKeepsKeyed(w: World, s: Step, w': World, cal: Calendar)
    requires Keyed(w.st) && Next(w, s, w', cal)
    ensures Keyed(w'.st)
  {
    if s.RunDue? {
      BatchKeepsKeyed(w.st, s.batch, s.readAt, cal);
    } else {
      forall i | 0 <= i < |w'.st.firings| ensures FiringOk(w'.st, w'.st.firings[i]) {
        assert FiringOk(w.st, w.st.firings[i]);
      }
    }
  }

  lemma {:induction false} RunKeepsKeyed(ws: seq<World>, steps: seq<Step>, cal: Calendar, n: nat)
    requires Run(ws, steps, cal) && n < |ws|
    ensures Keyed(ws[n].st)
  {
    if n > 0 {
      RunKeepsKeyed(ws, steps, cal, n - 1);
      StepKeepsKeyed(ws[n - 1], steps[n - 1], ws[n], cal);
    }
  }

  /** Whatever is edited, deleted or delayed: two firings share a job exactly when they fired the same slot. */
  lemma OneJobPerSlot(ws: seq<World>, steps: seq<Step>, cal: Calendar, n: nat, i: nat, j: nat)
    requires Run(ws, steps, cal) && n < |ws|
    requires i < |ws[n].st.firings| && j < |ws[n].st.firings|
    ensures var f, g := ws[n].st.firings[i], ws[n].st.firings[j];
            f.job == g.job <==> f.id == g.id && f.slot == g.slot
  {
    RunKeepsKeyed(ws, steps, cal, n);
    assert FiringOk(ws[n].st, ws[n].st.firings[i]);
    assert FiringOk(ws[n].st, ws[n].st.firings[j]);
  }

  // ---- slots rise ----------------------------------------------------------------------------

  /** Every schedule is ahead of the slots it has turned into jobs, and its firings went up. */
  ghost predicate Rising(st: State) {
    && st.rows.Keys <= st.used
    && (forall k :: k in st.jobs ==> k.0 in st.used && (k.0 in st.rows ==> k.1 < st.rows[k.0].next))
    && (forall i :: 0 <= i < |st.firings| ==> (st.firings[i].id, st.firings[i].slot) in st.jobs)
    && (forall i, j :: 0 <= i < j < |st.firings| && st.firings[i].id == st.firings[j].id ==>
          st.firings[i].slot < st.firings[j].slot)
  }

  lemma FireKeepsRising(st: State, id: nat, now: int, cal: Calendar)
    requires StrictlyLater(cal) && Rising(st) && id in st.rows && st.rows[id].next <= now
    ensures Rising(FireOne(st, id, now, cal))
  {
  }

  lemma {:induction false} BatchKeepsRising(st: State, batch: seq<nat>, now: int, cal: Calendar)
    requires StrictlyLater(cal) && Rising(st) && Distinct(batch)
    requires forall id :: id in batch ==> id in st.rows && st.rows[id].next <= now
    ensures Rising(FireAll(st, batch, now, cal))
  {
    if batch != [] {
      var front, last := batch[..|batch| - 1], batch[|batch| - 1];
      BatchKeepsRising(st, front, now, cal);
      OutsideBatch(st, front, now, cal);
      assert last !in front;
      FireKeepsRising(FireAll(st, front, now, cal), last, now, cal);
    }
  }

  lemma StepKeepsRising(w: World, s: Step, w': World, cal: Calendar)
    requires StrictlyLater(cal) && Rising(w.st) && Next(w, s, w', cal) && Timely(w.st, s)
    ensures Rising(w'.st)
  {
    if s.RunDue? { BatchKeepsRising(w.st, s.batch, s.readAt, cal); }
  }

  lemma {:induction false} RunKeepsRising(ws: seq<World>, steps: seq<Step>, cal: Calendar, n: nat)
    requires TimelyRun(ws, steps, cal) && n < |ws|
    ensures Rising(ws[n].st)
  {
    if n > 0 {
      RunKeepsRising(ws, steps, cal, n - 1);
      StepKeepsRising(ws[n - 1], steps[n - 1], ws[n], cal);
    }
  }

  /** If edits are timely, the slots a schedule fires strictly increase and every firing made a job of its own. */
  lemma SlotsRise(ws: seq<World>, steps: seq<Step>, cal: Calendar, n: nat, i: nat, j: nat)
    requires TimelyRun(ws, steps, cal) && n < |ws|
    requires i < j < |ws[n].st.firings|
    ensures var f, g := ws[n].st.firings[i], ws[n].st.firings[j];
            f.job != g.job && (f.id == g.id ==> f.slot < g.slot)
  {
    RunKeepsRising(ws, steps, cal, n);
    OneJobPerSlot(ws, steps, cal, n, i, j);
  }

  /**
   An edit keeps the slots rising, whatever the expression, if and only if it is timely; and it can make
   a slot that has its job come due again if and only if it is not and leaves the schedule enabled.
   */
  lemma EditKeepsRisingIff(st: State, id: nat, cron: nat, enabled: bool, readAt: int)
    requires Rising(st) && id in st.rows
    ensures (forall cal: Calendar | StrictlyLater(cal) :: Rising(Edited(st, id, cron, enabled, readAt, cal)))
            <==> Timely(st, Edit(id, cron, enabled, readAt))
    ensures (exists cal: Calendar :: StrictlyLater(cal) && ComesAgain(Edited(st, id, cron, enabled, readAt, cal), id))
            <==> enabled && !Timely(st, Edit(id, cron, enabled, readAt))
  {
    var s := Edit(id, cron, enabled, readAt);
    if Timely(st, s) {
      forall cal: Calendar | StrictlyLater(cal)
        ensures Rising(Edited(st, id, cron, enabled, readAt, cal))
        ensures !ComesAgain(Edited(st, id, cron, enabled, readAt, cal), id)
      {
        var w := World(readAt, st);
        StepKeepsRising(w, s, w.(st := Edited(st, id, cron, enabled, readAt, cal)), cal);
      }
    } else {
      var k :| k in st.jobs && k.0 == id && readAt < k.1;
      var cal: Calendar := (c, t) => if t == readAt then k.1 else t + 1;
      assert StrictlyLater(cal);
      var after := Edited(st, id, cron, enabled, readAt, cal);
      assert !Rising(after) && (enabled ==> ComesAgain(after, id));
    }
  }

  /** The schedule is enabled, and its next slot is one it has a job for already. */
  predicate ComesAgain(st: State, id: nat) {
    id in st.rows && st.rows[id].enabled && (id, st.rows[id].next) in st.jobs
  }

  /**
   An edit that read the clock before the slot, and took effect after it fired, makes the same slot due
   once more; its key then yields the job it made the first time.
   */
  lemma LateEditRepeatsTheSlot(st: State, id: nat, now: int, later: int, readAt: int, cal: Calendar)
    requires StrictlyLater(cal) && id in st.rows && Due(st.rows[id], now) && now <= later
    requires cal(st.rows[id].cron, readAt) == st.rows[id].next
    ensures var row := st.rows[id];
            var once := FireOne(st, id, now, cal);
            var edited := Edited(once, id, row.cron, true, readAt, cal);
            var twice := FireOne(edited, id, later, cal);
            var n := |st.firings|;
            && Due(edited.rows[id], later) && !Timely(once, Edit(id, row.cron, true, readAt))
            && |twice.firings| == n + 2
            && twice.firings[n].slot == twice.firings[n + 1].slot == row.next
            && twice.firings[n].job == twice.firings[n + 1].job
            && twice.jobs == once.jobs
  {
    var once := FireOne(st, id, now, cal);
    var edited := Edited(once, id, st.rows[id].cron, true, readAt, cal);
    assert edited.rows[id].next == st.rows[id].next;
    assert once.firings[|st.firings|].slot == st.rows[id].next;
  }

  // ---- slots missed before a run are skipped -------------------------------------------------

  predicate Passed(st: State, f: Firing) {
    && f.slot <= f.at
    && f.id in st.used
    && (f.id in st.rows ==>
          && f.at < st.rows[f.id].next
          && st.rows[f.id].lastRun.Some? && f.at <= st.rows[f.id].lastRun.value)
  }

  ghost predicate CaughtUp(st: State) {
    && st.rows.Keys <= st.used
    && (forall i :: 0 <= i < |st.firings| ==> Passed(st, st.firings[i]))
    && (forall i, j :: 0 <= i < j < |st.firings| && st.firings[i].id == st.firings[j].id ==>
          st.firings[i].at < st.firings[j].slot)
    && (forall id :: id in st.rows && st.rows[id].lastRun.Some? ==>
          exists i :: 0 <= i < |st.firings| && st.firings[i].id == id && st.firings[i].at == st.rows[id].lastRun.value)
  }

  lemma FireKeepsCaughtUp(st: State, id: nat, now: int, cal: Calendar)
    requires StrictlyLater(cal) && CaughtUp(st) && id in st.rows && st.rows[id].next <= now
    ensures CaughtUp(FireOne(st, id, now, cal))
  {
    var after := FireOne(st, id, now, cal);
    var n := |st.firings|;
    forall i | 0 <= i <= n ensures Passed(after, after.firings[i]) {
      if i < n { assert Passed(st, st.firings[i]); }
    }
    forall i, j | 0 <= i < j <= n && after.firings[i].id == after.firings[j].id
      ensures after.firings[i].at < after.firings[j].slot
    {
      assert Passed(st, st.firings[i]);
    }
    forall r | r in after.rows && after.rows[r].lastRun.Some?
      ensures exists i :: 0 <= i <= n && after.firings[i].id == r && after.firings[i].at == after.rows[r].lastRun.value
    {
      if r == id {
        assert after.firings[n].id == id;
      } else {
        var i :| 0 <= i < n && st.firings[i].id == r && st.firings[i].at == st.rows[r].lastRun.value;
        assert after.firings[i] == st.firings[i];
      }
    }
  }

  lemma {:induction false} BatchKeepsCaughtUp(st: State, batch: seq<nat>, now: int, cal: Calendar)
    requires StrictlyLater(cal) && CaughtUp(st) && Distinct(batch)
    requires forall id :: id in batch ==> id in st.rows && st.rows[id].next <= now
    ensures CaughtUp(FireAll(st, batch, now, cal))
  {
    if batch != [] {
      var front, last := batch[..|batch| - 1], batch[|batch| - 1];
      BatchKeepsCaughtUp(st, front, now, cal);
      OutsideBatch(st, front, now, cal);
      assert last !in front;
      FireKeepsCaughtUp(FireAll(st, front, now, cal), last, now, cal);
    }
  }

  lemma StepKeepsCaughtUp(w: World, s: Step, w': World, cal: Calendar)
    requires StrictlyLater(cal) && CaughtUp(w.st) && Next(w, s, w', cal) && Fresh(w.st, s)
    ensures CaughtUp(w'.st)
  {
    if s.RunDue? {
      BatchKeepsCaughtUp(w.st, s.batch, s.readAt, cal);
    } else {
      var st, st' := w.st, w'.st;
      forall i | 0 <= i < |st'.firings| ensures Passed(st', st'.firings[i]) {
        assert Passed(st, st.firings[i]);
      }
      forall r | r in st'.rows && st'.rows[r].lastRun.Some?
        ensures exists i :: 0 <= i < |st'.firings| && st'.firings[i].id == r
                            && st'.firings[i].at == st'.rows[r].lastRun.value
      {
        assert r in st.rows && st.rows[r].lastRun == st'.rows[r].lastRun;
      }
    }
  }

  lemma {:induction false} RunKeepsCaughtUp(ws: seq<World>, steps: seq<Step>, cal: Calendar, n: nat)
    requires FreshRun(ws, steps, cal) && n < |ws|
    ensures CaughtUp(ws[n].st)
  {
    if n > 0 {
      RunKeepsCaughtUp(ws, steps, cal, n - 1);
      StepKeepsCaughtUp(ws[n - 1], steps[n - 1], ws[n], cal);
    }
  }

  /**
   If edits are fresh, each slot a schedule fires is later than the moment of the firing before it, so the
   slots missed in between are passed over.
   */
  lemma MissedSlotsAreSkipped(ws: seq<World>, steps: seq<Step>, cal: Calendar, n: nat, i: nat, j: nat)
    requires FreshRun(ws, steps, cal) && n < |ws|
    requires i < j < |ws[n].st.firings|
    ensures var f, g := ws[n].st.firings[i], ws[n].st.firings[j];
            f.id == g.id ==> f.slot <= f.at < g.slot
  {
    RunKeepsCaughtUp(ws, steps, cal, n);
    assert Passed(ws[n].st, ws[n].st.firings[i]);
  }

  /** An edit keeps the schedule past its last run, whatever its expression, if and only if it is fresh. */
  lemma EditKeepsCaughtUpIff(st: State, id: nat, cron: nat, enabled: bool, readAt: int)
    requires CaughtUp(st) && id in st.rows
    ensures (forall cal: Calendar | StrictlyLater(cal) :: CaughtUp(Edited(st, id, cron, enabled, readAt, cal)))
            <==> Fresh(st, Edit(id, cron, enabled, readAt))
  {
    var s := Edit(id, cron, enabled, readAt);
    if Fresh(st, s) {
      var w := World(readAt, st);
      forall cal: Calendar | StrictlyLater(cal) ensures CaughtUp(Edited(st, id, cron, enabled, readAt, cal)) {
        StepKeepsCaughtUp(w, s, w.(st := Edited(st, id, cron, enabled, readAt, cal)), cal);
      }
    } else {
      var cal: Calendar := (c, t) => t + 1;
      assert StrictlyLater(cal);
      var after := Edited(st, id, cron, enabled, readAt, cal);
      var i :| 0 <= i < |st.firings| && st.firings[i].id == id && st.firings[i].at == st.rows[id].lastRun.value;
      assert !Passed(after, after.firings[i]);
    }
  }

  // ---- edits that take effect at once --------------------------------------------------------

  ghost predicate Behind(w: World) {
    && (forall k :: k in w.st.jobs ==> k.1 <= w.clock)
    && (forall id :: id in w.st.rows && w.st.rows[id].lastRun.Some? ==> w.st.rows[id].lastRun.value <= w.clock)
  }

  lemma {:induction false} BatchStaysBehind(st: State, batch: seq<nat>, now: int, cal: Calendar, clock: int)
    requires Behind(World(clock, st)) && Distinct(batch) && now <= clock
    requires forall id :: id in batch ==> id in st.rows && st.rows[id].next <= now
    ensures Behind(World(clock, FireAll(st, batch, now, cal)))
  {
    if batch != [] {
      var front, last := batch[..|batch| - 1], batch[|batch| - 1];
      BatchStaysBehind(st, front, now, cal, clock);
      OutsideBatch(st, front, now, cal);
      assert last !in front;
    }
  }

  lemma {:induction false} RunStaysBehind(ws: seq<World>, steps: seq<Step>, cal: Calendar, n: nat)
    requires Run(ws, steps, cal) && n < |ws|
    ensures Behind(ws[n])
  {
    if n > 0 {
      RunStaysBehind(ws, steps, cal, n - 1);
      var w, s := ws[n - 1], steps[n - 1];
      assert Next(w, s, ws[n], cal);
      if s.RunDue? { BatchStaysBehind(w.st, s.batch, s.readAt, cal, w.clock); }
    }
  }

  /** Edits that read the clock when they take effect are always timely and fresh. */
  lemma CurrentEditsAreTimely(ws: seq<World>, steps: seq<Step>, cal: Calendar)
    requires Run(ws, steps, cal)
    requires forall i :: 0 <= i < |steps| && steps[i].Edit? ==> steps[i].readAt == ws[i].clock
    ensures TimelyRun(ws, steps, cal) && FreshRun(ws, steps, cal)
  {
    forall i | 0 <= i < |steps| ensures Timely(ws[i].st, steps[i]) && Fresh(ws[i].st, steps[i]) {
      RunStaysBehind(ws, steps, cal, i);
    }
  }

  // ---- a run of the due schedules ------------------------------------------------------------

  lemma {:induction false} BatchMovesOn(st: State, batch: seq<nat>, now: int, cal: Calendar)
    requires StrictlyLater(cal) && forall id :: id in batch ==> id in st.rows
    ensures forall id :: id in batch ==> now < FireAll(st, batch, now, cal).rows[id].next
  {
    if batch != [] {
      BatchMovesOn(st, batch[..|batch| - 1], now, cal);
    }
  }

  function Members(batch: seq<nat>): set<nat> {
    set id | id in batch
  }

  lemma {:induction false} BatchSize(batch: seq<nat>)
    requires Distinct(batch)
    ensures |Members(batch)| == |batch|
  {
    if batch != [] {
      var front, last := batch[..|batch| - 1], batch[|batch| - 1];
      BatchSize(front);
      assert batch == front + [last] && last !in front;
      assert Members(batch) == Members(front) + {last};
    }
  }

  lemma BatchIsDistinct(rows: map<nat, Schedule>, now: int, limit: nat, batch: seq<nat>)
    requires IsBatch(rows, now, limit, batch)
    ensures Distinct(batch)
  {
  }

  /** A batch leaves something out only when it is full. */
  lemma BatchIsFull(rows: map<nat, Schedule>, now: int, limit: nat, batch: seq<nat>)
    requires IsBatch(rows, now, limit, batch) && |DueIds(rows, now)| <= limit
    ensures DueIds(rows, now) == Members(batch)
  {
    var due, taken := DueIds(rows, now), Members(batch);
    assert taken <= due;
    if due != taken {
      var id :| id in due && id !in taken;
      BatchIsDistinct(rows, now, limit, batch);
      BatchSize(batch);
      ProperCount(taken, due, id);
    }
  }

  /** After a run nothing it took is due and everything it left still is; it leaves nothing unless full. */
  lemma RunTakesTheEarliest(st: State, now: int, limit: nat, batch: seq<nat>, cal: Calendar)
    requires StrictlyLater(cal) && IsBatch(st.rows, now, limit, batch)
    ensures DueIds(FireAll(st, batch, now, cal).rows, now) == DueIds(st.rows, now) - Members(batch)
    ensures |DueIds(st.rows, now)| <= limit ==> DueIds(FireAll(st, batch, now, cal).rows, now) == {}
  {
    BatchMovesOn(st, batch, now, cal);
    OutsideBatch(st, batch, now, cal);
    if |DueIds(st.rows, now)| <= limit {
      BatchIsFull(st.rows, now, limit, batch);
    }
  }

  /**
   What a run leaves, in columns. A row of the batch keeps its expression and flag, ran now and waits for
   the slot after now; all other rows stay.
   */
  ghost predicate RowsFired(was: State, is_: State, batch: seq<nat>, now: int, cal: Calendar) {
    && is_.rows.Keys == was.rows.Keys
    && forall id | id in was.rows ::
         if id in batch
         then && is_.rows[id].cron == was.rows[id].cron && is_.rows[id].enabled == was.rows[id].enabled
              && is_.rows[id].next == cal(was.rows[id].cron, now) && is_.rows[id].lastRun == Some(now)
         else is_.rows[id] == was.rows[id]
  }

  /** A row names the job stored under its id and the slot it had; jobs are kept, and new only for the batch. */
  ghost predicate JobsMade(was: State, is_: State, batch: seq<nat>) {
    && (forall id | id in batch ::
          && id in was.rows && id in is_.rows && (id, was.rows[id].next) in is_.jobs
          && is_.rows[id].lastJob == Some(is_.jobs[(id, was.rows[id].next)]))
    && (forall k | k in was.jobs :: k in is_.jobs && is_.jobs[k] == was.jobs[k])
    && (forall k | k in is_.jobs && k !in was.jobs :: k.0 in batch && k.0 in was.rows && k.1 == was.rows[k.0].next)
  }

  /** The run is logged in the order of the batch, each row with the slot it had and its job. */
  ghost predicate RunLogged(was: State, is_: State, batch: seq<nat>, now: int) {
    && |is_.firings| == |was.firings| + |batch|
    && (forall i | 0 <= i < |was.firings| :: is_.firings[i] == was.firings[i])
    && forall i | 0 <= i < |batch| ::
         && batch[i] in was.rows && batch[i] in is_.rows
         && var fired := is_.firings[|was.firings| + i];
         && fired.id == batch[i] && fired.slot == was.rows[batch[i]].next && fired.at == now
         && Some(fired.job) == is_.rows[batch[i]].lastJob
  }

  ghost predicate BatchFired(was: State, is_: State, batch: seq<nat>, now: int, cal: Calendar) {
    RowsFired(was, is_, batch, now, cal) && JobsMade(was, is_, batch) && RunLogged(was, is_, batch, now)
  }

  lemma OneMoreRow(was: State, mid: State, front: seq<nat>, last: nat, now: int, cal: Calendar)
    requires last in was.rows && last !in front && RowsFired(was, mid, front, now, cal)
    ensures RowsFired(was, FireOne(mid, last, now, cal), front + [last], now, cal)
  {
  }

  lemma OneMoreJob(was: State, mid: State, front: seq<nat>, last: nat, now: int, cal: Calendar)
    requires last in was.rows && last !in front && RowsFired(was, mid, front, now, cal) && JobsMade(was, mid, front)
    ensures JobsMade(was, FireOne(mid, last, now, cal), front + [last])
  {
  }

  lemma OneMoreLogged(was: State, mid: State, front: seq<nat>, last: nat, now: int, cal: Calendar)
    requires last in was.rows && last !in front && RowsFired(was, mid, front, now, cal)
    requires RunLogged(was, mid, front, now)
    ensures RunLogged(was, FireOne(mid, last, now, cal), front + [last], now)
  {
  }

  /** Firing a batch in order leaves exactly that. */
  lemma {:induction false} FireAllMeans(st: State, batch: seq<nat>, now: int, cal: Calendar)
    requires Distinct(batch) && forall id :: id in batch ==> id in st.rows
    ensures BatchFired(st, FireAll(st, batch, now, cal), batch, now, cal)
  {
    if batch != [] {
      var n := |batch| - 1;
      var front, last := batch[..n], batch[n];
      FireAllMeans(st, front, now, cal);
      var mid := FireAll(st, front, now, cal);
      assert batch == front + [last] && last !in front;
      OneMoreRow(st, mid, front, last, now, cal);
      OneMoreJob(st, mid, front, last, now, cal);
      OneMoreLogged(st, mid, front, last, now, cal);
    }
  }

  // ---- the service ---------------------------------------------------------------------------

  datatype ScheduleError = InvalidPayload | InvalidCalendar | NotFound | NameConflict

  class Service {
    const calendar: Calendar
    var rows: map<nat, Schedule>
    var jobs: map<(nat, int), nat>
    ghost var used: set<nat>
    ghost var firings: seq<Firing>

    constructor (calendar: Calendar)
      ensures this.calendar == calendar && Abs() == NOTHING
    {
      this.calendar, rows, jobs, used, firings := calendar, map[], map[], {}, [];
    }

    ghost function Abs(): State
      reads this
    {
      State(rows, jobs, used, firings)
    }

    /** `taken` says that another schedule holds the new name. */
    method WriteSchedule(target: Option<nat>, newId: nat, cron: nat, enabled: bool, payloadOk: bool, cronOk: bool,
                         taken: bool, now: int)
      returns (res: Result<nat, ScheduleError>)
      requires newId !in used
      modifies this
      ensures res.Err? <==> !payloadOk || !cronOk || (target.Some? && target.value !in old(rows)) || taken
      ensures res.Err? ==> Abs() == old(Abs())
      ensures res.Ok? && target.None? ==>
                res.value == newId && Abs() == Created(old(Abs()), newId, cron, enabled, now, calendar)
      ensures res.Ok? && target.Some? ==>
                res.value == target.value && Abs() == Edited(old(Abs()), target.value, cron, enabled, now, calendar)
      ensures res == Err(InvalidPayload) <==> !payloadOk
      ensures res == Err(InvalidCalendar) <==> payloadOk && !cronOk
      ensures res == Err(NotFound) <==> payloadOk && cronOk && target.Some? && target.value !in old(rows)
      ensures res.Ok? ==>
                && rows == old(rows)[res.value := rows[res.value]] && jobs == old(jobs) && firings == old(firings)
                && rows[res.value].cron == cron && rows[res.value].enabled == enabled
                && rows[res.value].next == calendar(cron, now)
                && (target.Some? ==> && rows[res.value].lastRun == old(rows)[res.value].lastRun
                                     && rows[res.value].lastJob == old(rows)[res.value].lastJob)
                && (target.None? ==> rows[res.value].lastRun.None? && rows[res.value].lastJob.None?)
    {
      if !payloadOk { return Err(InvalidPayload); }
      if !cronOk { return Err(InvalidCalendar); }
      var next := calendar(cron, now);
      if target.Some? && target.value !in rows { return Err(NotFound); }
      if taken { return Err(NameConflict); }
      if target.Some? {
        rows := rows[target.value := rows[target.value].(cron := cron, enabled := enabled, next := next)];
        res := Ok(target.value);
      } else {
        rows := rows[newId := Schedule(cron, enabled, next, None, None)];
        used := used + {newId};
        res := Ok(newId);
      }
    }

    method DeleteSchedule(id: nat) returns (res: Result<(), ScheduleError>)
      modifies this
      ensures res == if id in old(rows) then Ok(()) else Err(NotFound)
      ensures Abs() == if id in old(rows) then Deleted(old(Abs()), id) else old(Abs())
      ensures rows == old(rows) - {id} && jobs == old(jobs) && firings == old(firings)
    {
      if id !in rows { return Err(NotFound); }
      rows := rows - {id};
      res := Ok(());
    }

    method Earliest(ids: set<nat>) returns (first: nat)
      requires ids != {} && ids <= rows.Keys
      ensures first in ids && forall id :: id in ids && id != first ==> Before(rows, first, id)
    {
      first :| first in ids;
      var rest := ids - {first};
      while rest != {}
        invariant rest <= ids && first in ids - rest
        invariant forall id :: id in ids - rest && id != first ==> Before(rows, first, id)
        decreases |rest|
      {
        var id :| id in rest;
        rest := rest - {id};
        if Before(rows, id, first) {
          forall x | x in ids - rest && x != id ensures Before(rows, id, x) {
            assert x == first || Before(rows, first, x);
          }
          first := id;
        }
      }
    }

    /** The statement's ordering and limit. */
    method SelectDue(now: int, limit: nat) returns (batch: seq<nat>)
      ensures IsBatch(rows, now, limit, batch)
      ensures EarliestDue(rows, now, limit, batch)
    {
      batch := [];
      var due := set id | id in rows && Due(rows[id], now);
      var left := due;
      while left != {} && |batch| < limit
        invariant |batch| <= limit && left <= due == DueIds(rows, now)
        invariant forall id :: id in due <==> id in left || id in batch
        invariant forall i, j :: 0 <= i < j < |batch| ==> Before(rows, batch[i], batch[j])
        invariant forall i, id :: 0 <= i < |batch| && id in left ==> Before(rows, batch[i], id)
        decreases |left|
      {
        var id := Earliest(left);
        left := left - {id};
        batch := batch + [id];
      }
      BatchMeans(rows, now, limit, batch);
    }

    method CreateJob(key: (nat, int)) returns (job: nat)
      modifies this`jobs
      ensures job == JobFor(old(jobs), key) && jobs == old(jobs)[key := job]
      ensures if key in old(jobs) then job == old(jobs)[key] && jobs == old(jobs)
              else job == |old(jobs)| && jobs == old(jobs)[key := job]
    {
      if key in jobs { return jobs[key]; }
      job := |jobs|;
      jobs := jobs[key := job];
    }

    method RunDueSchedules(now: int, limit: nat := 20) returns (count: nat, ghost batch: seq<nat>)
      modifies this
      ensures IsBatch(old(rows), now, limit, batch) && count == |batch|
      ensures Abs() == FireAll(old(Abs()), batch, now, calendar)
      ensures EarliestDue(old(rows), now, limit, batch)
      ensures BatchFired(old(Abs()), Abs(), batch, now, calendar)
    {
      var schedules := SelectDue(now, limit);
      batch := schedules;
      BatchIsDistinct(rows, now, limit, batch);
      FireSchedules(schedules, now);
      count := |schedules|;
    }

    method FireSchedules(batch: seq<nat>, now: int)
      requires Distinct(batch) && forall id :: id in batch ==> id in rows
      modifies this
      ensures Abs() == FireAll(old(Abs()), batch, now, calendar)
      ensures BatchFired(old(Abs()), Abs(), batch, now, calendar)
    {
      ghost var was := Abs();
      for i := 0 to |batch|
        invariant rows.Keys == was.rows.Keys
        invariant Abs() == FireAll(was, batch[..i], now, calendar)
      {
        var id := batch[i];
        var row := rows[id];
        var job := CreateJob((id, row.next));
        firings := firings + [Firing(id, row.next, now, job)];
        rows := rows[id := row.(lastRun := Some(now), lastJob := Some(job), next := calendar(row.cron, now))];
        assert batch[..i + 1][..i] == batch[..i];
      }
      assert batch[..|batch|] == batch;
      FireAllMeans(was, batch, now, calendar);
    }
  }
}

/**
 Timed project leases guarded by bearer tokens. A claim hands out a fresh random token and stores only
 its digest; heartbeats and results must present the token before the lease runs out. Tokens are
 opaque numbers that the generator never repeats, and the digest is injective.
 */
module ProjectLeases {
  import opened Options

  datatype RowStatus = ToClaim | Leased | Done | Failed | Removed
  datatype ProjectStatus = Active | Paused | Completed
  datatype Digest = Sha256(token: nat)
  datatype Action = ResetFailed | Remove | Restore

  datatype Project = Project(status: ProjectStatus, defaultSeconds: nat)

  datatype Row = Row(
    project: nat, account: nat, status: RowStatus, owner: Option<string>, digest: Option<Digest>,
    expires: Option<int>, attempts: nat, finishedAt: Option<int>)

  datatype ProjectError =
    ProjectNotFound | ProjectNotActive | WorkUnavailable | AccountRemoved | LeaseInvalid | AccountNotFound

  datatype Claim = Claim(row: nat, account: nat, token: nat, expires: int, attempts: nat)

  // ---- rows ----------------------------------------------------------------------------------

  function NewRow(project: nat, account: nat): Row {
    Row(project, account, ToClaim, None, None, None, 0, None)
  }

  /** A row may be claimed when it is free, or leased and past its expiry. */
  predicate Claimable(row: Row, now: int) {
    row.status == ToClaim || (row.status == Leased && row.expires.Some? && row.expires.value < now)
  }

  /** The guard of every call that presents a token. */
  predicate Accepts(row: Row, token: nat, now: int) {
    && row.status == Leased
    && row.digest == Some(Sha256(token))
    && row.expires.Some? && now < row.expires.value
  }

  function ClaimedRow(row: Row, now: int, owner: string, token: nat, seconds: nat): Row {
    row.(status := Leased, owner := Some(owner), digest := Some(Sha256(token)),
         expires := Some(now + seconds), attempts := row.attempts + 1)
  }

  function BeatenRow(row: Row, now: int, seconds: nat): Row {
    row.(expires := Some(now + seconds))
  }

  /** A result closes the lease; giving the work back (`ToClaim`) is one of the results. */
  function EndedRow(row: Row, now: int, status: RowStatus): Row {
    row.(status := status, finishedAt := if status in {Done, Failed} then Some(now) else None,
         digest := None, expires := None, owner := None)
  }

  /** Whether an operator action applies to a row. Nothing applies to a leased one. */
  predicate Applies(row: Row, action: Action) {
    match action
    case ResetFailed => row.status == Failed
    case Remove => row.status !in {Leased, Removed}
    case Restore => row.status == Removed
  }

  function MutatedRow(row: Row, action: Action): Row {
    row.(status := if action.Remove? then Removed else ToClaim, owner := None, digest := None,
         expires := None, finishedAt := None)
  }

  // ---- runs ----------------------------------------------------------------------------------

  /** All rows, the accounts that still exist, the tokens ever handed out, and the clock. */
  datatype World = World(rows: seq<Row>, accounts: set<nat>, issued: set<nat>, now: int)

  datatype Step =
    | Take(row: nat, owner: string, token: nat, seconds: nat)
    | Beat(row: nat, token: nat, seconds: nat)
    | End(row: nat, token: nat, status: RowStatus)
    | Mutate(chosen: set<nat>, action: Action)
    | Add(project: nat, account: nat)
    | AccountGone(account: nat)
    | Tick(seconds: nat)

  /** A claim is granted: the row is available, its account exists and the token is new. */
  predicate Granted(w: World, step: Step) {
    && step.Take? && step.row < |w.rows| && Claimable(w.rows[step.row], w.now)
    && w.rows[step.row].account in w.accounts && step.token !in w.issued
  }

  predicate Valid(w: World, r: nat, token: nat) {
    r < |w.rows| && Accepts(w.rows[r], token, w.now)
  }

  function Next(w: World, step: Step): World {
    match step
    case Take(r, owner, token, seconds) =>
      if Granted(w, step) then
        w.(rows := w.rows[r := ClaimedRow(w.rows[r], w.now, owner, token, seconds)], issued := w.issued + {token})
      else if r < |w.rows| && Claimable(w.rows[r], w.now) && w.rows[r].account !in w.accounts then
        w.(rows := w.rows[r := w.rows[r].(status := Removed)])
      else w
    case Beat(r, token, seconds) =>
      if Valid(w, r, token) then w.(rows := w.rows[r := BeatenRow(w.rows[r], w.now, seconds)]) else w
    case End(r, token, status) =>
      if Valid(w, r, token) && status in {Done, Failed, ToClaim}
      then w.(rows := w.rows[r := EndedRow(w.rows[r], w.now, status)]) else w
    case Mutate(chosen, action) => w.(rows := MutatedRows(w.rows, chosen, action))
    case Add(project, account) => w.(rows := w.rows + [NewRow(project, account)])
    case AccountGone(account) => w.(accounts := w.accounts - {account})
    case Tick(seconds) => w.(now := w.now + seconds)
  }

  function MutatedRows(rows: seq<Row>, chosen: set<nat>, action: Action): seq<Row> {
    seq(|rows|, r requires 0 <= r < |rows| =>
      if r in chosen && Applies(rows[r], action) then MutatedRow(rows[r], action) else rows[r])
  }

  function Run(w: World, steps: seq<Step>): World
    decreases steps
  {
    if steps == [] then w else Run(Next(w, steps[0]), steps[1..])
  }

  ghost predicate RowOk(row: Row, issued: set<nat>) {
    && (row.status == Leased ==> row.digest.Some? && row.expires.Some?)
    && (row.status in {ToClaim, Done, Failed} ==> row.digest.None? && row.expires.None?)
    && (row.digest.Some? ==> row.digest.value.token in issued)
  }

  ghost predicate WorldOk(w: World) {
    && (forall r | 0 <= r < |w.rows| :: RowOk(w.rows[r], w.issued))
    && (forall r, q | 0 <= r < |w.rows| && 0 <= q < |w.rows| && w.rows[r].digest.Some?
                      && w.rows[q].digest == w.rows[r].digest :: r == q)
  }

  /** Before the first project account every world is in order. */
  function Start(accounts: set<nat>, now: int): (w: World)
    ensures WorldOk(w)
  {
    World([], accounts, {}, now)
  }

  lemma StepKeeps(w: World, step: Step)
    requires WorldOk(w)
    ensures WorldOk(Next(w, step))
    ensures |w.rows| <= |Next(w, step).rows| && w.issued <= Next(w, step).issued
  {
  }

  lemma {:induction false} RunKeeps(w: World, steps: seq<Step>)
    requires WorldOk(w)
    ensures WorldOk(Run(w, steps))
    ensures |w.rows| <= |Run(w, steps).rows| && w.issued <= Run(w, steps).issued && w.now <= Run(w, steps).now
    decreases steps
  {
    if steps != [] {
      StepKeeps(w, steps[0]);
      RunKeeps(Next(w, steps[0]), steps[1..]);
    }
  }

  // ---- what the guards say -------------------------------------------------------------------

  /** Work is available when nobody has it, or its lease is strictly past its expiry. */
  lemma ClaimableMeans(row: Row, now: int)
    ensures Claimable(row, now) <==>
            row.status == ToClaim || (row.status == Leased && row.expires.Some? && row.expires.value < now)
  {
  }

  /** A token is accepted on a leased row that stores its digest, strictly before the expiry. */
  lemma AcceptsMeans(row: Row, token: nat, now: int)
    ensures Accepts(row, token, now) <==>
            row.status == Leased && row.digest == Some(Sha256(token)) && row.expires.Some? && now < row.expires.value
  {
  }

  /** Failed rows are reset, removed ones restored, and any but leased and removed ones removed; the lease is wiped. */
  lemma MutationMeans(row: Row, action: Action)
    ensures Applies(row, action) <==>
            || (action == ResetFailed && row.status == Failed)
            || (action == Remove && row.status != Leased && row.status != Removed)
            || (action == Restore && row.status == Removed)
    ensures MutatedRow(row, action) ==
            Row(row.project, row.account, if action == Remove then Removed else ToClaim, None, None, None,
                row.attempts, None)
  {
  }

  // ---- exclusion -----------------------------------------------------------------------------

  /** At any instant of any run a row accepts at most one token, and a token opens at most one row. */
  lemma Exclusive(w: World, steps: seq<Step>, r: nat, q: nat, t: nat, u: nat)
    requires WorldOk(w) && Valid(Run(w, steps), r, t) && Valid(Run(w, steps), q, u)
    ensures r == q <==> t == u
  {
    RunKeeps(w, steps);
  }

  /** No instant lets the holder act and another claim; exactly one instant lets neither. */
  lemma ExpiryBoundary(row: Row, t: nat, now: int)
    requires row.status == Leased && row.digest == Some(Sha256(t)) && row.expires.Some?
    ensures !(Accepts(row, t, now) && Claimable(row, now))
    ensures !Accepts(row, t, now) && !Claimable(row, now) <==> now == row.expires.value
  {
  }

  lemma DeadStaysDead(w: World, step: Step, r: nat, t: nat)
    requires WorldOk(w) && r < |w.rows| && t in w.issued && !Valid(w, r, t)
    ensures !Valid(Next(w, step), r, t)
  {
  }

  /** Once a token has stopped opening a row, for whatever reason, it never opens it again. */
  lemma {:induction false} TokenDeath(w: World, steps: seq<Step>, r: nat, t: nat)
    requires WorldOk(w) && r < |w.rows| && t in w.issued && !Valid(w, r, t)
    ensures !Valid(Run(w, steps), r, t)
    decreases steps
  {
    if steps != [] {
      StepKeeps(w, steps[0]);
      DeadStaysDead(w, steps[0], r, t);
      TokenDeath(Next(w, steps[0]), steps[1..], r, t);
    }
  }

  /** A claim kills every earlier token of the row, and only its own can open the row next. */
  lemma ClaimSupersedes(w: World, step: Step, steps: seq<Step>, old_: nat)
    requires WorldOk(w) && Granted(w, step) && old_ in w.issued
    ensures !Valid(Run(Next(w, step), steps), step.row, old_)
    ensures step.seconds > 0 ==> Valid(Next(w, step), step.row, step.token)
  {
    StepKeeps(w, step);
    TokenDeath(Next(w, step), steps, step.row, old_);
  }

  /** A result kills the token that brought it. */
  lemma ResultIsFinal(w: World, steps: seq<Step>, r: nat, t: nat, status: RowStatus)
    requires WorldOk(w) && Valid(w, r, t) && status in {Done, Failed, ToClaim}
    ensures !Valid(Run(Next(w, End(r, t, status)), steps), r, t)
  {
    StepKeeps(w, End(r, t, status));
    TokenDeath(Next(w, End(r, t, status)), steps, r, t);
  }

  /** A lease that has run out cannot be revived, not even by its holder and not even if nobody reclaims it. */
  lemma ExpiryIsFinal(w: World, pause: nat, steps: seq<Step>, r: nat, t: nat)
    requires WorldOk(w) && Valid(w, r, t) && w.now + pause >= w.rows[r].expires.value
    ensures !Valid(Run(Next(w, Tick(pause)), steps), r, t)
  {
    StepKeeps(w, Tick(pause));
    assert t in w.issued by { assert RowOk(w.rows[r], w.issued); }
    TokenDeath(Next(w, Tick(pause)), steps, r, t);
  }

  /** The token a step presents, if it presents one. */
  predicate Presents(step: Step, t: nat) {
    (step.Beat? || step.End?) && step.token == t
  }

  lemma OthersLeaveLease(w: World, step: Step, r: nat, t: nat)
    requires WorldOk(w) && Valid(w, r, t) && !Presents(step, t)
    ensures r < |Next(w, step).rows| && Next(w, step).rows[r] == w.rows[r]
  {
  }

  /** Until it expires, a lease can be touched by nobody but the holder of its token. */
  lemma {:induction false} LeaseIsProtected(w: World, steps: seq<Step>, r: nat, t: nat)
    requires WorldOk(w) && Valid(w, r, t)
    requires forall k | 0 <= k < |steps| :: !Presents(steps[k], t)
    requires Run(w, steps).now < w.rows[r].expires.value
    ensures Valid(Run(w, steps), r, t) && Run(w, steps).rows[r] == w.rows[r]
    decreases steps
  {
    RunKeeps(w, steps);
    if steps != [] {
      StepKeeps(w, steps[0]);
      OthersLeaveLease(w, steps[0], r, t);
      RunKeeps(Next(w, steps[0]), steps[1..]);
      LeaseIsProtected(Next(w, steps[0]), steps[1..], r, t);
    }
  }

  // ---- counting ------------------------------------------------------------------------------

  function Grants(w: World, steps: seq<Step>, r: nat): nat
    decreases steps
  {
    if steps == [] then 0
    else (if Granted(w, steps[0]) && steps[0].row == r then 1 else 0) + Grants(Next(w, steps[0]), steps[1..], r)
  }

  /** `attempt_count` is the number of claims granted on the row. */
  lemma {:induction false} AttemptsCountClaims(w: World, steps: seq<Step>, r: nat)
    requires WorldOk(w) && r < |w.rows|
    ensures r < |Run(w, steps).rows|
    ensures Run(w, steps).rows[r].attempts == w.rows[r].attempts + Grants(w, steps, r)
    decreases steps
  {
    if steps != [] {
      StepKeeps(w, steps[0]);
      AttemptsCountClaims(Next(w, steps[0]), steps[1..], r);
    }
  }

  function CountIn(rows: seq<Row>, p: nat, statuses: set<RowStatus>): nat {
    if rows == [] then 0
    else (if rows[0].project == p && rows[0].status in statuses then 1 else 0) + CountIn(rows[1..], p, statuses)
  }

  const ALL: set<RowStatus> := {ToClaim, Leased, Done, Failed, Removed}

  /** What a project shows of its rows. */
  datatype Counters = Counters(total: nat, toClaim: nat, leased: nat, done: nat, failed: nat)

  function Serialized(rows: seq<Row>, p: nat): Counters {
    Counters(CountIn(rows, p, ALL), CountIn(rows, p, {ToClaim}), CountIn(rows, p, {Leased}),
             CountIn(rows, p, {Done}), CountIn(rows, p, {Failed}))
  }

  lemma {:induction false} CountersPartition(rows: seq<Row>, p: nat)
    ensures var c := Serialized(rows, p);
            c.total == c.toClaim + c.leased + c.done + c.failed + CountIn(rows, p, {Removed})
  {
    if rows != [] { CountersPartition(rows[1..], p); }
  }

  lemma {:induction false} CountSame(a: seq<Row>, b: seq<Row>, p: nat, statuses: set<RowStatus>)
    requires |a| == |b|
    requires forall r | 0 <= r < |a| ::
               a[r].project == b[r].project && (a[r].status in statuses) == (b[r].status in statuses)
    ensures CountIn(a, p, statuses) == CountIn(b, p, statuses)
  {
    if a != [] { CountSame(a[1..], b[1..], p, statuses); }
  }

  lemma {:induction false} CountAppend(rows: seq<Row>, row: Row, p: nat, statuses: set<RowStatus>)
    ensures CountIn(rows + [row], p, statuses)
            == CountIn(rows, p, statuses) + if row.project == p && row.status in statuses then 1 else 0
  {
    if rows != [] {
      assert (rows + [row])[1..] == rows[1..] + [row];
      CountAppend(rows[1..], row, p, statuses);
    }
  }

  lemma {:induction false} CountUpdate(rows: seq<Row>, r: nat, row: Row, p: nat, statuses: set<RowStatus>)
    requires r < |rows| && row.project == rows[r].project
    ensures CountIn(rows[r := row], p, statuses) == CountIn(rows, p, statuses)
              - (if rows[r].project == p && rows[r].status in statuses then 1 else 0)
              + (if row.project == p && row.status in statuses then 1 else 0)
  {
    if r == 0 {
      assert rows[r := row][1..] == rows[1..];
    } else {
      assert rows[r := row][1..] == rows[1..][r - 1 := row];
      CountUpdate(rows[1..], r - 1, row, p, statuses);
    }
  }

  function Adds(steps: seq<Step>, p: nat): nat {
    if steps == [] then 0
    else (if steps[0].Add? && steps[0].project == p then 1 else 0) + Adds(steps[1..], p)
  }

  lemma EveryStatus(status: RowStatus)
    ensures status in ALL
  {
    match status
    case ToClaim => case Leased => case Done => case Failed => case Removed =>
  }

  lemma StepTotal(w: World, step: Step, p: nat)
    ensures CountIn(Next(w, step).rows, p, ALL)
            == CountIn(w.rows, p, ALL) + if step.Add? && step.project == p then 1 else 0
  {
    if step.Add? {
      CountAppend(w.rows, NewRow(step.project, step.account), p, ALL);
    } else {
      forall status: RowStatus ensures status in ALL { EveryStatus(status); }
      CountSame(w.rows, Next(w, step).rows, p, ALL);
    }
  }

  /** Over any run the total grows by the rows added, and the other counters share out what is not removed. */
  lemma {:induction false} CountersAddUp(w: World, steps: seq<Step>, p: nat)
    ensures var c := Serialized(Run(w, steps).rows, p);
            && c.total == CountIn(w.rows, p, ALL) + Adds(steps, p)
            && c.toClaim + c.leased + c.done + c.failed == c.total - CountIn(Run(w, steps).rows, p, {Removed})
    decreases steps
  {
    CountersPartition(Run(w, steps).rows, p);
    if steps != [] {
      StepTotal(w, steps[0], p);
      CountersAddUp(Next(w, steps[0]), steps[1..], p);
    }
  }

  /** A claim moves the counters of its project by one leased row: a free one, or an expired lease taken over. */
  lemma ClaimMovesCounters(w: World, step: Step)
    requires Granted(w, step)
    ensures var p, row := w.rows[step.row].project, w.rows[step.row];
            var before, after := Serialized(w.rows, p), Serialized(Next(w, step).rows, p);
            if row.status == ToClaim
            then && before == after.(toClaim := after.toClaim + 1, leased := before.leased)
                 && after.leased == before.leased + 1
            else before == after
  {
    var row := w.rows[step.row];
    var taken := ClaimedRow(row, w.now, step.owner, step.token, step.seconds);
    CountUpdate(w.rows, step.row, taken, row.project, ALL);
    CountUpdate(w.rows, step.row, taken, row.project, {ToClaim});
    CountUpdate(w.rows, step.row, taken, row.project, {Leased});
    CountUpdate(w.rows, step.row, taken, row.project, {Done});
    CountUpdate(w.rows, step.row, taken, row.project, {Failed});
  }

  /** A result moves one row from leased to where the caller said: done, failed, or free again. */
  lemma ResultMovesCounters(w: World, r: nat, token: nat, status: RowStatus)
    requires Valid(w, r, token) && status in {Done, Failed, ToClaim}
    ensures var p := w.rows[r].project;
            var before, after := Serialized(w.rows, p), Serialized(Next(w, End(r, token, status)).rows, p);
            && before.leased == after.leased + 1 && after.total == before.total
            && after.done == before.done + (if status == Done then 1 else 0)
            && after.failed == before.failed + (if status == Failed then 1 else 0)
            && after.toClaim == before.toClaim + (if status == ToClaim then 1 else 0)
  {
    var row := w.rows[r];
    var ended := EndedRow(row, w.now, status);
    CountUpdate(w.rows, r, ended, row.project, ALL);
    CountUpdate(w.rows, r, ended, row.project, {ToClaim});
    CountUpdate(w.rows, r, ended, row.project, {Leased});
    CountUpdate(w.rows, r, ended, row.project, {Done});
    CountUpdate(w.rows, r, ended, row.project, {Failed});
  }

  /** The counters are sizes: of all rows of the project, and of those in each status. */
  lemma {:induction false} CountIsSize(rows: seq<Row>, n: nat, p: nat, statuses: set<RowStatus>)
    requires n <= |rows|
    ensures CountIn(rows[..n], p, statuses)
            == |set r | 0 <= r < n && rows[r].project == p && rows[r].status in statuses|
  {
    if n > 0 {
      CountIsSize(rows, n - 1, p, statuses);
      CountAppend(rows[..n - 1], rows[n - 1], p, statuses);
      assert rows[..n] == rows[..n - 1] + [rows[n - 1]];
      var before := set r | 0 <= r < n - 1 && rows[r].project == p && rows[r].status in statuses;
      var more := set r | 0 <= r < n && rows[r].project == p && rows[r].status in statuses;
      if rows[n - 1].project == p && rows[n - 1].status in statuses {
        assert more == before + {n - 1};
      } else {
        assert more == before;
      }
    }
  }

  /** The chosen rows an action applies to. */
  function Hits(rows: seq<Row>, chosen: set<nat>, action: Action): set<nat> {
    set r | r in chosen && r < |rows| && Applies(rows[r], action)
  }

  lemma MutationStep(rows: seq<Row>, chosen: set<nat>, r: nat, action: Action)
    requires r < |rows| && r !in chosen
    ensures MutatedRows(rows, chosen, action)[r] == rows[r]
    ensures MutatedRows(rows, chosen + {r}, action)
            == if Applies(rows[r], action) then MutatedRows(rows, chosen, action)[r := MutatedRow(rows[r], action)]
               else MutatedRows(rows, chosen, action)
  {
    var a, b := MutatedRows(rows, chosen, action), MutatedRows(rows, chosen + {r}, action);
    assert forall q | 0 <= q < |rows| && q != r :: a[q] == b[q];
    if Applies(rows[r], action) {
      assert b == a[r := MutatedRow(rows[r], action)];
    } else {
      assert b == a;
    }
  }

  lemma HitsStep(rows: seq<Row>, chosen: set<nat>, r: nat, action: Action)
    requires r < |rows| && r !in chosen
    ensures |Hits(rows, chosen + {r}, action)|
            == |Hits(rows, chosen, action)| + if Applies(rows[r], action) then 1 else 0
  {
    var a, b := Hits(rows, chosen, action), Hits(rows, chosen + {r}, action);
    if Applies(rows[r], action) { assert b == a + {r}; } else { assert b == a; }
  }

  predicate Has(rows: seq<Row>, p: nat, a: nat) {
    exists r :: 0 <= r < |rows| && rows[r].project == p && rows[r].account == a
  }

  // ---- the service ---------------------------------------------------------------------------

  class Projects {
    var projects: seq<Project>
    var rows: seq<Row>
    var accounts: set<nat>

    constructor (known: set<nat>)
      ensures projects == [] && rows == [] && accounts == known
    {
      projects, rows, accounts := [], [], known;
    }

    /** What is observed of the tables at time `now`, given the tokens handed out so far. */
    function At(now: int, issued: set<nat>): World
      reads this
    {
      World(rows, accounts, issued, now)
    }

    predicate Candidate(p: nat, now: int, r: nat)
      reads this
    {
      r < |rows| && rows[r].project == p && Claimable(rows[r], now)
    }

    /** `token` is the generator's next output; `issued` are the ones before it. */
    method ClaimProjectAccount(p: nat, now: int, owner: string, seconds: Option<nat>, token: nat,
                               ghost issued: set<nat>)
      returns (res: Result<Claim, ProjectError>)
      requires token !in issued
      modifies this`rows
      ensures res.Err? && res.error != AccountRemoved ==> rows == old(rows)
      ensures p >= |projects| <==> res == Err(ProjectNotFound)
      ensures p < |projects| && projects[p].status != Active <==> res == Err(ProjectNotActive)
      ensures p < |projects| && projects[p].status == Active ==>
                (res == Err(WorkUnavailable) <==> !exists r :: 0 <= r < |rows| && old(Candidate(p, now, r)))
      ensures res.Ok? ==>
                && (forall q | 0 <= q < res.value.row :: !old(Candidate(p, now, q)))
                && old(Candidate(p, now, res.value.row))
                && At(now, issued + {token}) ==
                     Next(old(At(now, issued)), Take(res.value.row, owner, token,
                       if seconds.Some? then seconds.value else projects[p].defaultSeconds))
                && res.value.token == token && rows[res.value.row].expires == Some(res.value.expires)
                && res.value.attempts == rows[res.value.row].attempts
      ensures res.Ok? ==>
                var r := res.value.row;
                && r < |old(rows)| && old(rows)[r].project == p && old(rows)[r].account in accounts
                && rows == old(rows)[r := old(rows)[r].(
                     status := Leased, owner := Some(owner), digest := Some(Sha256(token)),
                     expires := Some(now + if seconds.None? then projects[p].defaultSeconds else seconds.value),
                     attempts := old(rows)[r].attempts + 1)]
                && res.value.account == old(rows)[r].account
      ensures res == Err(AccountRemoved) ==> exists r ::
                && 0 <= r < |old(rows)| && old(Candidate(p, now, r)) && old(rows[r].account) !in accounts
                && (forall q | 0 <= q < r :: !old(Candidate(p, now, q)))
                && rows == old(rows)[r := old(rows[r]).(status := Removed)]
    {
      if p >= |projects| { return Err(ProjectNotFound); }
      if projects[p].status != Active { return Err(ProjectNotActive); }
      var r := 0;
      while r < |rows| && !Candidate(p, now, r)
        invariant r <= |rows|
        invariant forall q | 0 <= q < r :: !Candidate(p, now, q)
      {
        r := r + 1;
      }
      if r == |rows| { return Err(WorkUnavailable); }
      var row := rows[r];
      if row.account !in accounts {
        rows := rows[r := row.(status := Removed)];
        return Err(AccountRemoved);
      }
      var lease := if seconds.Some? then seconds.value else projects[p].defaultSeconds;
      row := row.(status := Leased, owner := Some(owner), digest := Some(Sha256(token)),
                  expires := Some(now + lease), attempts := row.attempts + 1);
      rows := rows[r := row];
      res := Ok(Claim(r, row.account, token, now + lease, row.attempts));
    }

    method HeartbeatProjectLease(r: nat, now: int, token: nat, seconds: Option<nat>, ghost issued: set<nat>)
      returns (res: Result<int, ProjectError>)
      requires r < |rows| ==> rows[r].project < |projects|
      modifies this`rows
      ensures res.Ok? <==> Valid(old(At(now, issued)), r, token)
      ensures res.Err? ==> res.error == LeaseInvalid && rows == old(rows)
      ensures res.Ok? ==>
                var lease := if seconds.Some? then seconds.value else projects[old(rows[r].project)].defaultSeconds;
                && At(now, issued) == Next(old(At(now, issued)), Beat(r, token, lease))
                && rows == old(rows)[r := old(rows)[r].(expires := Some(now + lease))] && res.value == now + lease
    {
      if r >= |rows| || !Accepts(rows[r], token, now) { return Err(LeaseInvalid); }
      var row := rows[r];
      var lease := if seconds.Some? then seconds.value else projects[row.project].defaultSeconds;
      rows := rows[r := row.(expires := Some(now + lease))];
      res := Ok(now + lease);
    }

    method FinishProjectLease(r: nat, now: int, token: nat, status: RowStatus, ghost issued: set<nat>)
      returns (res: Result<Row, ProjectError>)
      requires status in {Done, Failed, ToClaim}
      modifies this`rows
      ensures res.Ok? <==> Valid(old(At(now, issued)), r, token)
      ensures res.Err? ==> res.error == LeaseInvalid
      ensures At(now, issued) == Next(old(At(now, issued)), End(r, token, status))
      ensures res.Ok? ==> r < |rows| && res.value == rows[r] && rows == old(rows)[r := rows[r]]
      ensures res.Ok? ==>
                && rows[r].status == status
                && rows[r].digest.None? && rows[r].owner.None? && rows[r].expires.None?
                && (rows[r].finishedAt == Some(now) <==> status == Done || status == Failed)
                && (status == ToClaim ==> rows[r].finishedAt.None?)
                && rows[r].attempts == old(rows)[r].attempts
                && rows[r].project == old(rows)[r].project && rows[r].account == old(rows)[r].account
      ensures res.Err? ==> rows == old(rows)
    {
      if r >= |rows| || !Accepts(rows[r], token, now) { return Err(LeaseInvalid); }
      var row := rows[r];
      row := row.(status := status, finishedAt := if status in {Done, Failed} then Some(now) else None,
                  digest := None, expires := None, owner := None);
      rows := rows[r := row];
      res := Ok(row);
    }

    static method MutateRow(before: Row, action: Action) returns (after: Option<Row>)
      ensures after == if Applies(before, action) then Some(MutatedRow(before, action)) else None
      ensures after.Some? <==>
                || (action == ResetFailed && before.status == Failed)
                || (action == Remove && before.status != Leased && before.status != Removed)
                || (action == Restore && before.status == Removed)
      ensures after.Some? ==>
                after.value == Row(before.project, before.account, if action == Remove then Removed else ToClaim,
                                   None, None, None, before.attempts, None)
    {
      var row := before;
      if action == ResetFailed && row.status == Failed {
        row := row.(status := ToClaim);
      } else if action == Remove && row.status !in {Leased, Removed} {
        row := row.(status := Removed);
      } else if action == Restore && row.status == Removed {
        row := row.(status := ToClaim);
      } else {
        return None;
      }
      after := Some(row.(owner := None, digest := None, expires := None, finishedAt := None));
    }

    /** The loop over the chosen rows. */
    method MutateChosen(chosen: set<nat>, action: Action) returns (updated: nat)
      requires forall r | r in chosen :: r < |rows|
      modifies this`rows
      ensures rows == MutatedRows(old(rows), chosen, action)
      ensures updated == |Hits(old(rows), chosen, action)|
    {
      var rest := chosen;
      updated := 0;
      ghost var before := rows;
      assert rows == MutatedRows(before, {}, action);
      while rest != {}
        invariant rest <= chosen
        invariant rows == MutatedRows(before, chosen - rest, action)
        invariant updated == |Hits(before, chosen - rest, action)|
        decreases |rest|
      {
        var r :| r in rest;
        MutationStep(before, chosen - rest, r, action);
        HitsStep(before, chosen - rest, r, action);
        assert chosen - (rest - {r}) == chosen - rest + {r};
        rest := rest - {r};
        var row := MutateRow(rows[r], action);
        if row.None? { continue; }
        rows := rows[r := row.value];
        updated := updated + 1;
      }
      assert chosen - rest == chosen;
    }

    /** Applies an operator action to the requested rows of one project and counts those it changed. */
    method MutateProjectAccounts(p: nat, requested: set<nat>, action: Action)
      returns (res: Result<nat, ProjectError>)
      modifies this`rows
      ensures p >= |projects| ==> res == Err(ProjectNotFound) && rows == old(rows)
      ensures p < |projects| ==>
                var chosen := set r | r in requested && r < |old(rows)| && old(rows)[r].project == p;
                && rows == MutatedRows(old(rows), chosen, action)
                && res == Ok(|Hits(old(rows), chosen, action)|)
      ensures |rows| == |old(rows)|
      ensures p < |projects| ==> forall r | 0 <= r < |rows| ::
                rows[r] == if r in requested && old(rows)[r].project == p && Applies(old(rows)[r], action)
                           then MutatedRow(old(rows)[r], action) else old(rows)[r]
      ensures p < |projects| ==>
                res == Ok(|set r | r in requested && r < |old(rows)| && old(rows)[r].project == p
                                   && Applies(old(rows)[r], action)|)
    {
      if p >= |projects| { return Err(ProjectNotFound); }
      var chosen := set r | r in requested && r < |rows| && rows[r].project == p;
      assert Hits(rows, chosen, action)
          == set r | r in requested && r < |rows| && rows[r].project == p && Applies(rows[r], action);
      var updated := MutateChosen(chosen, action);
      res := Ok(updated);
    }

    method SetProjectStatus(p: nat, status: ProjectStatus) returns (res: Result<(), ProjectError>)
      modifies this`projects
      ensures p >= |old(projects)| ==> res == Err(ProjectNotFound) && projects == old(projects)
      ensures p < |old(projects)| ==>
                res.Ok? && projects == old(projects)[p := old(projects)[p].(status := status)]
    {
      if p >= |projects| { return Err(ProjectNotFound); }
      projects := projects[p := projects[p].(status := status)];
      res := Ok(());
    }

    /** Adds each account that is not in the project yet; existing rows, leased ones included, stay as they are. */
    method AddProjectAccounts(p: nat, requested: set<nat>) returns (res: Result<(), ProjectError>)
      modifies this`rows
      ensures p >= |projects| <==> res == Err(ProjectNotFound)
      ensures p < |projects| && !(requested <= accounts) <==> res == Err(AccountNotFound)
      ensures res.Ok? <==> p < |projects| && requested <= accounts
      ensures res.Err? ==> rows == old(rows)
      ensures old(rows) <= rows
      ensures forall r | |old(rows)| <= r < |rows| ::
                rows[r] == Row(p, rows[r].account, ToClaim, None, None, None, 0, None) && rows[r].account in requested
                && !Has(old(rows), p, rows[r].account)
      ensures forall r, q | |old(rows)| <= r < q < |rows| :: rows[r].account != rows[q].account
      ensures res.Ok? ==> forall a | a in requested :: Has(rows, p, a)
      ensures res.Ok? ==> forall a | a in requested ::
                exists r :: 0 <= r < |rows| && rows[r].project == p && rows[r].account == a
      ensures forall r, q | |old(rows)| <= r < |rows| && 0 <= q < |old(rows)| && old(rows)[q].project == p ::
                rows[r].account != old(rows)[q].account
    {
      if p >= |projects| { return Err(ProjectNotFound); }
      if !(requested <= accounts) { return Err(AccountNotFound); }
      var rest := requested;
      while rest != {}
        invariant rest <= requested && old(rows) <= rows
        invariant forall r | |old(rows)| <= r < |rows| ::
                    rows[r] == NewRow(p, rows[r].account) && rows[r].account in requested - rest
                    && !Has(old(rows), p, rows[r].account)
        invariant forall r, q | |old(rows)| <= r < q < |rows| :: rows[r].account != rows[q].account
        invariant forall a | a in requested - rest :: Has(rows, p, a)
        decreases |rest|
      {
        var a :| a in rest;
        rest := rest - {a};
        if !Has(rows, p, a) {
          ghost var before := rows;
          rows := rows + [NewRow(p, a)];
          assert rows[|rows| - 1].account == a;
          forall b | b in requested - rest && b != a ensures Has(rows, p, b) {
            assert Has(before, p, b);
            var r :| 0 <= r < |before| && before[r].project == p && before[r].account == b;
            assert rows[r] == before[r];
          }
        }
      }
      res := Ok(());
    }

    method CreateProject(defaultSeconds: nat, requested: set<nat>) returns (res: Result<nat, ProjectError>)
      modifies this`projects, this`rows
      ensures res.Err? <==> !(requested <= accounts)
      ensures res.Err? ==> res.error == AccountNotFound && projects == old(projects) && rows == old(rows)
      ensures res.Ok? ==>
                && res.value == |old(projects)|
                && projects == old(projects) + [Project(Active, defaultSeconds)]
                && old(rows) <= rows
                && (forall a | a in requested :: Has(rows, res.value, a))
                && (forall r | |old(rows)| <= r < |rows| ::
                      && rows[r] == Row(res.value, rows[r].account, ToClaim, None, None, None, 0, None)
                      && rows[r].account in requested)
                && (forall r, q | |old(rows)| <= r < q < |rows| :: rows[r].account != rows[q].account)
    {
      if !(requested <= accounts) { return Err(AccountNotFound); }
      var p := |projects|;
      projects := projects + [Project(Active, defaultSeconds)];
      var added := AddProjectAccounts(p, requested);
      res := Ok(p);
    }
  }
}

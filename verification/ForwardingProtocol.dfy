/**
 How concurrent forwarding scans of one account share the delivery table: claim a row, send outside
 any transaction, record the outcome. A scan may die at any point. The claim treats a `processing` row
 younger than five minutes as somebody else's send in progress.
 */
module ForwardingProtocol {
  import opened Options

  datatype Key = Key(message: nat, destination: nat)
  datatype DeliveryStatus = Processing | Success | Failed
  datatype Delivery = Delivery(status: DeliveryStatus, attempts: nat, updatedAt: int, sentAt: Option<int>)

  type Deliveries = map<Key, Delivery>

  const WINDOW: int := 300

  /** The claim is refused on a delivered row and on a fresh row somebody is working on. */
  predicate MayClaim(rows: Deliveries, k: Key, now: int) {
    k in rows ==> rows[k].status != Success && !InProgress(rows, k, now)
  }

  /** Somebody's send of the pair may still be in progress. */
  predicate InProgress(rows: Deliveries, k: Key, now: int) {
    k in rows && rows[k].status == Processing && rows[k].updatedAt > now - WINDOW
  }

  function Claimed(rows: Deliveries, k: Key, now: int): Deliveries {
    rows[k := if k in rows
              then rows[k].(status := Processing, attempts := rows[k].attempts + 1, updatedAt := now)
              else Delivery(Processing, 1, now, None)]
  }

  function Recorded(rows: Deliveries, k: Key, ok: bool, now: int): Deliveries
    requires k in rows
  {
    rows[k := rows[k].(status := if ok then Success else Failed, updatedAt := now,
                       sentAt := if ok then Some(now) else None)]
  }

  // ---- runs ----------------------------------------------------------------------------------

  /** A send in progress: the pair it serves and when it was claimed. */
  datatype Flight = Flight(key: Key, since: int)

  datatype World = World(rows: Deliveries, flights: map<nat, Flight>, now: int)

  datatype Step =
    | Claim(scan: nat, key: Key)
    | Record(scan: nat, ok: bool)
    | Die(scan: nat)
    | Tick(seconds: nat)

  predicate Granted(w: World, step: Step) {
    step.Claim? && step.scan !in w.flights && MayClaim(w.rows, step.key, w.now)
  }

  function Next(w: World, step: Step): World {
    match step
    case Claim(p, k) =>
      if Granted(w, step) then w.(rows := Claimed(w.rows, k, w.now), flights := w.flights[p := Flight(k, w.now)])
      else w
    case Record(p, ok) =>
      if p in w.flights then
        var k := w.flights[p].key;
        w.(rows := if k in w.rows then Recorded(w.rows, k, ok, w.now) else w.rows, flights := w.flights - {p})
      else w
    case Die(p) => w.(flights := w.flights - {p})
    case Tick(seconds) => w.(now := w.now + seconds)
  }

  function Run(w: World, steps: seq<Step>): World
    decreases steps
  {
    if steps == [] then w else Run(Next(w, steps[0]), steps[1..])
  }

  /** No send outlives `limit` seconds: when the clock moves, every flight is still younger than that. */
  ghost predicate InTime(w: World, step: Step, limit: int) {
    step.Tick? ==> forall p | p in w.flights :: w.now + step.seconds < w.flights[p].since + limit
  }

  ghost predicate Timely(w: World, steps: seq<Step>, limit: int)
    decreases steps
  {
    steps != [] ==> InTime(w, steps[0], limit) && Timely(Next(w, steps[0]), steps[1..], limit)
  }

  /** Every send in progress owns its row, and no two serve the same pair. */
  ghost predicate FlightsOk(w: World) {
    && (forall p | p in w.flights ::
          var f := w.flights[p];
          && f.key in w.rows && w.rows[f.key].status == Processing
          && w.rows[f.key].updatedAt == f.since <= w.now < f.since + WINDOW)
    && (forall p, q | p in w.flights && q in w.flights && w.flights[p].key == w.flights[q].key :: p == q)
  }

  lemma StepKeeps(w: World, step: Step)
    requires FlightsOk(w) && InTime(w, step, WINDOW)
    ensures FlightsOk(Next(w, step))
  {
  }

  /** If every send ends or dies within five minutes of its claim, no two sends of one pair ever overlap. */
  lemma {:induction false} NoOverlap(w: World, steps: seq<Step>)
    requires FlightsOk(w) && Timely(w, steps, WINDOW)
    ensures FlightsOk(Run(w, steps))
    decreases steps
  {
    if steps != [] {
      StepKeeps(w, steps[0]);
      NoOverlap(Next(w, steps[0]), steps[1..]);
    }
  }

  predicate Delivered(rows: Deliveries, k: Key) {
    k in rows && rows[k].status == Success
  }

  function Grants(w: World, steps: seq<Step>, k: Key): nat
    decreases steps
  {
    if steps == [] then 0
    else (if Granted(w, steps[0]) && steps[0].key == k then 1 else 0) + Grants(Next(w, steps[0]), steps[1..], k)
  }

  /** A delivered pair is never claimed, hence never sent, again. */
  lemma {:induction false} DeliveredIsFinal(w: World, steps: seq<Step>, k: Key)
    requires FlightsOk(w) && Timely(w, steps, WINDOW) && Delivered(w.rows, k)
    ensures Grants(w, steps, k) == 0
    ensures k in Run(w, steps).rows && Run(w, steps).rows[k] == w.rows[k]
    decreases steps
  {
    if steps != [] {
      StepKeeps(w, steps[0]);
      DeliveredIsFinal(Next(w, steps[0]), steps[1..], k);
    }
  }

  function Attempts(rows: Deliveries, k: Key): nat {
    if k in rows then rows[k].attempts else 0
  }

  /** `attempt_count` is the number of claims granted on the pair, whatever the timing. */
  lemma {:induction false} AttemptsCountClaims(w: World, steps: seq<Step>, k: Key)
    ensures Attempts(Run(w, steps).rows, k) == Attempts(w.rows, k) + Grants(w, steps, k)
    decreases steps
  {
    if steps != [] { AttemptsCountClaims(Next(w, steps[0]), steps[1..], k); }
  }

  // ---- the five minutes are exact ------------------------------------------------------------

  /** With sends that may last up to `limit` seconds: nothing delivered is ever claimed again. */
  ghost predicate SafeUpTo(limit: int) {
    forall before, after, k ::
      Timely(EMPTY, before + after, limit) && Delivered(Run(EMPTY, before).rows, k)
      ==> Grants(Run(EMPTY, before), after, k) == 0
  }

  lemma {:induction false} TimelySplits(w: World, before: seq<Step>, after: seq<Step>, limit: int)
    requires Timely(w, before + after, limit)
    ensures Timely(w, before, limit) && Timely(Run(w, before), after, limit)
    decreases before
  {
    if before == [] {
      assert before + after == after;
    } else {
      assert (before + after)[1..] == before[1..] + after;
      TimelySplits(Next(w, before[0]), before[1..], after, limit);
    }
  }

  lemma {:induction false} TimelyWeakens(w: World, steps: seq<Step>, limit: int, more: int)
    requires Timely(w, steps, limit) && limit <= more
    ensures Timely(w, steps, more)
    decreases steps
  {
    if steps != [] { TimelyWeakens(Next(w, steps[0]), steps[1..], limit, more); }
  }

  const PAIR: Key := Key(0, 0)
  const EMPTY: World := World(map[], map[], 0)

  /** A first send lasts five minutes and succeeds; meanwhile a second scan has claimed the pair. */
  lemma SlowSend(limit: int) returns (steps: seq<Step>, end: World)
    requires limit > WINDOW
    ensures end == Run(EMPTY, steps) && Timely(EMPTY, steps, limit)
    ensures Delivered(end.rows, PAIR) && end.flights == map[1 := Flight(PAIR, end.now)]
  {
    steps := [Claim(0, PAIR), Tick(300), Claim(1, PAIR), Record(0, true)];
    var w1 := Next(EMPTY, steps[0]);
    var w2 := Next(w1, steps[1]);
    var w3 := Next(w2, steps[2]);
    end := Next(w3, steps[3]);
    Unfold(EMPTY, steps, [w1, w2, w3, end]);
    TimelyTrace(EMPTY, steps, [w1, w2, w3, end], limit);
  }

  /** The second send fails, which reopens the delivered pair to a third claim. */
  lemma LateFailureReopens(w: World, limit: int) returns (steps: seq<Step>)
    requires Delivered(w.rows, PAIR) && w.flights == map[1 := Flight(PAIR, w.now)]
    ensures Timely(w, steps, limit) && Grants(w, steps, PAIR) == 1
  {
    steps := [Record(1, false), Claim(2, PAIR)];
    var reopened := Next(w, steps[0]);
    assert steps[1..] == [Claim(2, PAIR)];
    assert Grants(reopened, steps[1..], PAIR) == 1 + Grants(Next(reopened, Claim(2, PAIR)), [], PAIR);
    TimelyTrace(w, steps, [reopened, Next(reopened, steps[1])], limit);
  }

  lemma SlowSendsRepeat(limit: int)
    requires limit > WINDOW
    ensures !SafeUpTo(limit)
  {
    var before, w := SlowSend(limit);
    var after := LateFailureReopens(w, limit);
    TimelyJoins(EMPTY, before, after, limit);
  }

  lemma {:induction false} TimelyJoins(w: World, before: seq<Step>, after: seq<Step>, limit: int)
    requires Timely(w, before, limit) && Timely(Run(w, before), after, limit)
    ensures Timely(w, before + after, limit)
    decreases before
  {
    if before == [] {
      assert before + after == after;
    } else {
      assert (before + after)[1..] == before[1..] + after;
      TimelyJoins(Next(w, before[0]), before[1..], after, limit);
    }
  }

  lemma {:induction false} Unfold(w: World, steps: seq<Step>, states: seq<World>)
    requires |states| == |steps| > 0 && states[0] == Next(w, steps[0])
    requires forall k | 0 < k < |steps| :: states[k] == Next(states[k - 1], steps[k])
    ensures Run(w, steps) == states[|states| - 1]
    decreases steps
  {
    if |steps| > 1 { Unfold(states[0], steps[1..], states[1..]); }
  }

  lemma {:induction false} TimelyTrace(w: World, steps: seq<Step>, states: seq<World>, limit: int)
    requires |states| == |steps| > 0 && states[0] == Next(w, steps[0]) && InTime(w, steps[0], limit)
    requires forall k | 0 < k < |steps| ::
               states[k] == Next(states[k - 1], steps[k]) && InTime(states[k - 1], steps[k], limit)
    ensures Timely(w, steps, limit)
    decreases steps
  {
    if |steps| > 1 { TimelyTrace(states[0], steps[1..], states[1..], limit); }
  }

  /** Deduplication holds for every schedule exactly when sends are bounded by the five-minute window. */
  lemma FiveMinutesIsExact(limit: int)
    ensures SafeUpTo(limit) <==> limit <= 300
  {
    if limit <= WINDOW {
      forall before, after, k | Timely(EMPTY, before + after, limit) && Delivered(Run(EMPTY, before).rows, k)
        ensures Grants(Run(EMPTY, before), after, k) == 0
      {
        TimelySplits(EMPTY, before, after, limit);
        TimelyWeakens(EMPTY, before, limit, WINDOW);
        TimelyWeakens(Run(EMPTY, before), after, limit, WINDOW);
        NoOverlap(EMPTY, before);
        DeliveredIsFinal(Run(EMPTY, before), after, k);
      }
    } else {
      SlowSendsRepeat(limit);
    }
  }

  // ---- what one scan may rely on -------------------------------------------------------------

  /** Delivered rows stay. */
  ghost predicate Rely(before: Deliveries, after: Deliveries) {
    forall k | Delivered(before, k) :: k in after && after[k] == before[k]
  }

  /** A scan's own send, still in progress and within its window. */
  ghost predicate StillSending(before: World, after: World, p: nat)
    requires p in before.flights
  {
    var f := before.flights[p];
    && p in after.flights && after.flights[p] == f
    && f.key in before.rows && f.key in after.rows && after.rows[f.key] == before.rows[f.key]
    && after.now < f.since + WINDOW
  }

  lemma OtherRespects(w: World, step: Step, p: nat)
    requires FlightsOk(w) && InTime(w, step, WINDOW)
    requires step.Tick? || step.scan != p
    ensures Rely(w.rows, Next(w, step).rows) && w.now <= Next(w, step).now
    ensures p in w.flights ==> StillSending(w, Next(w, step), p)
  {
    StepKeeps(w, step);
  }

  /** Whatever the other scans do, and however long, delivered rows and the row a scan is sending stay. */
  lemma {:induction false} OthersRespect(w: World, steps: seq<Step>, p: nat)
    requires FlightsOk(w) && Timely(w, steps, WINDOW)
    requires forall k | 0 <= k < |steps| :: steps[k].Tick? || steps[k].scan != p
    ensures Rely(w.rows, Run(w, steps).rows) && w.now <= Run(w, steps).now
    ensures p in w.flights ==> StillSending(w, Run(w, steps), p)
    decreases steps
  {
    if steps != [] {
      StepKeeps(w, steps[0]);
      OtherRespects(w, steps[0], p);
      OthersRespect(Next(w, steps[0]), steps[1..], p);
    }
  }
}

/**
 One forwarding scan of an account: pick the messages past the cursor, offer each to every enabled
 destination, and move the cursor only if nothing failed. Other scans of the account run in between;
 they obey the protocol of ForwardingProtocol, so this scan relies on what `OthersRespect` proves.
 The provider and the mail servers are arbitrary, and the scan may die at any commit.
 */
module ForwardingScan {
  import opened Options
  import opened ForwardingProtocol

  /** A listed message; `received` is absent when its date cannot be parsed. */
  datatype Mail = Mail(id: nat, received: Option<int>)

  datatype Config = Config(enabled: bool, windowMinutes: nat, cursor: Option<int>)

  datatype SendResult = Sent | Refused(retryable: bool)

  /** How offering one message to one destination ended. */
  datatype Attempt = AlreadyDelivered | InFlight | Succeeded | Rejected(retryable: bool) | Crashed

  /** Where the process dies during an attempt, if it does, and what the destination answers. */
  datatype Crash = Never | AfterClaim | AfterSend | AfterRecord
  datatype Fate = Fate(crash: Crash, answer: SendResult)

  /** What each attempt on a pair meets, by its number. */
  type Fates = (Key, nat) -> Fate

  datatype Tally = Tally(sent: nat, skipped: nat, failed: nat, retryable: nat)

  datatype ScanResult =
    | Completed(candidates: nat, sent: nat, skipped: nat, failed: nat, retryable: nat)
    | NotEnabled
    | DestinationMissing
    | Aborted

  predicate After(cursor: Option<int>, received: int) {
    cursor.None? || cursor.value < received
  }

  /** A message is offered unless its date is known and at or before the cursor, or before the window. */
  predicate Offered(m: Mail, cursor: Option<int>, windowStart: Option<int>) {
    m.received.Some? ==>
      After(cursor, m.received.value) && (windowStart.Some? ==> windowStart.value <= m.received.value)
  }

  function Filter(listed: seq<Mail>, cursor: Option<int>, windowStart: Option<int>): seq<Mail> {
    if listed == [] then []
    else (if Offered(listed[0], cursor, windowStart) then [listed[0]] else [])
         + Filter(listed[1..], cursor, windowStart)
  }

  /** Undated messages sort first. */
  predicate NoLater(a: Mail, b: Mail) {
    a.received.None? || (b.received.Some? && a.received.value <= b.received.value)
  }

  function Insert(m: Mail, sorted: seq<Mail>): seq<Mail> {
    if sorted == [] || NoLater(m, sorted[0]) then [m] + sorted
    else [sorted[0]] + Insert(m, sorted[1..])
  }

  function SortByReceived(ms: seq<Mail>): seq<Mail> {
    if ms == [] then [] else Insert(ms[0], SortByReceived(ms[1..]))
  }

  lemma {:induction false} InsertKeeps(m: Mail, sorted: seq<Mail>)
    ensures multiset(Insert(m, sorted)) == multiset{m} + multiset(sorted)
  {
    if !(sorted == [] || NoLater(m, sorted[0])) {
      InsertKeeps(m, sorted[1..]);
      assert sorted == [sorted[0]] + sorted[1..];
    }
  }

  predicate Ordered(ms: seq<Mail>) {
    forall i, j | 0 <= i < j < |ms| :: NoLater(ms[i], ms[j])
  }

  lemma {:induction false} InsertOrders(m: Mail, sorted: seq<Mail>)
    requires Ordered(sorted)
    ensures Ordered(Insert(m, sorted))
  {
    if sorted != [] && !NoLater(m, sorted[0]) {
      InsertOrders(m, sorted[1..]);
      var rest := Insert(m, sorted[1..]);
      InsertKeeps(m, sorted[1..]);
      forall x | x in rest ensures NoLater(sorted[0], x) {
        assert x in multiset(rest);
        if x != m { assert x in sorted[1..]; }
      }
      assert Insert(m, sorted) == [sorted[0]] + rest;
    }
  }

  /** Sorting the candidates loses none, adds none, and puts them oldest first. */
  lemma {:induction false} SortIsFaithful(ms: seq<Mail>)
    ensures multiset(SortByReceived(ms)) == multiset(ms)
    ensures |SortByReceived(ms)| == |ms|
    ensures Ordered(SortByReceived(ms))
    ensures var sorted := SortByReceived(ms);
            forall i, j | 0 <= i < j < |sorted| ::
              sorted[i].received.None?
              || (sorted[j].received.Some? && sorted[i].received.value <= sorted[j].received.value)
  {
    if ms != [] {
      SortIsFaithful(ms[1..]);
      var sorted := SortByReceived(ms[1..]);
      InsertKeeps(ms[0], sorted);
      InsertOrders(ms[0], sorted);
      assert ms == [ms[0]] + ms[1..];
      assert |multiset(SortByReceived(ms))| == |multiset(ms)|;
    }
  }

  /** What a scan offers, oldest first. */
  function Candidates(listed: seq<Mail>, cursor: Option<int>, windowStart: Option<int>): seq<Mail> {
    SortByReceived(Filter(listed, cursor, windowStart))
  }

  lemma {:induction false} FilterIsExact(listed: seq<Mail>, cursor: Option<int>, windowStart: Option<int>)
    ensures forall m :: m in Filter(listed, cursor, windowStart) <==>
                        m in listed && Offered(m, cursor, windowStart)
  {
    if listed != [] {
      FilterIsExact(listed[1..], cursor, windowStart);
      assert forall m :: m in listed <==> m == listed[0] || m in listed[1..];
    }
  }

  /** The scan takes exactly the listed messages past the cursor and inside the window. */
  lemma CandidatesAreExact(listed: seq<Mail>, cursor: Option<int>, windowStart: Option<int>)
    ensures forall m :: m in Candidates(listed, cursor, windowStart) <==>
                        m in listed && Offered(m, cursor, windowStart)
    ensures forall m :: m in Candidates(listed, cursor, windowStart) <==>
              m in listed && (m.received.Some? ==>
                                && (cursor.Some? ==> cursor.value < m.received.value)
                                && (windowStart.Some? ==> windowStart.value <= m.received.value))
  {
    var kept := Filter(listed, cursor, windowStart);
    FilterIsExact(listed, cursor, windowStart);
    SortIsFaithful(kept);
    forall m ensures m in SortByReceived(kept) <==> m in kept {
      assert m in multiset(SortByReceived(kept)) <==> m in multiset(kept);
    }
  }

  /** Every message went to every destination, apart from the pairs passed over. */
  ghost predicate AllDeliveredBut(rows: Deliveries, ms: seq<Mail>, destinations: seq<nat>, passed: set<Key>) {
    forall m, d | m in ms && d in destinations :: Delivered(rows, Key(m.id, d)) || Key(m.id, d) in passed
  }

  ghost predicate AllDelivered(rows: Deliveries, ms: seq<Mail>, destinations: seq<nat>) {
    AllDeliveredBut(rows, ms, destinations, {})
  }

  // ---- what a scan does to rows nobody else writes -------------------------------------------

  /** One pair offered: when it was reached, how that ended, and when a send, if any, was recorded. */
  datatype Visit = Visit(key: Key, at: int, ending: Attempt, done: int)

  function Offer(rows: Deliveries, v: Visit): Deliveries {
    if MayClaim(rows, v.key, v.at) then Recorded(Claimed(rows, v.key, v.at), v.key, !v.ending.Rejected?, v.done)
    else rows
  }

  function Offers(rows: Deliveries, visits: seq<Visit>): Deliveries
    decreases visits
  {
    if visits == [] then rows else Offers(Offer(rows, visits[0]), visits[1..])
  }

  lemma {:induction false} OffersJoin(rows: Deliveries, a: seq<Visit>, b: seq<Visit>)
    ensures Offers(rows, a + b) == Offers(Offers(rows, a), b)
    decreases a
  {
    if a == [] {
      assert a + b == b;
    } else {
      assert (a + b)[1..] == a[1..] + b;
      OffersJoin(Offer(rows, a[0]), a[1..], b);
    }
  }

  /** The number of sends that were refused. */
  function Refusals(visits: seq<Visit>): nat {
    if visits == [] then 0 else (if visits[0].ending.Rejected? then 1 else 0) + Refusals(visits[1..])
  }

  lemma {:induction false} RefusalsJoin(a: seq<Visit>, b: seq<Visit>)
    ensures Refusals(a + b) == Refusals(a) + Refusals(b)
  {
    if a == [] {
      assert a + b == b;
    } else {
      assert (a + b)[1..] == a[1..] + b;
      RefusalsJoin(a[1..], b);
    }
  }

  /** The counters of a scan, one visit at a time. */
  function Tallied(visits: seq<Visit>): Tally {
    if visits == [] then Tally(0, 0, 0, 0)
    else
      var rest := Tallied(visits[1..]);
      match visits[0].ending
      case Succeeded => rest.(sent := rest.sent + 1)
      case Rejected(retryable) =>
        rest.(failed := rest.failed + 1, retryable := rest.retryable + if retryable then 1 else 0)
      case _ => rest.(skipped := rest.skipped + 1)
  }

  lemma {:induction false} TalliedJoin(a: seq<Visit>, b: seq<Visit>)
    ensures var t, u := Tallied(a), Tallied(b);
            Tallied(a + b) == Tally(t.sent + u.sent, t.skipped + u.skipped, t.failed + u.failed,
                                    t.retryable + u.retryable)
  {
    if a == [] {
      assert a + b == b;
    } else {
      assert (a + b)[1..] == a[1..] + b;
      TalliedJoin(a[1..], b);
    }
  }

  /** The places among the first `n` visits that ended in a given way. */
  ghost function Places(visits: seq<Visit>, n: nat, way: Attempt -> bool): set<int>
    requires n <= |visits|
  {
    set i | 0 <= i < n && way(visits[i].ending)
  }

  lemma PlacesGrow(visits: seq<Visit>, n: nat, way: Attempt -> bool)
    requires n < |visits|
    ensures |Places(visits, n + 1, way)| == |Places(visits, n, way)| + if way(visits[n].ending) then 1 else 0
  {
    if way(visits[n].ending) {
      assert Places(visits, n + 1, way) == Places(visits, n, way) + {n};
    } else {
      assert Places(visits, n + 1, way) == Places(visits, n, way);
    }
  }

  ghost const IS_SENT: Attempt -> bool := (how: Attempt) => how.Succeeded?
  ghost const IS_REFUSED: Attempt -> bool := (how: Attempt) => how.Rejected?
  ghost const IS_RETRYABLE: Attempt -> bool := (how: Attempt) => how.Rejected? && how.retryable

  lemma {:induction false} TallyPlaces(visits: seq<Visit>, n: nat)
    requires n <= |visits|
    ensures var t := Tallied(visits[..n]);
            && t.sent == |Places(visits, n, IS_SENT)|
            && t.failed == |Places(visits, n, IS_REFUSED)|
            && t.retryable == |Places(visits, n, IS_RETRYABLE)|
            && t.sent + t.skipped + t.failed == n
  {
    if n > 0 {
      TallyPlaces(visits, n - 1);
      TalliedJoin(visits[..n - 1], [visits[n - 1]]);
      assert visits[..n] == visits[..n - 1] + [visits[n - 1]];
      assert [visits[n - 1]][1..] == [];
      PlacesGrow(visits, n - 1, IS_SENT);
      PlacesGrow(visits, n - 1, IS_REFUSED);
      PlacesGrow(visits, n - 1, IS_RETRYABLE);
    }
  }

  /** Each counter is the number of visits that ended that way. */
  lemma TallyMeans(visits: seq<Visit>)
    ensures var t := Tallied(visits);
            && t.sent == |set i | 0 <= i < |visits| && visits[i].ending.Succeeded?|
            && t.failed == |set i | 0 <= i < |visits| && visits[i].ending.Rejected?|
            && t.retryable == |set i | 0 <= i < |visits| && visits[i].ending.Rejected? && visits[i].ending.retryable|
            && t.sent + t.skipped + t.failed == |visits|
  {
    TallyPlaces(visits, |visits|);
    assert visits[..|visits|] == visits;
    assert (set i | 0 <= i < |visits| && visits[i].ending.Succeeded?) == Places(visits, |visits|, IS_SENT);
    assert (set i | 0 <= i < |visits| && visits[i].ending.Rejected?) == Places(visits, |visits|, IS_REFUSED);
    assert (set i | 0 <= i < |visits| && visits[i].ending.Rejected? && visits[i].ending.retryable)
        == Places(visits, |visits|, IS_RETRYABLE);
  }

  /** The pairs found in progress. */
  function PassedOver(visits: seq<Visit>): set<Key> {
    set v | v in visits && v.ending.InFlight? :: v.key
  }

  function KeysOf(visits: seq<Visit>): seq<Key> {
    seq(|visits|, i requires 0 <= i < |visits| => visits[i].key)
  }

  function RowOf(m: Mail, destinations: seq<nat>): seq<Key> {
    seq(|destinations|, i requires 0 <= i < |destinations| => Key(m.id, destinations[i]))
  }

  /** The pairs of a scan in the order it offers them. */
  function PairsOf(ms: seq<Mail>, destinations: seq<nat>): seq<Key> {
    if ms == [] then [] else PairsOf(ms[..|ms| - 1], destinations) + RowOf(ms[|ms| - 1], destinations)
  }

  /** The cursor, moved to the newest date past it. */
  function NewestDate(start: Option<int>, ms: seq<Mail>): Option<int> {
    if ms == [] then start
    else
      var before, last := NewestDate(start, ms[..|ms| - 1]), ms[|ms| - 1];
      if last.received.Some? && After(before, last.received.value) then last.received else before
  }

  lemma {:induction false} NewestIsLatest(start: Option<int>, ms: seq<Mail>)
    ensures IsLatest(NewestDate(start, ms), start, ms)
  {
    if ms != [] {
      NewestIsLatest(start, ms[..|ms| - 1]);
      LatestGrows(NewestDate(start, ms[..|ms| - 1]), start, ms[..|ms| - 1], ms[|ms| - 1]);
      assert ms == ms[..|ms| - 1] + [ms[|ms| - 1]];
    }
  }

  lemma LatestIsNewest(latest: Option<int>, start: Option<int>, ms: seq<Mail>)
    requires IsLatest(latest, start, ms)
    ensures latest == NewestDate(start, ms)
  {
    NewestIsLatest(start, ms);
  }

  /** A scan without a refused send, on rows nobody else writes: what it leaves is a function of its visits. */
  ghost predicate FaultlessScan(before: Deliveries, start: Option<int>, scanned: seq<Mail>, destinations: seq<nat>,
                                visits: seq<Visit>, after: Deliveries, cursor: Option<int>) {
    && KeysOf(visits) == PairsOf(scanned, destinations) && Refusals(visits) == 0
    && after == Offers(before, visits)
    && cursor == NewestDate(start, scanned)
  }

  /** A cursor a scan writes: the newest date it scanned, all it scanned delivered but the pairs passed over. */
  ghost predicate ScanWrites(start: Option<int>, scanned: seq<Mail>, destinations: seq<nat>, passed: set<Key>,
                             after: Deliveries, cursor: Option<int>) {
    && cursor.Some? && After(start, cursor.value) && IsLatest(cursor, start, scanned)
    && AllDeliveredBut(after, scanned, destinations, passed)
  }

  /** What a scan does to rows and cursor unless it passed over a foreign send. */
  ghost predicate ScanMoves(before: Deliveries, start: Option<int>, after: Deliveries, cursor: Option<int>,
                            scanned: seq<Mail>, destinations: seq<nat>) {
    && Rely(before, after)
    && (cursor == start
        || (IsLatest(cursor, start, scanned) && AllDelivered(after, scanned, destinations)))
  }

  // ---- the service ---------------------------------------------------------------------------

  /** `latest` is the cursor, or the newest date among `ms` if that is past the cursor. */
  ghost predicate IsLatest(latest: Option<int>, start: Option<int>, ms: seq<Mail>) {
    && (latest == start || (latest.Some? && After(start, latest.value)
                            && exists m :: m in ms && m.received == latest))
    && (forall m | m in ms && m.received.Some? :: !After(latest, m.received.value))
  }

  class Forwarding {
    var rows: Deliveries
    var config: Option<Config>
    var now: int

    constructor (config: Config, now: int)
      ensures rows == map[] && this.config == Some(config) && this.now == now
    {
      this.rows, this.config, this.now := map[], Some(config), now;
    }

    /**
     Whatever other transactions do between two commits of this scan. Delivered rows stay; while this
     scan is sending, its row stays too, because the send ends within the window. If `alone`, nobody
     else writes the account's forwarding configuration meanwhile; if `quiet`, nor its delivery rows.
     */
    method Interfere(mine: Option<Flight>, alone: bool, quiet: bool)
      requires mine.Some? ==> now < mine.value.since + WINDOW
      modifies this
      ensures Rely(old(rows), rows) && old(now) <= now
      ensures mine.Some? ==> now < mine.value.since + WINDOW
      ensures mine.Some? && mine.value.key in old(rows) ==>
                mine.value.key in rows && rows[mine.value.key] == old(rows[mine.value.key])
      ensures alone ==> config == old(config)
      ensures quiet ==> rows == old(rows)
    {
    }

    method ResetCursor(cursor: Option<int>) returns (res: Result<(), ()>)
      modifies this`config
      ensures res.Ok? <==> old(config).Some?
      ensures config == if old(config).Some? then Some(old(config).value.(cursor := cursor)) else None
    {
      if config.None? { return Err(()); }
      config := Some(config.value.(cursor := cursor));
      res := Ok(());
    }

    /** Takes the pair for this scan, unless it is delivered or being served. */
    method ClaimDelivery(k: Key) returns (granted: bool)
      modifies this`rows
      ensures granted <==> MayClaim(old(rows), k, now)
      ensures rows == if granted then Claimed(old(rows), k, now) else old(rows)
      ensures granted <==> k !in old(rows) || old(rows)[k].status == Failed
                           || (old(rows)[k].status == Processing && old(rows)[k].updatedAt <= now - 300)
      ensures granted ==>
                rows == old(rows)[k := if k in old(rows)
                                       then Delivery(Processing, old(rows)[k].attempts + 1, now, old(rows)[k].sentAt)
                                       else Delivery(Processing, 1, now, None)]
    {
      if k in rows && rows[k].status == Success { return false; }
      if k in rows && rows[k].status == Processing && rows[k].updatedAt > now - WINDOW { return false; }
      if k !in rows {
        rows := rows[k := Delivery(Processing, 1, now, None)];
      } else {
        rows := rows[k := rows[k].(status := Processing, attempts := rows[k].attempts + 1, updatedAt := now)];
      }
      granted := true;
    }

    /** One message to one destination: claim, send, record. */
    method ForwardOne(k: Key, fates: Fates, alone: bool, quiet: bool) returns (how: Attempt, ghost visit: Visit)
      modifies this
      ensures Rely(old(rows), rows) && old(now) <= now
      ensures alone ==> config == old(config)
      ensures how.AlreadyDelivered? <==> Delivered(old(rows), k)
      ensures how.AlreadyDelivered? <==> k in old(rows) && old(rows)[k].status == Success
      ensures how.InFlight? <==>
                k in old(rows) && old(rows)[k].status == Processing && old(rows)[k].updatedAt > old(now) - 300
      ensures how.Succeeded? ==> k in rows && rows[k].status == Success
      ensures how.InFlight? <==> InProgress(old(rows), k, old(now))
      ensures how.AlreadyDelivered? || how.InFlight? ==> rows == old(rows)
      ensures how.Succeeded? ==> Delivered(rows, k) && rows[k].sentAt.Some?
      ensures how.Rejected? ==> k in rows && rows[k].status == Failed && rows[k].sentAt.None?
      ensures how.Succeeded? || how.Rejected? ==> rows[k].updatedAt == now
      ensures how.Succeeded? ==> rows[k].sentAt == Some(now)
      ensures how.Succeeded? || how.Rejected? ==> Attempts(rows, k) == Attempts(old(rows), k) + 1
      // The row follows what the destination answered, or shows where the process died.
      ensures var fate := fates(k, Attempts(old(rows), k) + 1);
              && (how.Succeeded? ==> fate.answer.Sent?)
              && (how.Rejected? ==> fate.answer == Refused(how.retryable))
              && (how.Crashed? <==> !how.AlreadyDelivered? && !how.InFlight? && !fate.crash.Never?)
              && (how.Crashed? ==>
                    && k in rows && rows[k].attempts == Attempts(old(rows), k) + 1
                    && rows[k].status == if !fate.crash.AfterRecord? then Processing
                                         else if fate.answer.Sent? then Success else Failed)
      ensures visit.key == k && visit.at == old(now)
      ensures visit.ending == how
      ensures !how.Crashed? ==> (quiet ==> rows == Offer(old(rows), visit))
    {
      visit := Visit(k, now, Crashed, now);
      var granted := ClaimDelivery(k);
      if !granted {
        how := if rows[k].status == Success then AlreadyDelivered else InFlight;
        visit := visit.(ending := how);
        return;
      }
      var since := now;
      var fate := fates(k, rows[k].attempts);
      if fate.crash.AfterClaim? { how := Crashed; return; }
      Interfere(Some(Flight(k, since)), alone, quiet);
      if fate.crash.AfterSend? { how := Crashed; return; }
      if k in rows {
        rows := Recorded(rows, k, fate.answer.Sent?, now);
        visit := visit.(done := now);
      }
      if fate.crash.AfterRecord? { how := Crashed; return; }
      match fate.answer {
        case Sent => how := Succeeded;
        case Refused(retryable) => how := Rejected(retryable);
      }
      visit := visit.(ending := how);
    }

    /** One message to every destination; `passed` are the pairs another scan was sending. */
    method ForwardMessage(m: Mail, destinations: seq<nat>, fates: Fates, alone: bool, quiet: bool)
      returns (tally: Tally, ghost passed: set<Key>, ghost visits: seq<Visit>, crashed: bool)
      modifies this
      ensures Rely(old(rows), rows) && old(now) <= now
      ensures alone ==> config == old(config)
      ensures !crashed ==>
                && tally.sent + tally.skipped + tally.failed == |destinations|
                && (tally.failed == 0 ==> AllDeliveredBut(rows, [m], destinations, passed))
                && KeysOf(visits) == RowOf(m, destinations) && Refusals(visits) == tally.failed
                && tally == Tallied(visits) && passed == PassedOver(visits)
                && (quiet ==> rows == Offers(old(rows), visits))
      ensures (forall k, n :: fates(k, n).crash.Never?) ==> !crashed
    {
      tally, passed, visits, crashed := Tally(0, 0, 0, 0), {}, [], false;
      for n := 0 to |destinations|
        invariant Rely(old(rows), rows) && old(now) <= now
        invariant alone ==> config == old(config)
        invariant tally.sent + tally.skipped + tally.failed == n
        invariant tally.failed == 0 ==> AllDeliveredBut(rows, [m], destinations[..n], passed)
        invariant Tells(visits, RowOf(m, destinations)[..n], tally, passed)
        invariant quiet ==> rows == Offers(old(rows), visits)
      {
        ghost var before, earlier := rows, passed;
        var how, visit := ForwardOne(Key(m.id, destinations[n]), fates, alone, quiet);
        match how {
          case AlreadyDelivered => tally := tally.(skipped := tally.skipped + 1);
          case InFlight => tally, passed := tally.(skipped := tally.skipped + 1), passed + {Key(m.id, destinations[n])};
          case Succeeded => tally := tally.(sent := tally.sent + 1);
          case Rejected(retryable) =>
            tally := tally.(failed := tally.failed + 1,
                            retryable := tally.retryable + if retryable then 1 else 0);
          case Crashed => crashed := true; return;
        }
        VisitsGrow(old(rows), visits, visit, m, destinations, n);
        visits := visits + [visit];
        if tally.failed == 0 { DestinationDone(m, destinations, n, before, earlier, rows, passed); }
        Interfere(None, alone, quiet);
      }
      assert destinations[..|destinations|] == destinations;
    }

    /** Offers every candidate to every destination, oldest first, and follows the newest date without a failure. */
    method OfferAll(candidates: seq<Mail>, destinations: seq<nat>, cursor: Option<int>, fetches: nat -> bool,
                    fates: Fates, alone: bool, quiet: bool)
      returns (total: Tally, latest: Option<int>, ghost passed: set<Key>, ghost visits: seq<Visit>, aborted: bool)
      modifies this
      ensures Rely(old(rows), rows) && old(now) <= now
      ensures alone ==> config == old(config)
      ensures !aborted ==>
                && total.sent + total.skipped + total.failed == |candidates| * |destinations|
                && KeysOf(visits) == PairsOf(candidates, destinations) && Refusals(visits) == total.failed
                && total == Tallied(visits) && passed == PassedOver(visits)
                && (quiet ==> rows == Offers(old(rows), visits))
      ensures !aborted && total.failed == 0 ==>
                IsLatest(latest, cursor, candidates) && AllDeliveredBut(rows, candidates, destinations, passed)
      ensures (forall k, n :: fates(k, n).crash.Never?) && (forall n | 0 <= n < |candidates| :: fetches(n)) ==> !aborted
    {
      total, latest, passed, visits, aborted := Tally(0, 0, 0, 0), cursor, {}, [], false;
      for n := 0 to |candidates|
        invariant Rely(old(rows), rows) && old(now) <= now
        invariant alone ==> config == old(config)
        invariant total.failed == 0 ==> IsLatest(latest, cursor, candidates[..n])
        invariant total.failed == 0 ==> AllDeliveredBut(rows, candidates[..n], destinations, passed)
        invariant Tells(visits, PairsOf(candidates[..n], destinations), total, passed)
        invariant quiet ==> rows == Offers(old(rows), visits)
      {
        var item := candidates[n];
        if !fetches(n) { aborted := true; return; }
        ghost var before, earlier := rows, passed;
        var tally, inFlight, offered, crashed := ForwardMessage(item, destinations, fates, alone, quiet);
        if crashed { aborted := true; return; }
        MessageVisits(old(rows), candidates, n, destinations, visits, total, passed, offered, tally, inFlight);
        passed := passed + inFlight;
        total := Tally(total.sent + tally.sent, total.skipped + tally.skipped,
                       total.failed + tally.failed, total.retryable + tally.retryable);
        visits := visits + offered;
        ghost var previous := latest;
        if tally.failed == 0 && item.received.Some? && (latest.None? || latest.value < item.received.value) {
          latest := item.received;
        }
        assert candidates[..n + 1] == candidates[..n] + [item];
        if total.failed == 0 {
          LatestGrows(previous, cursor, candidates[..n], item);
          MessageDone(candidates, n, destinations, before, earlier, rows, inFlight);
        }
      }
      assert candidates[..|candidates|] == candidates;
      TallyMeans(visits);
      PairsCount(candidates, destinations);
    }

    /**
     A whole scan. `destinations` are the account's enabled destinations and `listed` what the provider
     returned for its folders, if it answered; `fetches` and `fates` say which candidates can be fetched
     and what each attempt meets. `start`, `scanned`, `passed` and `visits` are what the
     scan saw: the cursor it read, its candidates, the pairs it passed over because another scan was
     sending them, and each pair it offered.
     */
    method RunForwardingAccount(accountExists: bool, destinations: seq<nat>, listed: Option<seq<Mail>>,
                                fetches: nat -> bool, fates: Fates, alone: bool, quiet: bool)
      returns (result: ScanResult, moved: Option<int>, ghost start: Option<int>, ghost scanned: seq<Mail>,
               ghost passed: set<Key>, ghost visits: seq<Visit>)
      modifies this
      ensures Rely(old(rows), rows) && old(now) <= now
      // Which scans run at all.
      ensures result.NotEnabled? <==> !accountExists || old(config).None? || !old(config).value.enabled
      ensures result.DestinationMissing? <==> !result.NotEnabled? && destinations == []
      ensures result.NotEnabled? || result.DestinationMissing? ==> rows == old(rows) && config == old(config)
      // A scan is cut short only if the provider does not list, a message cannot be fetched or the process dies.
      ensures result.Aborted? ==>
                || listed.None?
                || (exists n :: 0 <= n < |scanned| && !fetches(n))
                || (exists k, n :: !fates(k, n).crash.Never?)
      ensures listed.None? ==> !result.Completed?
      // What a completed scan looked at, and that every offer was counted once.
      ensures result.Completed? ==>
                && listed.Some? && start == old(config).value.cursor
                && scanned == Candidates(listed.value, start, WindowStart(old(config).value, old(now)))
                && result.candidates == |scanned|
                && result.sent + result.skipped + result.failed == |scanned| * |destinations|
                && KeysOf(visits) == PairsOf(scanned, destinations) && Refusals(visits) == result.failed
                && result.sent == |set i | 0 <= i < |visits| && visits[i].ending.Succeeded?|
                && result.failed == |set i | 0 <= i < |visits| && visits[i].ending.Rejected?|
                && result.retryable
                   == |set i | 0 <= i < |visits| && visits[i].ending.Rejected? && visits[i].ending.retryable|
                && (forall k | k in passed ::
                      exists i :: 0 <= i < |visits| && visits[i].key == k && visits[i].ending.InFlight?)
      // On rows nobody else writes, exactly what its visits make of them.
      ensures result.Completed? && quiet ==> rows == Offers(old(rows), visits)
      ensures result.Completed? && alone && quiet && result.failed == 0 ==>
                && config.Some?
                && FaultlessScan(old(rows), start, scanned, destinations, visits, rows, config.value.cursor)
      // A failed or aborted scan never moves the cursor.
      ensures !result.Completed? || result.failed > 0 ==> moved.None?
      ensures moved.None? && alone ==> config == old(config)
      // A moved cursor went forward, to the newest date scanned, past nothing undelivered but the pairs passed over.
      ensures moved.Some? ==>
                && config.Some? && config.value.cursor == moved
                && ScanWrites(start, scanned, destinations, passed, rows, moved)
      ensures moved.Some? && alone ==> config == Some(old(config).value.(cursor := moved))
      // The same in the columns: which messages are scanned, and what is true of a moved cursor.
      ensures result.Completed? ==>
                var c, w, n := old(config).value.cursor, old(config).value.windowMinutes, old(now);
                forall m :: m in scanned <==>
                  m in listed.value && (m.received.Some? ==>
                                          && (c.Some? ==> c.value < m.received.value)
                                          && (w == 0 || n - m.received.value <= 60 * w))
      ensures moved.Some? ==>
                && (exists m :: m in scanned && m.received == moved)
                && (forall m | m in scanned && m.received.Some? :: m.received.value <= moved.value)
                && (old(config).value.cursor.Some? ==> old(config).value.cursor.value < moved.value)
                && (forall m, d | m in scanned && d in destinations && Key(m.id, d) !in passed ::
                      Key(m.id, d) in rows && rows[Key(m.id, d)].status == Success)
      ensures result.Completed? && alone && passed == {} ==>
                config.Some? && ScanMoves(old(rows), start, rows, config.value.cursor, scanned, destinations)
      // And it does move whenever it may.
      ensures alone && result.Completed? && result.failed == 0 && moved.None? ==> IsLatest(start, start, scanned)
    {
      moved, start, scanned, passed, visits := None, None, [], {}, [];
      if !accountExists || config.None? || !config.value.enabled { result := NotEnabled; return; }
      if destinations == [] { result := DestinationMissing; return; }
      var cursor := config.value.cursor;
      var windowStart := WindowStart(config.value, now);
      start := cursor;
      Interfere(None, alone, quiet);
      if listed.None? { result := Aborted; return; }
      var candidates := Candidates(listed.value, cursor, windowStart);
      scanned := candidates;
      CandidatesAreExact(listed.value, cursor, windowStart);
      var total, latest, aborted;
      total, latest, passed, visits, aborted := OfferAll(candidates, destinations, cursor, fetches,
                                                           fates, alone, quiet);
      if aborted { result := Aborted; return; }
      TallyMeans(visits);
      result := Completed(|candidates|, total.sent, total.skipped, total.failed, total.retryable);
      if total.failed == 0 { LatestIsNewest(latest, cursor, candidates); }
      if total.failed == 0 && latest.Some? && latest != cursor {
        if config.Some? {
          config := Some(config.value.(cursor := latest));
          moved := latest;
        }
      }
    }
  }

  lemma DestinationDone(m: Mail, destinations: seq<nat>, n: nat, before: Deliveries, earlier: set<Key>,
                        after: Deliveries, passed: set<Key>)
    requires n < |destinations| && Rely(before, after) && earlier <= passed
    requires AllDeliveredBut(before, [m], destinations[..n], earlier)
    requires Delivered(after, Key(m.id, destinations[n])) || Key(m.id, destinations[n]) in passed
    ensures AllDeliveredBut(after, [m], destinations[..n + 1], passed)
  {
    forall x, d | x in [m] && d in destinations[..n + 1]
      ensures Delivered(after, Key(x.id, d)) || Key(x.id, d) in passed
    {
      if d != destinations[n] { assert d in destinations[..n]; }
    }
  }

  lemma MessageDone(ms: seq<Mail>, n: nat, destinations: seq<nat>, before: Deliveries, earlier: set<Key>,
                    after: Deliveries, more: set<Key>)
    requires n < |ms| && Rely(before, after)
    requires AllDeliveredBut(before, ms[..n], destinations, earlier)
    requires AllDeliveredBut(after, [ms[n]], destinations, more)
    ensures AllDeliveredBut(after, ms[..n + 1], destinations, earlier + more)
  {
    forall x, d | x in ms[..n + 1] && d in destinations
      ensures Delivered(after, Key(x.id, d)) || Key(x.id, d) in earlier + more
    {
      if x in ms[..n] {
        assert Delivered(before, Key(x.id, d)) || Key(x.id, d) in earlier;
      } else {
        assert x in [ms[n]];
      }
    }
  }

  lemma PassedJoin(a: seq<Visit>, b: seq<Visit>)
    ensures PassedOver(a + b) == PassedOver(a) + PassedOver(b)
  {
    forall k ensures k in PassedOver(a + b) <==> k in PassedOver(a) || k in PassedOver(b) {
      if k in PassedOver(a) {
        var v :| v in a && v.ending.InFlight? && v.key == k;
        assert v in a + b;
      }
      if k in PassedOver(b) {
        var v :| v in b && v.ending.InFlight? && v.key == k;
        assert v in a + b;
      }
    }
  }

  lemma VisitsGrow(rows: Deliveries, visits: seq<Visit>, visit: Visit, m: Mail, destinations: seq<nat>, n: nat)
    requires n < |destinations| && KeysOf(visits) == RowOf(m, destinations)[..n]
    requires visit.key == Key(m.id, destinations[n])
    ensures KeysOf(visits + [visit]) == RowOf(m, destinations)[..n + 1]
    ensures Offers(rows, visits + [visit]) == Offer(Offers(rows, visits), visit)
    ensures PassedOver(visits + [visit]) == PassedOver(visits) + if visit.ending.InFlight? then {visit.key} else {}
    ensures var t, u := Tallied(visits), Tallied([visit]);
            Tallied(visits + [visit])
            == Tally(t.sent + u.sent, t.skipped + u.skipped, t.failed + u.failed, t.retryable + u.retryable)
    ensures Refusals(visits + [visit]) == Refusals(visits) + if visit.ending.Rejected? then 1 else 0
  {
    OffersJoin(rows, visits, [visit]);
    RefusalsJoin(visits, [visit]);
    TalliedJoin(visits, [visit]);
    PassedJoin(visits, [visit]);
    assert [visit][1..] == [];
  }

  /** What a list of visits tells: the pairs, the counters, and the pairs passed over. */
  ghost predicate Tells(visits: seq<Visit>, pairs: seq<Key>, tally: Tally, passed: set<Key>) {
    && KeysOf(visits) == pairs && Refusals(visits) == tally.failed
    && Tallied(visits) == tally && PassedOver(visits) == passed
  }

  lemma MessageVisits(rows: Deliveries, ms: seq<Mail>, n: nat, destinations: seq<nat>, visits: seq<Visit>, t: Tally,
                      passed: set<Key>, offered: seq<Visit>, u: Tally, more: set<Key>)
    requires n < |ms| && Tells(visits, PairsOf(ms[..n], destinations), t, passed)
    requires Tells(offered, RowOf(ms[n], destinations), u, more)
    ensures Offers(rows, visits + offered) == Offers(Offers(rows, visits), offered)
    ensures Tells(visits + offered, PairsOf(ms[..n + 1], destinations),
                  Tally(t.sent + u.sent, t.skipped + u.skipped, t.failed + u.failed, t.retryable + u.retryable),
                  passed + more)
  {
    OffersJoin(rows, visits, offered);
    RefusalsJoin(visits, offered);
    TalliedJoin(visits, offered);
    PassedJoin(visits, offered);
    PairsGrow(ms, n, destinations, visits, offered);
  }

  lemma {:induction false} PairsCount(ms: seq<Mail>, destinations: seq<nat>)
    ensures |PairsOf(ms, destinations)| == |ms| * |destinations|
  {
    if ms != [] {
      PairsCount(ms[..|ms| - 1], destinations);
      assert |ms| * |destinations| == (|ms| - 1) * |destinations| + |destinations|;
    }
  }

  lemma PairsGrow(ms: seq<Mail>, n: nat, destinations: seq<nat>, visits: seq<Visit>, offered: seq<Visit>)
    requires n < |ms| && KeysOf(visits) == PairsOf(ms[..n], destinations)
    requires KeysOf(offered) == RowOf(ms[n], destinations)
    ensures KeysOf(visits + offered) == PairsOf(ms[..n + 1], destinations)
  {
    assert ms[..n + 1][..n] == ms[..n];
    assert KeysOf(visits + offered) == KeysOf(visits) + KeysOf(offered);
  }

  function WindowStart(config: Config, now: int): Option<int> {
    if config.windowMinutes == 0 then None else Some(now - 60 * config.windowMinutes)
  }

  lemma LatestGrows(latest: Option<int>, start: Option<int>, ms: seq<Mail>, m: Mail)
    requires IsLatest(latest, start, ms)
    ensures IsLatest(if m.received.Some? && After(latest, m.received.value) then m.received else latest,
                     start, ms + [m])
  {
    assert m in ms + [m];
    assert forall x | x in ms :: x in ms + [m];
    assert forall x | x in ms + [m] :: x in ms || x == m;
  }
}

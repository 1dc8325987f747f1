/**
 What the cursor of an account leaves behind it: over whole histories of scans, and exactly, for one
 faultless scan whose delivery rows nobody else writes.
 */
module ForwardingCoverage {
  import opened Options
  import opened ForwardingProtocol
  import opened ForwardingScan

  predicate Dated(m: Mail, from: Option<int>, to: Option<int>) {
    m.received.Some? && After(from, m.received.value) && to.Some? && m.received.value <= to.value
  }

  /** The cursor skips no work: everything dated after `origin` and up to it has been delivered everywhere. */
  ghost predicate Covers(rows: Deliveries, mailbox: set<Mail>, origin: Option<int>, cursor: Option<int>,
                         destinations: seq<nat>) {
    forall m, d | m in mailbox && Dated(m, origin, cursor) && d in destinations :: Delivered(rows, Key(m.id, d))
  }

  // ---- whole histories -----------------------------------------------------------------------

  /** Deliveries, the cursor and the mailbox between two events. */
  datatype Moment = Moment(rows: Deliveries, cursor: Option<int>, mailbox: set<Mail>)

  /**
   Mail comes and goes, whatever its date; the cursor is reset, either way; or a scan moves it. `start`
   is the cursor the scan read, `passed` the pairs it passed over. Mail that appears after the listing
   comes after the scan. A scan that moves nothing is no event.
   */
  datatype Event =
    | MailChanges
    | Reset
    | Scan(start: Option<int>, listed: seq<Mail>, windowStart: Option<int>, passed: set<Key>)

  ghost predicate Follows(a: Moment, e: Event, b: Moment, destinations: seq<nat>) {
    && Rely(a.rows, b.rows)
    && match e
       case MailChanges => b.cursor == a.cursor
       case Reset => b.mailbox == a.mailbox
       case Scan(start, listed, windowStart, passed) =>
         && b.mailbox == a.mailbox
         && ScanWrites(start, Candidates(listed, start, windowStart), destinations, passed, b.rows, b.cursor)
  }

  /**
   The ways to leave a pair behind: the message comes dated at or before the cursor, a reset goes past
   it, or a scan moves the cursor past it without its being listed, offered and free of a foreign send.
   */
  predicate Skips(a: Moment, e: Event, b: Moment, m: Mail, d: nat) {
    match e
    case MailChanges => m in b.mailbox && m !in a.mailbox && Dated(m, None, a.cursor)
    case Reset => Dated(m, a.cursor, b.cursor)
    case Scan(start, listed, windowStart, passed) =>
      && Dated(m, a.cursor, b.cursor)
      && (m !in listed || !Offered(m, start, windowStart) || Key(m.id, d) in passed)
  }

  ghost predicate History(moments: seq<Moment>, events: seq<Event>, destinations: seq<nat>) {
    && |moments| == |events| + 1
    && forall i | 0 <= i < |events| :: Follows(moments[i], events[i], moments[i + 1], destinations)
  }

  ghost predicate SkippedBefore(moments: seq<Moment>, events: seq<Event>, n: nat, m: Mail, d: nat)
    requires |moments| == |events| + 1 && n < |moments|
  {
    exists i :: 0 <= i < n && Skips(moments[i], events[i], moments[i + 1], m, d)
  }

  /** One event: a pair up to the new cursor is delivered, skipped now, or was up to the old cursor before. */
  lemma EventDelivers(a: Moment, e: Event, b: Moment, origin: Option<int>, destinations: seq<nat>, m: Mail, d: nat)
    requires Follows(a, e, b, destinations) && m in b.mailbox && d in destinations && Dated(m, origin, b.cursor)
    ensures Delivered(b.rows, Key(m.id, d)) || Skips(a, e, b, m, d) || (m in a.mailbox && Dated(m, origin, a.cursor))
  {
    if e.Scan? && Dated(m, a.cursor, b.cursor) {
      CandidatesAreExact(e.listed, e.start, e.windowStart);
    }
  }

  /**
   Over every history of such events, whatever came late, failed or died on the way: a message between
   the first cursor and the last has a success row for a destination, or some event skipped the pair.
   */
  lemma {:induction false} SkippedOrDelivered(moments: seq<Moment>, events: seq<Event>, destinations: seq<nat>, n: nat,
                                              m: Mail, d: nat)
    requires History(moments, events, destinations) && n < |moments|
    requires m in moments[n].mailbox && d in destinations && Dated(m, moments[0].cursor, moments[n].cursor)
    ensures Delivered(moments[n].rows, Key(m.id, d)) || SkippedBefore(moments, events, n, m, d)
  {
    if n > 0 {
      var a, e, b := moments[n - 1], events[n - 1], moments[n];
      EventDelivers(a, e, b, moments[0].cursor, destinations, m, d);
      if !Skips(a, e, b, m, d) && m in a.mailbox && Dated(m, moments[0].cursor, a.cursor) {
        SkippedOrDelivered(moments, events, destinations, n - 1, m, d);
        assert Follows(a, e, b, destinations);
      }
    }
  }

  predicate NotPast(a: Option<int>, b: Option<int>) {
    a.Some? ==> b.Some? && a.value <= b.value
  }

  /**
   A reset sets the cursor back. A scan read the cursor before anyone moved it on, lists every message it
   passes inside its window, and passes over no foreign send.
   */
  ghost predicate Careful(a: Moment, e: Event, b: Moment) {
    match e
    case MailChanges => true
    case Reset => NotPast(b.cursor, a.cursor)
    case Scan(start, listed, windowStart, passed) =>
      && NotPast(start, a.cursor) && passed == {}
      && forall m | m in a.mailbox && Dated(m, a.cursor, b.cursor) :: m in listed && InWindow(m, windowStart)
  }

  /** With such resets and scans the only mail the cursor skips is what came dated up to it. */
  lemma CursorSkipsOnlyLateMail(moments: seq<Moment>, events: seq<Event>, destinations: seq<nat>, n: nat)
    requires History(moments, events, destinations) && n < |moments|
    requires forall i | 0 <= i < |events| :: Careful(moments[i], events[i], moments[i + 1])
    ensures forall m, d | m in moments[n].mailbox && d in destinations
                          && Dated(m, moments[0].cursor, moments[n].cursor) ::
              Delivered(moments[n].rows, Key(m.id, d)) || CameLate(moments, events, n, m)
  {
    forall m, d | m in moments[n].mailbox && d in destinations && Dated(m, moments[0].cursor, moments[n].cursor)
      ensures Delivered(moments[n].rows, Key(m.id, d)) || CameLate(moments, events, n, m)
    {
      CompleteOrLate(moments, events, destinations, n, m, d);
    }
  }

  /** The message came when the cursor had already reached its date. */
  ghost predicate CameLate(moments: seq<Moment>, events: seq<Event>, n: nat, m: Mail)
    requires |moments| == |events| + 1 && n < |moments|
  {
    exists i :: 0 <= i < n && events[i].MailChanges? && m !in moments[i].mailbox && m in moments[i + 1].mailbox
                && Dated(m, None, moments[i].cursor)
  }

  lemma {:induction false} CompleteOrLate(moments: seq<Moment>, events: seq<Event>, destinations: seq<nat>, n: nat,
                                          m: Mail, d: nat)
    requires History(moments, events, destinations) && n < |moments|
    requires forall i | 0 <= i < |events| :: Careful(moments[i], events[i], moments[i + 1])
    requires m in moments[n].mailbox && d in destinations && Dated(m, moments[0].cursor, moments[n].cursor)
    ensures Delivered(moments[n].rows, Key(m.id, d)) || CameLate(moments, events, n, m)
  {
    if n > 0 {
      var a, e, b := moments[n - 1], events[n - 1], moments[n];
      EventDelivers(a, e, b, moments[0].cursor, destinations, m, d);
      if m in a.mailbox && Dated(m, moments[0].cursor, a.cursor) {
        CompleteOrLate(moments, events, destinations, n - 1, m, d);
        assert Follows(a, e, b, destinations);
      }
    }
  }

  // ---- mail that comes late ------------------------------------------------------------------

  /** A change of the mailbox keeps the coverage if and only if whatever comes dated up to the cursor is delivered. */
  lemma ArrivalKeepsCoverageIff(a: Moment, b: Moment, origin: Option<int>, destinations: seq<nat>)
    requires Follows(a, MailChanges, b, destinations) && Covers(a.rows, a.mailbox, origin, a.cursor, destinations)
    ensures Covers(b.rows, b.mailbox, origin, b.cursor, destinations) <==>
            forall m, d | m in b.mailbox && m !in a.mailbox && Dated(m, origin, a.cursor) && d in destinations ::
              Delivered(b.rows, Key(m.id, d))
  {
    forall m, d | m in a.mailbox && Dated(m, origin, a.cursor) && d in destinations
      ensures Delivered(b.rows, Key(m.id, d))
    {
      assert Delivered(a.rows, Key(m.id, d));
    }
  }

  /**
   A message that comes dated up to the cursor, in the same second say, or moved into the folder, and has
   no success row: the coverage is lost, and no scan offers it until a reset goes back before its date.
   */
  lemma LateMailIsLost(rows: Deliveries, mailbox: set<Mail>, origin: Option<int>, cursor: Option<int>, m: Mail,
                       destinations: seq<nat>, d: nat)
    requires Covers(rows, mailbox, origin, cursor, destinations)
    requires Dated(m, origin, cursor) && d in destinations && !Delivered(rows, Key(m.id, d))
    ensures m !in mailbox && !Covers(rows, mailbox + {m}, origin, cursor, destinations)
    ensures forall later, listed, windowStart ::
              m in Candidates(listed, later, windowStart) ==> After(later, m.received.value)
    ensures forall listed, windowStart :: m !in Candidates(listed, cursor, windowStart)
  {
    assert m in mailbox + {m};
    forall later, listed, windowStart
      ensures m in Candidates(listed, later, windowStart) ==> After(later, m.received.value)
    {
      CandidatesAreExact(listed, later, windowStart);
    }
  }

  // ---- which pairs a faultless scan delivers -------------------------------------------------

  /** Some visit found the pair free of a foreign send. */
  ghost predicate Reached(rows: Deliveries, visits: seq<Visit>, k: Key) {
    exists i :: 0 <= i < |visits| && visits[i].key == k && !InProgress(rows, k, visits[i].at)
  }

  lemma {:induction false} DeliveredIffReached(rows: Deliveries, visits: seq<Visit>, k: Key)
    requires Refusals(visits) == 0
    ensures Delivered(Offers(rows, visits), k) <==> Delivered(rows, k) || Reached(rows, visits, k)
    decreases visits
  {
    if visits != [] {
      var v, rest, next := visits[0], visits[1..], Offer(rows, visits[0]);
      DeliveredIffReached(next, rest, k);
      if v.key == k && !InProgress(rows, k, v.at) {
        assert Delivered(next, k) && Reached(rows, visits, k);
      } else {
        SameRow(rows, v, k);
        ReachedLater(rows, next, visits, k);
      }
    }
  }

  lemma SameRow(rows: Deliveries, v: Visit, k: Key)
    requires v.key == k ==> InProgress(rows, k, v.at)
    ensures var next := Offer(rows, v);
            (k in next <==> k in rows) && (k in rows ==> next[k] == rows[k])
  {
  }

  lemma ReachedLater(rows: Deliveries, next: Deliveries, visits: seq<Visit>, k: Key)
    requires visits != [] && (visits[0].key == k ==> InProgress(rows, k, visits[0].at))
    requires (k in next <==> k in rows) && (k in rows ==> next[k] == rows[k])
    ensures Reached(rows, visits, k) <==> Reached(next, visits[1..], k)
  {
    var rest := visits[1..];
    if i :| 0 <= i < |visits| && visits[i].key == k && !InProgress(rows, k, visits[i].at) {
      assert rest[i - 1] == visits[i];
    }
    if i :| 0 <= i < |rest| && rest[i].key == k && !InProgress(next, k, rest[i].at) {
      assert visits[i + 1] == rest[i];
    }
  }

  lemma {:induction false} PairsAreExact(ms: seq<Mail>, destinations: seq<nat>, k: Key)
    ensures k in PairsOf(ms, destinations) <==> exists m, d :: m in ms && d in destinations && k == Key(m.id, d)
  {
    if ms != [] {
      var front, last := ms[..|ms| - 1], ms[|ms| - 1];
      PairsAreExact(front, destinations, k);
      assert ms == front + [last];
      if d :| d in destinations && k == Key(last.id, d) {
        var i :| 0 <= i < |destinations| && destinations[i] == d;
        assert RowOf(last, destinations)[i] == k;
      }
    }
  }

  lemma VisitedPairs(visits: seq<Visit>, pairs: seq<Key>, k: Key)
    requires KeysOf(visits) == pairs
    ensures k in pairs <==> exists i :: 0 <= i < |visits| && visits[i].key == k
  {
    if i :| 0 <= i < |visits| && visits[i].key == k { assert pairs[i] == k; }
    if k in pairs {
      var i :| 0 <= i < |pairs| && pairs[i] == k;
      assert visits[i].key == k;
    }
  }

  /** No pair of candidates and destinations is a fresh `processing` row whenever the scan reaches it. */
  ghost predicate MeetsNobody(before: Deliveries, scanned: seq<Mail>, destinations: seq<nat>, visits: seq<Visit>) {
    forall k | k in PairsOf(scanned, destinations) :: Reached(before, visits, k)
  }

  /** A faultless scan, which moves the cursor whenever it may, delivers all it scanned iff it meets nobody. */
  lemma DeliversAllIffMeetsNobody(before: Deliveries, start: Option<int>, scanned: seq<Mail>, destinations: seq<nat>,
                                  visits: seq<Visit>, after: Deliveries, cursor: Option<int>)
    requires FaultlessScan(before, start, scanned, destinations, visits, after, cursor)
    ensures AllDelivered(after, scanned, destinations) <==> MeetsNobody(before, scanned, destinations, visits)
  {
    forall k | k in PairsOf(scanned, destinations)
      ensures Delivered(after, k) <==> Reached(before, visits, k)
    {
      DeliveredIffReached(before, visits, k);
      VisitedPairs(visits, PairsOf(scanned, destinations), k);
      if Delivered(before, k) {
        var i :| 0 <= i < |visits| && visits[i].key == k;
        assert !InProgress(before, k, visits[i].at);
      }
    }
    forall m, d | m in scanned && d in destinations ensures Key(m.id, d) in PairsOf(scanned, destinations) {
      PairsAreExact(scanned, destinations, Key(m.id, d));
    }
    if AllDelivered(after, scanned, destinations) {
      forall k | k in PairsOf(scanned, destinations) ensures Delivered(after, k) {
        PairsAreExact(scanned, destinations, k);
      }
    }
  }

  /** With no pair offered twice, that is: at each visit the row is not a fresh `processing` row. */
  lemma MeetsNobodyMeans(before: Deliveries, scanned: seq<Mail>, destinations: seq<nat>, visits: seq<Visit>)
    requires KeysOf(visits) == PairsOf(scanned, destinations)
    requires forall i, j | 0 <= i < j < |visits| :: visits[i].key != visits[j].key
    ensures MeetsNobody(before, scanned, destinations, visits) <==>
            forall i | 0 <= i < |visits| :: !InProgress(before, visits[i].key, visits[i].at)
  {
    forall i | 0 <= i < |visits| ensures visits[i].key in PairsOf(scanned, destinations) {
      assert KeysOf(visits)[i] == visits[i].key;
    }
    forall k | k in PairsOf(scanned, destinations) ensures exists i :: 0 <= i < |visits| && visits[i].key == k {
      VisitedPairs(visits, PairsOf(scanned, destinations), k);
    }
  }

  /**
   The smallest failure: one dated message whose pair another scan is sending. The scan has no fault and
   moves the cursor past the message; the other scan then dies or fails; no later scan offers it.
   */
  lemma InFlightIsPassed(before: Deliveries, start: Option<int>, m: Mail, d: nat, now: int, other: nat, since: int)
    requires m.received.Some? && After(start, m.received.value) && InProgress(before, Key(m.id, d), now)
    ensures FaultlessScan(before, start, [m], [d], [Visit(Key(m.id, d), now, Succeeded, now)], before, m.received)
    ensures !Delivered(before, Key(m.id, d))
    ensures var w := World(before, map[other := Flight(Key(m.id, d), since)], now);
            && !Delivered(Next(w, Die(other)).rows, Key(m.id, d))
            && !Delivered(Next(w, Record(other, false)).rows, Key(m.id, d))
    ensures forall windowStart :: !Offered(m, m.received, windowStart)
  {
    var k := Key(m.id, d);
    var visits := [Visit(k, now, Succeeded, now)];
    assert [m][..0] == [] && visits[1..] == [];
    assert Offers(before, visits) == Offers(before, []) == before;
    assert PairsOf([m], [d]) == PairsOf([], [d]) + RowOf(m, [d]) == KeysOf(visits);
    assert NewestDate(start, [m]) == m.received by { assert NewestDate(start, []) == start; }
    assert Refusals(visits) == Refusals([]);
  }

  // ---- when a faultless scan keeps the coverage ----------------------------------------------

  ghost predicate UniqueIds(mailbox: set<Mail>) {
    forall m, n | m in mailbox && n in mailbox && m.id == n.id :: m == n
  }

  function Members(ms: seq<Mail>): set<Mail> {
    set m | m in ms
  }

  /** An undelivered pair the scan's cursor passes. */
  predicate Owed(before: Deliveries, origin: Option<int>, start: Option<int>, cursor: Option<int>, m: Mail, d: nat) {
    Dated(m, origin, cursor) && Dated(m, start, cursor) && !Delivered(before, Key(m.id, d))
  }

  predicate InWindow(m: Mail, windowStart: Option<int>) {
    m.received.Some? && windowStart.Some? ==> windowStart.value <= m.received.value
  }

  /**
   A faultless scan keeps everything up to the cursor delivered if and only if every message dated past
   the old cursor up to the newest offered date, and undelivered before the scan, is listed, is not before
   the window, and has its pairs free of a foreign send when reached.
   */
  lemma CoverageIff(mailbox: set<Mail>, origin: Option<int>, before: Deliveries, start: Option<int>,
                    windowStart: Option<int>, listed: seq<Mail>, destinations: seq<nat>,
                    visits: seq<Visit>, after: Deliveries, cursor: Option<int>)
    requires UniqueIds(mailbox) && Members(listed) <= mailbox
    requires Covers(before, mailbox, origin, start, destinations)
    requires FaultlessScan(before, start, Candidates(listed, start, windowStart), destinations, visits, after, cursor)
    ensures Covers(after, mailbox, origin, cursor, destinations) <==>
            forall m, d | m in mailbox && d in destinations && Owed(before, origin, start, cursor, m, d) ::
              m in listed && InWindow(m, windowStart) && Reached(before, visits, Key(m.id, d))
  {
    var scanned := Candidates(listed, start, windowStart);
    forall m, d | m in mailbox && d in destinations && Owed(before, origin, start, cursor, m, d)
      ensures Delivered(after, Key(m.id, d)) <==>
              m in listed && InWindow(m, windowStart) && Reached(before, visits, Key(m.id, d))
    {
      OwedIsDeliveredIff(mailbox, before, start, windowStart, listed, destinations, visits, after, cursor, m, d);
    }
    forall m, d | m in mailbox && d in destinations && Dated(m, origin, cursor)
                  && !Owed(before, origin, start, cursor, m, d)
      ensures Delivered(after, Key(m.id, d))
    {
      assert Delivered(before, Key(m.id, d)) by {
        if !Dated(m, start, cursor) { assert Dated(m, origin, start); }
      }
      DeliveredIffReached(before, visits, Key(m.id, d));
    }
  }

  lemma OwedIsDeliveredIff(mailbox: set<Mail>, before: Deliveries, start: Option<int>, windowStart: Option<int>,
                           listed: seq<Mail>, destinations: seq<nat>, visits: seq<Visit>, after: Deliveries,
                           cursor: Option<int>, m: Mail, d: nat)
    requires UniqueIds(mailbox) && Members(listed) <= mailbox && m in mailbox && d in destinations
    requires FaultlessScan(before, start, Candidates(listed, start, windowStart), destinations, visits, after, cursor)
    requires Dated(m, start, cursor) && !Delivered(before, Key(m.id, d))
    ensures Delivered(after, Key(m.id, d)) <==>
            m in listed && InWindow(m, windowStart) && Reached(before, visits, Key(m.id, d))
  {
    var scanned := Candidates(listed, start, windowStart);
    var k := Key(m.id, d);
    DeliveredIffReached(before, visits, k);
    CandidatesAreExact(listed, start, windowStart);
    if Reached(before, visits, k) {
      VisitedPairs(visits, PairsOf(scanned, destinations), k);
      PairsAreExact(scanned, destinations, k);
      var n, e :| n in scanned && e in destinations && k == Key(n.id, e);
      assert n in listed && n in Members(listed) && n == m;
    }
  }

  // ---- newest-first listings -----------------------------------------------------------------

  const PAGE := 50

  /** The messages of a folder, all dated, newest first, as the provider lists them. */
  ghost predicate NewestFirst(all: seq<Mail>) {
    && (forall i | 0 <= i < |all| :: all[i].received.Some?)
    && (forall i, j | 0 <= i < j < |all| :: all[i].id != all[j].id && all[i].received.value >= all[j].received.value)
  }

  function Page(all: seq<Mail>): seq<Mail> {
    if |all| <= PAGE then all else all[..PAGE]
  }

  /** The number of messages dated past the cursor. */
  function CountPast(start: Option<int>, all: seq<Mail>): nat {
    if all == [] then 0
    else (if all[0].received.Some? && After(start, all[0].received.value) then 1 else 0) + CountPast(start, all[1..])
  }

  lemma {:induction false} PastIsPrefix(start: Option<int>, all: seq<Mail>, n: nat)
    requires NewestFirst(all)
    ensures CountPast(start, all) > n <==> n < |all| && After(start, all[n].received.value)
  {
    if all != [] {
      if n > 0 {
        PastIsPrefix(start, all[1..], n - 1);
      } else if !After(start, all[0].received.value) {
        PastIsPrefix(start, all[1..], 0);
      }
    }
  }

  /** New messages without a delivery row: a faultless scan of the first page covers them iff a page holds them. */
  lemma CoverageIffPageHolds(all: seq<Mail>, before: Deliveries, start: Option<int>, destinations: seq<nat>,
                             visits: seq<Visit>, after: Deliveries, cursor: Option<int>)
    requires NewestFirst(all) && destinations != []
    requires forall m, d | m in all && After(start, m.received.value) && d in destinations :: Key(m.id, d) !in before
    requires FaultlessScan(before, start, Candidates(Page(all), start, None), destinations, visits, after, cursor)
    ensures Covers(after, Members(all), start, cursor, destinations) <==> CountPast(start, all) <= PAGE
  {
    PastIsPrefix(start, all, PAGE);
    CoverageIff(Members(all), start, before, start, None, Page(all), destinations, visits, after, cursor);
    CursorPassesFirst(all, start, cursor);
    if CountPast(start, all) <= PAGE {
      forall m, d | m in Members(all) && d in destinations && Owed(before, start, start, cursor, m, d)
        ensures m in Page(all) && InWindow(m, None) && Reached(before, visits, Key(m.id, d))
      {
        NewIsListed(all, start, m);
        NewIsReached(all, before, start, destinations, visits, m, d);
      }
    } else {
      var m, d := all[PAGE], destinations[0];
      assert m in Members(all) && d in destinations && Key(m.id, d) !in before;
      assert Owed(before, start, start, cursor, m, d);
      assert m !in Page(all);
    }
  }

  lemma CursorPassesFirst(all: seq<Mail>, start: Option<int>, cursor: Option<int>)
    requires NewestFirst(all) && cursor == NewestDate(start, Candidates(Page(all), start, None))
    ensures forall i | 0 <= i < |all| && After(start, all[i].received.value) :: Dated(all[i], start, cursor)
  {
    var scanned := Candidates(Page(all), start, None);
    NewestIsLatest(start, scanned);
    CandidatesAreExact(Page(all), start, None);
    forall i | 0 <= i < |all| && After(start, all[i].received.value) ensures Dated(all[i], start, cursor) {
      assert all[0] == Page(all)[0] && all[0] in scanned;
      assert !After(cursor, all[0].received.value);
    }
  }

  lemma NewIsListed(all: seq<Mail>, start: Option<int>, m: Mail)
    requires NewestFirst(all) && CountPast(start, all) <= PAGE && m in all && After(start, m.received.value)
    ensures m in Page(all)
  {
    PastIsPrefix(start, all, PAGE);
    var i :| 0 <= i < |all| && all[i] == m;
    if i < PAGE { assert Page(all)[i] == m; }
  }

  lemma NewIsReached(all: seq<Mail>, before: Deliveries, start: Option<int>, destinations: seq<nat>,
                     visits: seq<Visit>, m: Mail, d: nat)
    requires m in Page(all) && m.received.Some? && After(start, m.received.value) && d in destinations
    requires Key(m.id, d) !in before
    requires KeysOf(visits) == PairsOf(Candidates(Page(all), start, None), destinations)
    ensures Reached(before, visits, Key(m.id, d))
  {
    var scanned := Candidates(Page(all), start, None);
    CandidatesAreExact(Page(all), start, None);
    assert m in scanned;
    PairsAreExact(scanned, destinations, Key(m.id, d));
    VisitedPairs(visits, PairsOf(scanned, destinations), Key(m.id, d));
  }

  // ---- one message too many ------------------------------------------------------------------

  /** `n` messages dated 1 to `n`. */
  function Mailbox(n: nat): seq<Mail> {
    seq(n, k requires 0 <= k < n => Mail(n - k, Some(n - k)))
  }

  /** Every pair sent at once and accepted. */
  function Sends(pairs: seq<Key>, now: int): seq<Visit> {
    seq(|pairs|, i requires 0 <= i < |pairs| => Visit(pairs[i], now, Succeeded, now))
  }

  lemma {:induction false} SendsAreFaultless(pairs: seq<Key>, now: int)
    ensures KeysOf(Sends(pairs, now)) == pairs && Refusals(Sends(pairs, now)) == 0
  {
    assert KeysOf(Sends(pairs, now)) == pairs;
    if pairs != [] {
      SendsAreFaultless(pairs[1..], now);
      assert Sends(pairs, now)[1..] == Sends(pairs[1..], now);
    }
  }

  lemma {:induction false} AllAreNew(all: seq<Mail>)
    requires forall i | 0 <= i < |all| :: all[i].received.Some?
    ensures CountPast(None, all) == |all|
  {
    if all != [] { AllAreNew(all[1..]); }
  }

  /**
   The first scan of a folder of `n` messages, nothing sent before and every send accepted: the cursor
   leaves nothing behind up to fifty messages; at fifty-one the oldest stays unsent behind it.
   */
  lemma FirstScan(n: nat, d: nat, now: int)
    ensures var all := Mailbox(n);
            var scanned := Candidates(Page(all), None, None);
            var visits := Sends(PairsOf(scanned, [d]), now);
            var after := Offers(map[], visits);
            var cursor := NewestDate(None, scanned);
            && FaultlessScan(map[], None, scanned, [d], visits, after, cursor)
            && (Covers(after, Members(all), None, cursor, [d]) <==> n <= PAGE)
            && (n == PAGE + 1 ==>
                  cursor == Some(n) && !Delivered(after, Key(1, d)) && !Offered(Mail(1, Some(1)), cursor, None))
  {
    var all := Mailbox(n);
    var scanned := Candidates(Page(all), None, None);
    var visits := Sends(PairsOf(scanned, [d]), now);
    SendsAreFaultless(PairsOf(scanned, [d]), now);
    AllAreNew(all);
    CoverageIffPageHolds(all, map[], None, [d], visits, Offers(map[], visits), NewestDate(None, scanned));
    if n == PAGE + 1 { OldestIsLeft(d, now); }
  }

  lemma OldestIsLeft(d: nat, now: int)
    ensures var scanned := Candidates(Page(Mailbox(PAGE + 1)), None, None);
            && NewestDate(None, scanned) == Some(PAGE + 1)
            && !Delivered(Offers(map[], Sends(PairsOf(scanned, [d]), now)), Key(1, d))
  {
    var all := Mailbox(PAGE + 1);
    var scanned := Candidates(Page(all), None, None);
    var visits := Sends(PairsOf(scanned, [d]), now);
    NewestIsLatest(None, scanned);
    CandidatesAreExact(Page(all), None, None);
    assert all[0] == Page(all)[0] && all[0] in scanned;
    assert forall m | m in scanned :: 2 <= m.id && m.received == Some(m.id) && m.id <= PAGE + 1;
    SendsAreFaultless(PairsOf(scanned, [d]), now);
    DeliveredIffReached(map[], visits, Key(1, d));
    VisitedPairs(visits, PairsOf(scanned, [d]), Key(1, d));
    PairsAreExact(scanned, [d], Key(1, d));
  }
}

/**
 The local mail cache: upserts keyed by account, folder, provider id and id mode, and pruning by age
 and by number. The date of receipt is stored as the text the provider sent, and pruning compares it as
 text, under the database's collation; what instant a text denotes is a separate function.
 */
module RetainedMail {
  import opened Options
  import opened RowOrder
  import opened SetSizes

  /** The unique constraint of the table. */
  datatype MailKey = MailKey(account: nat, folder: string, providerId: string, idMode: string)

  datatype Row = Row(key: MailKey, receivedAt: string, preview: string, body: Option<string>, lastSynced: int)

  type Rows = map<nat, Row>

  /** The sort key a collation gives a text. Texts are countable, so any order of them is one of such keys. */
  type Collation = string -> real

  /** A listed message, without its body, and a fetched one. */
  datatype Summary = Summary(folder: string, id: string, idMode: string, receivedAt: string, preview: string)
  datatype Detail = Detail(folder: string, id: string, idMode: string, receivedAt: string, body: string)

  ghost predicate UniqueKeys(rows: Rows) {
    forall r, q | r in rows && q in rows && rows[r].key == rows[q].key :: r == q
  }

  // ---- pruning -------------------------------------------------------------------------------

  /** The rows of the account that are not too old. */
  function InsideAge(rows: Rows, account: nat, cutoff: int): set<nat> {
    set r | r in rows && rows[r].key.account == account && rows[r].lastSynced >= cutoff
  }

  function KeysOf(order: Collation, rows: Rows, ids: set<nat>): set<Key>
    requires forall r | r in ids :: r in rows
  {
    set r | r in ids :: Key(order(rows[r].receivedAt), r)
  }

  /** Row `r` sorts after row `q` in the listing by stored text, ties going to the larger id. */
  predicate SortsAfter(order: Collation, rows: Rows, r: nat, q: nat)
    requires r in rows && q in rows
  {
    Less(Key(order(rows[r].receivedAt), r), Key(order(rows[q].receivedAt), q))
  }

  /** The rows among `ids` that row `r` sorts after. */
  function RowsBefore(order: Collation, rows: Rows, ids: set<nat>, r: nat): set<nat>
    requires r in rows && forall q | q in ids :: q in rows
  {
    set q | q in ids && SortsAfter(order, rows, r, q)
  }

  /** What pruning keeps: other accounts, and the first `max` by text of the account's rows inside the age limit. */
  ghost predicate Survives(order: Collation, rows: Rows, account: nat, cutoff: int, max: nat, r: nat)
    requires r in rows
  {
    || rows[r].key.account != account
    || (r in InsideAge(rows, account, cutoff) && |RowsBefore(order, rows, InsideAge(rows, account, cutoff), r)| < max)
  }

  // ---- caching -------------------------------------------------------------------------------

  function KeyOf(account: nat, m: Summary): MailKey {
    MailKey(account, m.folder, m.id, m.idMode)
  }

  /** What the first `n` messages of the page last say about a key. */
  function Latest(account: nat, page: seq<Summary>, n: nat, key: MailKey): Option<Summary>
    requires n <= |page|
  {
    if n == 0 then None
    else if KeyOf(account, page[n - 1]) == key then Some(page[n - 1])
    else Latest(account, page, n - 1, key)
  }

  ghost predicate RowCached(before: Rows, r: nat, row: Row, said: Option<Summary>, now: int) {
    match said
    case None => r in before && row == before[r]
    case Some(m) => row == Row(row.key, m.receivedAt, m.preview, if r in before then before[r].body else None, now)
  }

  ghost predicate HasRow(rows: Rows, key: MailKey) {
    exists r :: r in rows && rows[r].key == key
  }

  /** The table after the first `n` messages of a page. */
  ghost predicate PageCached(before: Rows, after: Rows, account: nat, page: seq<Summary>, n: nat, now: int)
    requires n <= |page|
  {
    && (forall r | r in before :: r in after && after[r].key == before[r].key)
    && (forall r | r in after :: RowCached(before, r, after[r], Latest(account, page, n, after[r].key), now))
    && (forall k | 0 <= k < n :: HasRow(after, KeyOf(account, page[k])))
  }

  lemma UpsertExtends(before: Rows, earlier: Rows, after: Rows, account: nat, page: seq<Summary>, n: nat, now: int,
                      id: nat)
    requires n < |page| && PageCached(before, earlier, account, page, n, now)
    requires id in after && after == earlier[id := after[id]] && UniqueKeys(after)
    requires id in earlier ==> earlier[id].key == after[id].key
    requires after[id] == Row(KeyOf(account, page[n]), page[n].receivedAt, page[n].preview,
                              if id in earlier then earlier[id].body else None, now)
    ensures PageCached(before, after, account, page, n + 1, now)
  {
    forall r | r in after ensures RowCached(before, r, after[r], Latest(account, page, n + 1, after[r].key), now) {
      if r in earlier {
        assert RowCached(before, r, earlier[r], Latest(account, page, n, earlier[r].key), now);
      }
    }
    forall k | 0 <= k <= n ensures HasRow(after, KeyOf(account, page[k])) {
      if k < n {
        assert HasRow(earlier, KeyOf(account, page[k]));
        var r :| r in earlier && earlier[r].key == KeyOf(account, page[k]);
        assert r in after && after[r].key == earlier[r].key;
      } else {
        assert after[id].key == KeyOf(account, page[n]);
      }
    }
  }

  /** The row is that of the message: same account, folder, provider id and id mode. */
  ghost predicate IsRowOf(row: Row, account: nat, m: Summary) {
    && row.key.account == account && row.key.folder == m.folder
    && row.key.providerId == m.id && row.key.idMode == m.idMode
  }

  ghost predicate IsStored(rows: Rows, account: nat, m: Summary) {
    exists r :: r in rows && IsRowOf(rows[r], account, m)
  }

  /** No message of the page from `n` on has this row. */
  ghost predicate SilentFrom(row: Row, account: nat, page: seq<Summary>, n: nat) {
    forall k | n <= k < |page| :: !IsRowOf(row, account, page[k])
  }

  /**
   The table after a page, in columns: every message has its row; a row tells what the last of its
   messages said, at this time, with the body it had; a row no message is about is as it was.
   */
  ghost predicate PageStored(before: Rows, after: Rows, account: nat, page: seq<Summary>, now: int) {
    && (forall r | r in before :: r in after && after[r].key == before[r].key)
    && (forall n | 0 <= n < |page| :: IsStored(after, account, page[n]))
    && (forall r | r in after && SilentFrom(after[r], account, page, 0) :: r in before && after[r] == before[r])
    && (forall r, n | r in after && 0 <= n < |page| && IsRowOf(after[r], account, page[n])
                      && SilentFrom(after[r], account, page, n + 1) ::
          && after[r].receivedAt == page[n].receivedAt && after[r].preview == page[n].preview
          && after[r].lastSynced == now
          && after[r].body == if r in before then before[r].body else None)
  }

  lemma {:induction false} LatestMeans(account: nat, page: seq<Summary>, n: nat, row: Row)
    requires n <= |page|
    ensures match Latest(account, page, n, row.key)
            case None => forall k | 0 <= k < n :: !IsRowOf(row, account, page[k])
            case Some(m) =>
              exists k :: 0 <= k < n && IsRowOf(row, account, page[k]) && m == page[k]
                          && forall i | k < i < n :: !IsRowOf(row, account, page[i])
  {
    if n > 0 {
      LatestMeans(account, page, n - 1, row);
      assert KeyOf(account, page[n - 1]) == row.key <==> IsRowOf(row, account, page[n - 1]);
    }
  }

  lemma CachedIsStored(before: Rows, after: Rows, account: nat, page: seq<Summary>, now: int)
    requires PageCached(before, after, account, page, |page|, now)
    ensures PageStored(before, after, account, page, now)
  {
    forall n | 0 <= n < |page| ensures IsStored(after, account, page[n]) {
      assert HasRow(after, KeyOf(account, page[n]));
      var r :| r in after && after[r].key == KeyOf(account, page[n]);
      assert IsRowOf(after[r], account, page[n]);
    }
    forall r | r in after
      ensures SilentFrom(after[r], account, page, 0) ==> r in before && after[r] == before[r]
      ensures forall n | 0 <= n < |page| && IsRowOf(after[r], account, page[n])
                         && SilentFrom(after[r], account, page, n + 1) ::
                Latest(account, page, |page|, after[r].key) == Some(page[n])
    {
      LatestMeans(account, page, |page|, after[r]);
      assert RowCached(before, r, after[r], Latest(account, page, |page|, after[r].key), now);
    }
    forall r, n | r in after && 0 <= n < |page| && IsRowOf(after[r], account, page[n])
                  && SilentFrom(after[r], account, page, n + 1)
      ensures RowCached(before, r, after[r], Some(page[n]), now)
    {
      assert RowCached(before, r, after[r], Latest(account, page, |page|, after[r].key), now);
    }
  }

  // ---- pruning by rank -----------------------------------------------------------------------

  lemma {:induction false} KeysCount(order: Collation, rows: Rows, ids: set<nat>)
    requires forall r | r in ids :: r in rows
    ensures |KeysOf(order, rows, ids)| == |ids|
    decreases |ids|
  {
    if ids != {} {
      var r :| r in ids;
      KeysCount(order, rows, ids - {r});
      assert KeysOf(order, rows, ids) == KeysOf(order, rows, ids - {r}) + {Key(order(rows[r].receivedAt), r)};
    }
  }

  /** The rows past the offset in the newest-first listing are those outranked by `max` or more. */
  lemma OverflowByRank(order: Collation, rows: Rows, ids: set<nat>, max: nat, r: nat)
    requires (forall q | q in ids :: q in rows) && r in ids
    ensures Key(order(rows[r].receivedAt), r) in First(NewestFirst(KeysOf(order, rows, ids)), max)
            <==> |RowsBefore(order, rows, ids, r)| < max
  {
    var keys := KeysOf(order, rows, ids);
    var k := Key(order(rows[r].receivedAt), r);
    FirstNByRank(keys, max, k);
    KeysCount(order, rows, RowsBefore(order, rows, ids, r));
    assert Newer(keys, k) == KeysOf(order, rows, RowsBefore(order, rows, ids, r));
  }

  class Cache {
    const collation: Collation
    var rows: Rows
    var nextId: nat

    constructor (collation: Collation)
      ensures Valid() && rows == map[] && this.collation == collation
    {
      this.collation, rows, nextId := collation, map[], 0;
    }

    ghost predicate Valid()
      reads this
    {
      UniqueKeys(rows) && forall r | r in rows :: r < nextId
    }

    /** Inserts a row, or updates the one with its key; a summary leaves a stored body alone. */
    method Upsert(key: MailKey, receivedAt: string, preview: Option<string>, body: Option<string>, now: int)
      returns (id: nat)
      requires Valid()
      modifies this
      ensures Valid()
      ensures id in rows && rows[id].key == key
      ensures rows == old(rows)[id := rows[id]]
      ensures id in old(rows) ==> old(rows)[id].key == key
      ensures id in old(rows) <==> exists r :: r in old(rows) && old(rows)[r].key == key
      ensures rows[id].receivedAt == receivedAt && rows[id].lastSynced == now
      ensures rows[id].body == if body.Some? then body else if id in old(rows) then old(rows)[id].body else None
      ensures rows[id].preview == if preview.Some? then preview.value
                                  else if id in old(rows) then old(rows)[id].preview else ""
    {
      if r :| r in rows && rows[r].key == key {
        id := r;
        rows := rows[id := rows[id].(
          receivedAt := receivedAt, lastSynced := now,
          preview := if preview.Some? then preview.value else rows[id].preview,
          body := if body.Some? then body else rows[id].body)];
      } else {
        id := nextId;
        nextId := nextId + 1;
        rows := rows[id := Row(key, receivedAt, if preview.Some? then preview.value else "", body, now)];
      }
    }

    /**
     Caching a page: every listed message has one row, carrying what the page last said of it and the
     body stored before; all other rows stay as they are.
     */
    method CacheMailPage(account: nat, page: seq<Summary>, now: int) returns (count: nat)
      requires Valid()
      modifies this
      ensures Valid() && count == |page|
      ensures PageCached(old(rows), rows, account, page, |page|, now)
      ensures PageStored(old(rows), rows, account, page, now)
    {
      for n := 0 to |page|
        invariant Valid() && PageCached(old(rows), rows, account, page, n, now)
      {
        ghost var before := rows;
        var m := page[n];
        var id := Upsert(KeyOf(account, m), m.receivedAt, Some(m.preview), None, now);
        UpsertExtends(old(rows), before, rows, account, page, n, now, id);
      }
      CachedIsStored(old(rows), rows, account, page, now);
      count := |page|;
    }

    /** Caching a message stores its body under its key and touches nothing else. */
    method CacheMailDetail(account: nat, detail: Detail, now: int) returns (id: nat)
      requires Valid()
      modifies this
      ensures Valid()
      ensures id in rows && rows == old(rows)[id := rows[id]]
      ensures rows[id].key == MailKey(account, detail.folder, detail.id, detail.idMode)
      ensures rows[id].body == Some(detail.body) && rows[id].receivedAt == detail.receivedAt
      ensures rows[id].lastSynced == now
      ensures rows[id].preview == if id in old(rows) then old(rows)[id].preview else ""
      ensures id in old(rows) <==> exists r :: r in old(rows) && old(rows)[r].key == rows[id].key
    {
      id := Upsert(MailKey(account, detail.folder, detail.id, detail.idMode),
                   detail.receivedAt, None, Some(detail.body), now);
    }

    method DeleteOld(account: nat, cutoff: int) returns (count: nat)
      requires Valid()
      modifies this`rows
      ensures Valid() && rows == WithoutOld(old(rows), account, cutoff)
      ensures forall r :: r in rows <==>
                r in old(rows) && (old(rows)[r].key.account == account ==> old(rows)[r].lastSynced >= cutoff)
      ensures count + |rows| == |old(rows)|
    {
      var gone := TooOld(rows, account, cutoff);
      count := |gone|;
      rows := rows - gone;
      assert rows.Keys == old(rows).Keys - gone;
    }

    method DeleteOverflow(account: nat, maxMessages: nat) returns (count: nat)
      requires Valid()
      modifies this`rows
      ensures Valid() && rows == WithoutOverflow(collation, old(rows), account, maxMessages)
      ensures count + |rows| == |old(rows)|
    {
      var gone := Overflow(collation, rows, Own(rows, account), maxMessages);
      count := |gone|;
      rows := rows - gone;
      assert rows.Keys == old(rows).Keys - gone;
    }

    /** Deletes what is too old, then what is past the newest `maxMessages`. */
    method PruneRetainedMail(account: nat, maxMessages: nat, cutoff: int) returns (removed: nat)
      requires Valid()
      modifies this`rows
      ensures Valid()
      ensures rows == Pruned(collation, old(rows), account, maxMessages, cutoff)
      ensures removed + |rows| == |old(rows)|
      ensures PrunedInColumns(collation, old(rows), rows, account, maxMessages, cutoff)
    {
      PruneMeans(collation, rows, account, maxMessages, cutoff);
      var oldCount := DeleteOld(account, cutoff);
      var overflowCount := DeleteOverflow(account, maxMessages);
      removed := oldCount + overflowCount;
    }
  }

  function TooOld(rows: Rows, account: nat, cutoff: int): set<nat> {
    set r | r in rows && rows[r].key.account == account && rows[r].lastSynced < cutoff
  }

  function Own(rows: Rows, account: nat): set<nat> {
    set r | r in rows && rows[r].key.account == account
  }

  /** The rows past the offset in the newest-first listing of `ids`. */
  function Overflow(order: Collation, rows: Rows, ids: set<nat>, max: nat): set<nat>
    requires forall r | r in ids :: r in rows
  {
    var retained := First(NewestFirst(KeysOf(order, rows, ids)), max);
    set r | r in ids && Key(order(rows[r].receivedAt), r) !in retained
  }

  function Pruned(order: Collation, rows: Rows, account: nat, max: nat, cutoff: int): Rows
  {
    WithoutOverflow(order, WithoutOld(rows, account, cutoff), account, max)
  }

  function WithoutOld(rows: Rows, account: nat, cutoff: int): Rows {
    rows - TooOld(rows, account, cutoff)
  }

  function WithoutOverflow(order: Collation, rows: Rows, account: nat, max: nat): Rows {
    rows - Overflow(order, rows, Own(rows, account), max)
  }

  /** The two delete statements leave exactly the survivors, unchanged. */
  lemma PruneIsExact(order: Collation, rows: Rows, account: nat, max: nat, cutoff: int)
    ensures forall r :: r in Pruned(order, rows, account, max, cutoff) <==>
                        r in rows && Survives(order, rows, account, cutoff, max, r)
    ensures forall r | r in Pruned(order, rows, account, max, cutoff) ::
              Pruned(order, rows, account, max, cutoff)[r] == rows[r]
  {
    var young := WithoutOld(rows, account, cutoff);
    var own := Own(young, account);
    assert own == InsideAge(rows, account, cutoff);
    forall r | r in own
      ensures r in Overflow(order, young, own, max) <==> !Survives(order, rows, account, cutoff, max, r)
    {
      OverflowByRank(order, young, own, max, r);
      assert RowsBefore(order, young, own, r) == RowsBefore(order, rows, own, r);
    }
  }

  /**
   In columns: rows of other accounts stay, and of this account those synced since the cutoff with fewer
   than `max` such rows ahead of them, where the larger text goes first and then the larger id.
   */
  ghost predicate PrunedInColumns(order: Collation, was: Rows, is_: Rows, account: nat, max: nat, cutoff: int) {
    && (forall r | r in is_ :: r in was && is_[r] == was[r])
    && forall r | r in was ::
         r in is_ <==>
           || was[r].key.account != account
           || (&& was[r].lastSynced >= cutoff
               && var ahead := set q | q in was && was[q].key.account == account && was[q].lastSynced >= cutoff
                                       && (order(was[q].receivedAt) > order(was[r].receivedAt)
                                           || (order(was[q].receivedAt) == order(was[r].receivedAt) && q > r));
                  |ahead| < max)
  }

  lemma PruneMeans(order: Collation, rows: Rows, account: nat, max: nat, cutoff: int)
    ensures PrunedInColumns(order, rows, Pruned(order, rows, account, max, cutoff), account, max, cutoff)
  {
    PruneIsExact(order, rows, account, max, cutoff);
    forall r | r in rows
      ensures RowsBefore(order, rows, InsideAge(rows, account, cutoff), r)
              == set q | q in rows && rows[q].key.account == account && rows[q].lastSynced >= cutoff
                         && (order(rows[q].receivedAt) > order(rows[r].receivedAt)
                             || (order(rows[q].receivedAt) == order(rows[r].receivedAt) && q > r))
    {
    }
  }

  function Kept(order: Collation, rows: Rows, ids: set<nat>, max: nat): set<nat>
    requires forall q | q in ids :: q in rows
  {
    set r | r in ids && |RowsBefore(order, rows, ids, r)| < max
  }

  lemma KeptAreFirst(order: Collation, rows: Rows, ids: set<nat>, max: nat)
    requires forall q | q in ids :: q in rows
    ensures KeysOf(order, rows, Kept(order, rows, ids, max))
            == Members(First(NewestFirst(KeysOf(order, rows, ids)), max))
  {
    var keys := KeysOf(order, rows, ids);
    var first := First(NewestFirst(keys), max);
    ListingIsExact(keys);
    forall r | r in ids ensures r in Kept(order, rows, ids, max) <==> Key(order(rows[r].receivedAt), r) in first {
      OverflowByRank(order, rows, ids, max, r);
    }
    forall k | k in first ensures k in keys {
      assert k in NewestFirst(keys);
    }
  }

  /** After pruning the account holds all its rows inside the age limit, or exactly `max` of them. */
  lemma SurvivorsAreMax(order: Collation, rows: Rows, account: nat, cutoff: int, max: nat)
    ensures var inside := InsideAge(rows, account, cutoff);
            |Kept(order, rows, inside, max)| == if |inside| <= max then |inside| else max
  {
    var inside := InsideAge(rows, account, cutoff);
    var listing := NewestFirst(KeysOf(order, rows, inside));
    ListingIsExact(KeysOf(order, rows, inside));
    KeptAreFirst(order, rows, inside, max);
    KeysCount(order, rows, inside);
    KeysCount(order, rows, Kept(order, rows, inside, max));
    DistinctCount(First(listing, max));
  }

  function Members<T(==)>(ks: seq<T>): set<T> {
    set k | k in ks
  }

  lemma {:induction false} DistinctCount(ks: seq<Key>)
    requires Descending(ks)
    ensures |Members(ks)| == |ks|
  {
    if ks != [] {
      DistinctCount(ks[1..]);
      assert ks[0] !in ks[1..];
      assert Members(ks) == {ks[0]} + Members(ks[1..]);
    }
  }

  // ---- text order and date order -------------------------------------------------------------

  /** The instant a stored text denotes. */
  type Dating = string -> int

  /** Among the rows inside the age limit nothing deleted is newer, by date, than anything kept. */
  ghost predicate KeepsNewest(order: Collation, date: Dating, rows: Rows, account: nat, cutoff: int, max: nat) {
    var inside := InsideAge(rows, account, cutoff);
    var kept := Kept(order, rows, inside, max);
    forall q, r | q in kept && r in inside - kept :: date(rows[r].receivedAt) <= date(rows[q].receivedAt)
  }

  /** Whichever of two rows comes first by text is no older by date. */
  ghost predicate OrdersAgree(order: Collation, date: Dating, rows: Rows, ids: set<nat>)
    requires forall q | q in ids :: q in rows
  {
    forall q, r | q in ids && r in ids && SortsAfter(order, rows, r, q) ::
      date(rows[r].receivedAt) <= date(rows[q].receivedAt)
  }

  /** A row that sorts after another has more rows before it. */
  lemma RankRises(order: Collation, rows: Rows, ids: set<nat>, q: nat, r: nat)
    requires (forall x | x in ids :: x in rows)
    requires q in ids && r in ids && SortsAfter(order, rows, r, q)
    ensures |RowsBefore(order, rows, ids, q)| < |RowsBefore(order, rows, ids, r)|
  {
    var before, more := RowsBefore(order, rows, ids, q), RowsBefore(order, rows, ids, r);
    assert q in more && q !in before;
    assert before + {q} <= more;
    SubsetCount(before + {q}, more);
  }

  /** Pruning keeps the newest by date, under every limit, if and only if text order agrees with date order. */
  lemma KeepsNewestIffOrdersAgree(order: Collation, date: Dating, rows: Rows, account: nat, cutoff: int)
    ensures (forall max :: KeepsNewest(order, date, rows, account, cutoff, max))
            <==> OrdersAgree(order, date, rows, InsideAge(rows, account, cutoff))
  {
    var inside := InsideAge(rows, account, cutoff);
    if OrdersAgree(order, date, rows, inside) {
      forall max, q, r | q in Kept(order, rows, inside, max) && r in inside - Kept(order, rows, inside, max)
        ensures date(rows[r].receivedAt) <= date(rows[q].receivedAt)
      {
        if SortsAfter(order, rows, q, r) { RankRises(order, rows, inside, r, q); }
      }
    } else {
      var q, r :| q in inside && r in inside && SortsAfter(order, rows, r, q)
                  && date(rows[q].receivedAt) < date(rows[r].receivedAt);
      RankRises(order, rows, inside, q, r);
      var max := |RowsBefore(order, rows, inside, q)| + 1;
      assert q in Kept(order, rows, inside, max) && r !in Kept(order, rows, inside, max);
      assert !KeepsNewest(order, date, rows, account, cutoff, max);
    }
  }

  // ---- mail headers --------------------------------------------------------------------------

  const BASE: real := 1114113.0

  /** The sort key of plain character order: the text as digits after the point. */
  function ByCharacter(s: string): (key: real)
    ensures 0.0 <= key < 1.0
    ensures s != [] ==> (s[0] as int + 1) as real / BASE <= key < (s[0] as int + 2) as real / BASE
  {
    if s == [] then 0.0 else ((s[0] as int + 1) as real + ByCharacter(s[1..])) / BASE
  }

  /** A text sorts lower when it is a proper prefix, or has the lower character where the two first differ. */
  predicate Alphabetical(a: string, b: string) {
    b != [] && (a == [] || a[0] < b[0] || (a[0] == b[0] && Alphabetical(a[1..], b[1..])))
  }

  lemma {:induction false} ByCharacterIsAlphabetical(a: string, b: string)
    ensures ByCharacter(a) < ByCharacter(b) <==> Alphabetical(a, b)
  {
    if a != [] && b != [] {
      if a[0] == b[0] {
        ByCharacterIsAlphabetical(a[1..], b[1..]);
      } else if a[0] < b[0] {
        assert (a[0] as int + 2) as real <= (b[0] as int + 1) as real;
      } else {
        assert (b[0] as int + 2) as real <= (a[0] as int + 1) as real;
      }
    }
  }

  const OLDER_HEADER: string := "Wed, 01 Jan 2025 10:00:00 +0000"
  const NEWER_HEADER: string := "Mon, 06 Jan 2025 10:00:00 +0000"

  /** A table of two messages of one account, cached at the same time. */
  ghost predicate TwoMessages(rows: Rows, account: nat, first: string, second: string, cutoff: int) {
    && rows.Keys == {0, 1}
    && rows[0].key.account == account == rows[1].key.account
    && rows[0].receivedAt == first && rows[1].receivedAt == second
    && cutoff <= rows[0].lastSynced == rows[1].lastSynced
  }

  /** Under a limit of one the message whose text sorts lower is deleted, even if it is the newer one. */
  lemma LowerTextIsLost(order: Collation, date: Dating, rows: Rows, account: nat, cutoff: int, high: string,
                        low: string)
    requires TwoMessages(rows, account, high, low, cutoff)
    requires order(low) < order(high) && date(high) < date(low)
    ensures 0 in Pruned(order, rows, account, 1, cutoff) && 1 !in Pruned(order, rows, account, 1, cutoff)
    ensures !KeepsNewest(order, date, rows, account, cutoff, 1)
  {
    var inside := InsideAge(rows, account, cutoff);
    assert inside == {0, 1};
    assert RowsBefore(order, rows, inside, 0) == {};
    assert RowsBefore(order, rows, inside, 1) == {0};
    PruneIsExact(order, rows, account, 1, cutoff);
    assert 0 in Kept(order, rows, inside, 1) && 1 in inside - Kept(order, rows, inside, 1);
  }

  lemma HeadersSortByWeekday()
    ensures ByCharacter(NEWER_HEADER) < ByCharacter(OLDER_HEADER)
  {
    assert OLDER_HEADER[0] == 'W' && NEWER_HEADER[0] == 'M';
    ByCharacterIsAlphabetical(NEWER_HEADER, OLDER_HEADER);
  }

  /** Of two header dates five days apart pruning deletes the newer message, because its weekday sorts lower. */
  lemma NewerHeaderIsLost(date: Dating, rows: Rows, account: nat, cutoff: int)
    requires TwoMessages(rows, account, OLDER_HEADER, NEWER_HEADER, cutoff) && date(OLDER_HEADER) < date(NEWER_HEADER)
    ensures 0 in Pruned(ByCharacter, rows, account, 1, cutoff) && 1 !in Pruned(ByCharacter, rows, account, 1, cutoff)
    ensures !KeepsNewest(ByCharacter, date, rows, account, cutoff, 1)
  {
    HeadersSortByWeekday();
    LowerTextIsLost(ByCharacter, date, rows, account, cutoff, OLDER_HEADER, NEWER_HEADER);
  }
}

/**
 Keyset paging of the account list. Each page is asked for with the last key of the previous one, and
 the table may change arbitrarily between two pages.
 */
module AccountPages {
  import opened Options
  import opened RowOrder

  datatype Account = Account(createdAt: real, lifecycle: string, tokenStatus: string, group: Option<nat>)

  /** The rows the listing's filters let through. */
  function Matching(accounts: map<nat, Account>, filter: Account -> bool): set<Key> {
    set a | a in accounts && filter(accounts[a]) :: Key(accounts[a].createdAt, a)
  }

  predicate PastCursor(k: Key, cursor: Option<Key>) {
    cursor.None? || Less(k, cursor.value)
  }

  function Remaining(table: set<Key>, cursor: Option<Key>): set<Key> {
    set k | k in table && PastCursor(k, cursor)
  }

  datatype Page = Page(items: seq<Key>, next: Option<Key>)

  /** One page: fetch one row more than asked for, to learn whether there is another page. */
  function ListPage(table: set<Key>, cursor: Option<Key>, limit: nat): Page {
    var rows := First(NewestFirst(Remaining(table, cursor)), limit + 1);
    var items := First(rows, limit);
    Page(items, if |rows| > limit && items != [] then Some(items[|items| - 1]) else None)
  }

  /** A page without a successor leaves nothing behind; one with a successor leaves exactly what is past its key. */
  lemma PageIsExact(table: set<Key>, cursor: Option<Key>, limit: nat)
    requires limit > 0
    ensures var page := ListPage(table, cursor, limit);
            && Descending(page.items) && |page.items| <= limit
            && (forall k | k in page.items :: k in table && PastCursor(k, cursor))
            && (page.next.None? ==> forall k | k in table && PastCursor(k, cursor) :: k in page.items)
            && (page.next.Some? ==>
                  && page.items != [] && page.next.value == page.items[|page.items| - 1]
                  && forall k | k in table && PastCursor(k, cursor) :: k in page.items || Less(k, page.next.value))
  {
    var rest := Remaining(table, cursor);
    var sorted := NewestFirst(rest);
    var page := ListPage(table, cursor, limit);
    ListingIsExact(rest);
    assert page.items == First(sorted, limit);
    if page.next.Some? {
      forall k | k in rest ensures k in page.items || Less(k, page.next.value) {
        var i :| 0 <= i < |sorted| && sorted[i] == k;
        if i < limit { assert page.items[i] == k; }
      }
    }
    forall k | k in page.items ensures k in rest { assert k in sorted; }
  }

  /** The same in columns: descending by creation time and then id, strictly past the cursor, never more than asked. */
  lemma PageInColumns(table: set<Key>, cursor: Option<Key>, limit: nat)
    requires limit > 0
    ensures var page := ListPage(table, cursor, limit);
            var past := set k | k in table && (cursor.Some? ==>
                          k.at < cursor.value.at || (k.at == cursor.value.at && k.id < cursor.value.id));
            && |page.items| == (if |past| <= limit then |past| else limit)
            && (forall i, j | 0 <= i < j < |page.items| ::
                  && page.items[j].at <= page.items[i].at
                  && (page.items[j].at == page.items[i].at ==> page.items[j].id < page.items[i].id))
            && (forall k | k in page.items :: k in past)
            && (forall k, m | k in past && k !in page.items && m in page.items ::
                  k.at <= m.at && (k.at == m.at ==> k.id < m.id))
            && page.next == if |past| <= limit then None else Some(page.items[limit - 1])
  {
    var page := ListPage(table, cursor, limit);
    var past := set k | k in table && (cursor.Some? ==>
                  k.at < cursor.value.at || (k.at == cursor.value.at && k.id < cursor.value.id));
    assert past == Remaining(table, cursor);
    PageIsExact(table, cursor, limit);
    PageIsPrefix(table, cursor, limit);
    forall k, m | k in past && k !in page.items && m in page.items
      ensures k.at <= m.at && (k.at == m.at ==> k.id < m.id)
    {
      assert Less(k, page.items[|page.items| - 1]);
    }
  }

  // ---- walking a changing table --------------------------------------------------------------

  /** One request of a walk: the table as it is then, and the limit asked for. */
  datatype Request = Request(table: set<Key>, limit: nat)

  predicate Positive(requests: seq<Request>) {
    forall t | 0 <= t < |requests| :: requests[t].limit > 0
  }

  /** The rows a walk returns over the given requests. */
  function Walk(requests: seq<Request>, cursor: Option<Key>): seq<Key> {
    if requests == [] then []
    else
      var page := ListPage(requests[0].table, cursor, requests[0].limit);
      if page.next.None? then page.items else page.items + Walk(requests[1..], page.next)
  }

  /** The number of pages until the walk has no next cursor, if it gets there. */
  function Pages(requests: seq<Request>, cursor: Option<Key>): (pages: Option<nat>)
    ensures pages.Some? ==> 0 < pages.value <= |requests|
  {
    if requests == [] then None
    else
      var page := ListPage(requests[0].table, cursor, requests[0].limit);
      if page.next.None? then Some(1)
      else
        match Pages(requests[1..], page.next)
        case None => None
        case Some(n) => Some(n + 1)
  }

  /** Pages only ever move on: the walk is strictly descending, so no row comes twice. */
  lemma {:induction false} WalkDescends(requests: seq<Request>, cursor: Option<Key>)
    requires Positive(requests)
    ensures Descending(Walk(requests, cursor))
    ensures forall k | k in Walk(requests, cursor) :: PastCursor(k, cursor)
  {
    if requests != [] {
      PageIsExact(requests[0].table, cursor, requests[0].limit);
      var page := ListPage(requests[0].table, cursor, requests[0].limit);
      if page.next.Some? {
        WalkDescends(requests[1..], page.next);
        var rest := Walk(requests[1..], page.next);
        DescendingJoin(page.items, rest);
        forall k | k in rest ensures PastCursor(k, cursor) {
          assert page.next.value in page.items;
          assert Less(k, page.next.value);
        }
      }
    }
  }

  lemma DescendingJoin(a: seq<Key>, b: seq<Key>)
    requires Descending(a) && Descending(b) && a != []
    requires forall k | k in b :: Less(k, a[|a| - 1])
    ensures Descending(a + b)
  {
    var s := a + b;
    forall i, j | 0 <= i < j < |s| ensures Less(s[j], s[i]) {
      if i < |a| <= j { assert s[j] in b; }
    }
  }

  /** The number of pages a walk fetched: all it asked for, or up to the last one if it finished. */
  function Fetched(requests: seq<Request>, cursor: Option<Key>): (n: nat)
    ensures n <= |requests|
  {
    if Pages(requests, cursor).Some? then Pages(requests, cursor).value else |requests|
  }

  lemma FetchedNext(requests: seq<Request>, cursor: Option<Key>)
    requires requests != []
    ensures var page := ListPage(requests[0].table, cursor, requests[0].limit);
            Fetched(requests, cursor) == if page.next.None? then 1 else 1 + Fetched(requests[1..], page.next)
  {
  }

  /** Every row a walk returns was in the table of some page it fetched. */
  lemma {:induction false} WalkIsSound(requests: seq<Request>, cursor: Option<Key>, k: Key)
    requires Positive(requests) && k in Walk(requests, cursor)
    ensures exists t :: 0 <= t < Fetched(requests, cursor) && k in requests[t].table
  {
    PageIsExact(requests[0].table, cursor, requests[0].limit);
    FetchedNext(requests, cursor);
    var page := ListPage(requests[0].table, cursor, requests[0].limit);
    if k !in page.items {
      var rest := requests[1..];
      WalkIsSound(rest, page.next, k);
      var t :| 0 <= t < Fetched(rest, page.next) && k in rest[t].table;
      assert k in requests[t + 1].table;
    }
  }

  /** A finished walk misses no row that was there throughout, whatever came and went meanwhile. */
  lemma {:induction false} WalkIsComplete(requests: seq<Request>, cursor: Option<Key>, k: Key)
    requires Positive(requests) && Pages(requests, cursor).Some? && PastCursor(k, cursor)
    requires forall t | 0 <= t < Pages(requests, cursor).value :: k in requests[t].table
    ensures k in Walk(requests, cursor)
  {
    PageIsExact(requests[0].table, cursor, requests[0].limit);
    var page := ListPage(requests[0].table, cursor, requests[0].limit);
    if page.next.Some? && k !in page.items {
      assert forall t | 0 <= t < |requests[1..]| :: requests[1..][t] == requests[t + 1];
      WalkIsComplete(requests[1..], page.next, k);
    }
  }

  // ---- walking a table nobody changes --------------------------------------------------------

  /** On a fixed table the walk ends, because every page with a successor uses rows up. */
  function FixedWalk(table: set<Key>, cursor: Option<Key>, limit: nat): seq<Key>
    requires limit > 0
    decreases |Remaining(table, cursor)|
  {
    var page := ListPage(table, cursor, limit);
    if page.next.None? then page.items
    else
      FewerRemain(table, cursor, limit);
      page.items + FixedWalk(table, page.next, limit)
  }

  lemma FewerRemain(table: set<Key>, cursor: Option<Key>, limit: nat)
    requires limit > 0 && ListPage(table, cursor, limit).next.Some?
    ensures var page := ListPage(table, cursor, limit);
            && |Remaining(table, page.next)| == |Remaining(table, cursor)| - limit
            && Remaining(table, page.next) == Older(Remaining(table, cursor), page.next.value)
  {
    var page := ListPage(table, cursor, limit);
    var rest := Remaining(table, cursor);
    PageIsExact(table, cursor, limit);
    assert page.items == First(NewestFirst(rest), limit);
    assert page.next.value in page.items;
    assert Remaining(table, page.next) == Older(rest, page.next.value);
    RestIsOlder(rest, limit);
    assert |NewestFirst(rest)[limit..]| == |rest| - limit;
  }

  lemma PageIsPrefix(table: set<Key>, cursor: Option<Key>, limit: nat)
    requires limit > 0
    ensures var page, listing := ListPage(table, cursor, limit), NewestFirst(Remaining(table, cursor));
            && page.items == First(listing, limit)
            && (page.next.Some? <==> |listing| > limit)
            && (page.next.Some? ==> page.next.value == listing[limit - 1])
  {
  }

  lemma ListingSplits(table: set<Key>, cursor: Option<Key>, limit: nat)
    requires limit > 0 && ListPage(table, cursor, limit).next.Some?
    ensures var page := ListPage(table, cursor, limit);
            NewestFirst(Remaining(table, cursor)) == page.items + NewestFirst(Remaining(table, page.next))
  {
    var listing := NewestFirst(Remaining(table, cursor));
    PageIsPrefix(table, cursor, limit);
    FewerRemain(table, cursor, limit);
    RestIsOlder(Remaining(table, cursor), limit);
    assert listing == listing[..limit] + listing[limit..];
  }

  /** The pages of a fixed table concatenate to the whole filtered listing. */
  lemma {:induction false} FixedWalkIsListing(table: set<Key>, cursor: Option<Key>, limit: nat)
    requires limit > 0
    ensures FixedWalk(table, cursor, limit) == NewestFirst(Remaining(table, cursor))
    decreases |Remaining(table, cursor)|
  {
    var page := ListPage(table, cursor, limit);
    if page.next.Some? {
      ListingSplits(table, cursor, limit);
      FewerRemain(table, cursor, limit);
      FixedWalkIsListing(table, page.next, limit);
    } else {
      PageIsPrefix(table, cursor, limit);
    }
  }

  // ---- walking the account list --------------------------------------------------------------

  /** The account table when a page was asked for, and the limit asked for. */
  datatype Call = Call(accounts: map<nat, Account>, limit: nat)

  function Requests(calls: seq<Call>, filter: Account -> bool): (requests: seq<Request>)
    ensures |requests| == |calls|
  {
    seq(|calls|, t requires 0 <= t < |calls| => Request(Matching(calls[t].accounts, filter), calls[t].limit))
  }

  /** An account that exists and matches at every page of a finished walk is returned exactly once. */
  lemma EveryAccountOnce(calls: seq<Call>, filter: Account -> bool, a: nat, createdAt: real)
    requires forall t | 0 <= t < |calls| :: calls[t].limit > 0
    requires Pages(Requests(calls, filter), None).Some?
    requires forall t | 0 <= t < Pages(Requests(calls, filter), None).value ::
               var accounts := calls[t].accounts;
               a in accounts && accounts[a].createdAt == createdAt && filter(accounts[a])
    ensures var walk := Walk(Requests(calls, filter), None);
            exists i :: 0 <= i < |walk| && walk[i].id == a
                        && forall j :: 0 <= j < |walk| && walk[j].id == a ==> j == i
  {
    var requests := Requests(calls, filter);
    var key := Key(createdAt, a);
    forall t | 0 <= t < Pages(requests, None).value ensures KeyOnly(requests[t].table, key) {
      assert a in calls[t].accounts && filter(calls[t].accounts[a]);
    }
    KeyOnce(requests, key);
  }

  /** The table has the key, and no other with its id. */
  predicate KeyOnly(table: set<Key>, key: Key) {
    key in table && forall k | k in table && k.id == key.id :: k == key
  }

  lemma KeyOnce(requests: seq<Request>, key: Key)
    requires Positive(requests) && Pages(requests, None).Some?
    requires forall t | 0 <= t < Pages(requests, None).value :: KeyOnly(requests[t].table, key)
    ensures var walk := Walk(requests, None);
            exists i :: 0 <= i < |walk| && walk[i].id == key.id
                        && forall j :: 0 <= j < |walk| && walk[j].id == key.id ==> j == i
  {
    var walk := Walk(requests, None);
    WalkIsComplete(requests, None, key);
    WalkDescends(requests, None);
    var i :| 0 <= i < |walk| && walk[i] == key;
    forall j | 0 <= j < |walk| && walk[j].id == key.id ensures j == i {
      assert walk[j] in walk;
      WalkIsSound(requests, None, walk[j]);
      assert walk[j] == key;
    }
  }
}

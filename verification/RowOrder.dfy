/**
 Rows under a stamp-and-id order, newest first: what `ORDER BY t DESC, id DESC` with a limit or an
 offset selects. A stamp is a number: a time, or the sort key a collation gives a text.
 */
module RowOrder {

  datatype Key = Key(at: real, id: nat)

  /** `a` sorts after `b` in the descending listing. */
  predicate Less(a: Key, b: Key) {
    a.at < b.at || (a.at == b.at && a.id < b.id)
  }

  predicate IsNewest(s: set<Key>, max: Key) {
    max in s && forall x | x in s && x != max :: Less(x, max)
  }

  lemma {:induction false} NewestExists(s: set<Key>)
    requires s != {}
    ensures exists max :: IsNewest(s, max)
    decreases |s|
  {
    var k :| k in s;
    if s == {k} {
      assert IsNewest(s, k);
    } else {
      var rest := s - {k};
      assert s == rest + {k};
      NewestExists(rest);
      var max :| IsNewest(rest, max);
      assert IsNewest(s, if Less(max, k) then k else max);
    }
  }

  function Newest(s: set<Key>): (max: Key)
    requires s != {}
    ensures IsNewest(s, max)
  {
    NewestExists(s);
    var max :| max in s && IsNewest(s, max);
    max
  }

  /** The rows, newest first. */
  function NewestFirst(s: set<Key>): (sorted: seq<Key>)
    ensures |sorted| == |s|
    decreases |s|
  {
    if s == {} then [] else [Newest(s)] + NewestFirst(s - {Newest(s)})
  }

  predicate Descending(ks: seq<Key>) {
    forall i, j | 0 <= i < j < |ks| :: Less(ks[j], ks[i])
  }

  /** The listing holds every row once, in strictly descending order. */
  lemma {:induction false} ListingIsExact(s: set<Key>)
    ensures Descending(NewestFirst(s))
    ensures forall k :: k in NewestFirst(s) <==> k in s
    decreases |s|
  {
    if s != {} {
      var max := Newest(s);
      ListingIsExact(s - {max});
      var rest := NewestFirst(s - {max});
      forall j | 0 < j < |NewestFirst(s)| ensures Less(NewestFirst(s)[j], max) {
        assert NewestFirst(s)[j] == rest[j - 1] && rest[j - 1] in rest;
      }
    }
  }

  function Newer(s: set<Key>, k: Key): set<Key> {
    set x | x in s && Less(k, x)
  }

  function Older(s: set<Key>, k: Key): set<Key> {
    set x | x in s && Less(x, k)
  }

  /** A row is among the first `n` exactly when fewer than `n` rows are newer. */
  lemma {:induction false} FirstNByRank(s: set<Key>, n: nat, k: Key)
    ensures k in First(NewestFirst(s), n) <==> k in s && |Newer(s, k)| < n
    decreases |s|
  {
    var sorted := NewestFirst(s);
    if s == {} {
    } else if n == 0 {
    } else {
      var max := Newest(s);
      var rest := s - {max};
      FirstNByRank(rest, n - 1, k);
      assert First(sorted, n) == [max] + First(NewestFirst(rest), n - 1);
      if k == max {
        assert Newer(s, k) == {};
      } else if k in s {
        assert Newer(s, k) == Newer(rest, k) + {max};
      }
    }
  }

  function First<T>(ks: seq<T>, n: nat): seq<T> {
    if |ks| <= n then ks else ks[..n]
  }

  /** What follows the first `n` rows is the listing of the rows older than the last of them. */
  lemma {:induction false} RestIsOlder(s: set<Key>, n: nat)
    requires 0 < n <= |s|
    ensures NewestFirst(s)[n..] == NewestFirst(Older(s, NewestFirst(s)[n - 1]))
    decreases |s|
  {
    var max := Newest(s);
    var rest := s - {max};
    var sorted := NewestFirst(rest);
    assert NewestFirst(s) == [max] + sorted;
    if n == 1 {
      assert Older(s, max) == rest;
    } else {
      RestIsOlder(rest, n - 1);
      var last := sorted[n - 2];
      ListedIsMember(rest, n - 2);
      assert Older(rest, last) == Older(s, last);
      assert ([max] + sorted)[n..] == sorted[n - 1..];
    }
  }

  lemma ListedIsMember(s: set<Key>, i: nat)
    requires i < |s|
    ensures NewestFirst(s)[i] in s
  {
    ListingIsExact(s);
    assert NewestFirst(s)[i] in NewestFirst(s);
  }
}

/**
 * Keyset pagination over a strict total order: each request asks for the rows after a position,
 * takes one row more than the page size, and hands out a resume position only when that extra
 * row exists.
 */
module Paging {
  import opened Wrappers

  ghost predicate StrictTotal<K(!new)>(lt: (K, K) -> bool) {
    && (forall a :: !lt(a, a))
    && (forall a, b :: a != b ==> lt(a, b) || lt(b, a))
    && (forall a, b, c :: lt(a, b) && lt(b, c) ==> lt(a, c))
  }

  ghost predicate Ascending<K>(lt: (K, K) -> bool, q: seq<K>) {
    forall i, j :: 0 <= i < j < |q| ==> lt(q[i], q[j])
  }

  /** `q` lists `s` in order: nothing missing, nothing foreign, and by order nothing twice. */
  ghost predicate Lists<K(!new)>(lt: (K, K) -> bool, q: seq<K>, s: set<K>) {
    && Ascending(lt, q)
    && forall k :: k in q <==> k in s
  }

  ghost predicate Least<K>(lt: (K, K) -> bool, m: K, s: set<K>) {
    m in s && forall k :: k in s ==> k == m || lt(m, k)
  }

  lemma {:induction false} LeastExists<K(!new)>(lt: (K, K) -> bool, s: set<K>)
    requires StrictTotal(lt) && s != {}
    ensures exists m :: Least(lt, m, s)
  {
    var x :| x in s;
    if s == {x} {
      assert Least(lt, x, s);
    } else {
      assert s - {x} != {};
      LeastExists(lt, s - {x});
      var m :| Least(lt, m, s - {x});
      var least := if lt(x, m) then x else m;
      forall k | k in s ensures k == least || lt(least, k) {
        assert k == x || k in s - {x};
      }
      assert Least(lt, least, s);
    }
  }

  /** The result of `ORDER BY` on the set of keys. */
  ghost function Ordered<K(!new)>(lt: (K, K) -> bool, s: set<K>): (q: seq<K>)
    requires StrictTotal(lt)
    ensures Lists(lt, q, s)
  {
    if s == {} then []
    else
      LeastExists(lt, s);
      var m :| Least(lt, m, s);
      var rest := Ordered(lt, s - {m});
      assert forall k :: k in [m] + rest <==> k == m || k in rest;
      [m] + rest
  }

  /** A set has one ordered listing. */
  lemma {:induction false} ListingIsUnique<K(!new)>(lt: (K, K) -> bool, p: seq<K>, q: seq<K>, s: set<K>)
    requires StrictTotal(lt) && Lists(lt, p, s) && Lists(lt, q, s)
    ensures p == q
  {
    assert q != [] ==> q[0] in q && q[0] in s;
    assert p != [] ==> p[0] in p && p[0] in s;
    if p != [] {
      var m := p[0];
      assert m == q[0];
      TailLists(lt, p, s);
      TailLists(lt, q, s);
      ListingIsUnique(lt, p[1..], q[1..], s - {m});
    }
  }

  lemma TailLists<K(!new)>(lt: (K, K) -> bool, q: seq<K>, s: set<K>)
    requires StrictTotal(lt) && Lists(lt, q, s) && q != []
    ensures Lists(lt, q[1..], s - {q[0]})
  {
    forall k ensures k in q[1..] <==> k in s - {q[0]} {
      if k in q && k != q[0] {
        var i :| 0 <= i < |q| && q[i] == k;
        assert q[1..][i - 1] == k;
      }
    }
  }

  ghost function After<K>(lt: (K, K) -> bool, s: set<K>, after: Option<K>): set<K> {
    set k | k in s && (after.Some? ==> lt(after.value, k))
  }

  datatype Page<K> = Page(items: seq<K>, next: Option<K>)

  /** Cut a fetched listing down to the page, as the handlers do with their one extra row. */
  function Cut<K>(fetched: seq<K>, limit: nat): Page<K>
    requires limit >= 1
  {
    if |fetched| > limit then Page(fetched[..limit], Some(fetched[limit - 1])) else Page(fetched, None)
  }

  ghost function PageAfter<K(!new)>(lt: (K, K) -> bool, s: set<K>, after: Option<K>, limit: nat): Page<K>
    requires StrictTotal(lt) && limit >= 1
  {
    Cut(Ordered(lt, After(lt, s, after)), limit)
  }

  /** Fetching only one row beyond the limit yields the same page as fetching everything. */
  lemma CutNeedsOneExtra<K>(all: seq<K>, limit: nat)
    requires limit >= 1
    ensures Cut(if |all| > limit then all[..limit + 1] else all, limit) == Cut(all, limit)
  {
    if |all| > limit {
      assert all[..limit + 1][..limit] == all[..limit];
    }
  }

  /** The rest of the listing is exactly what the next request sees. */
  lemma RestIsNextListing<K(!new)>(lt: (K, K) -> bool, s: set<K>, after: Option<K>, limit: nat)
    requires StrictTotal(lt) && limit >= 1
    requires PageAfter(lt, s, after, limit).next.Some?
    ensures Ordered(lt, After(lt, s, PageAfter(lt, s, after, limit).next))
            == Ordered(lt, After(lt, s, after))[limit..]
  {
    var all := Ordered(lt, After(lt, s, after));
    var last := all[limit - 1];
    var rest := all[limit..];
    var remaining := After(lt, s, Some(last));
    forall k ensures k in rest <==> k in remaining {
      if k in rest {
        var i :| 0 <= i < |rest| && rest[i] == k;
        assert all[limit + i] == k && k in all;
      }
      if k in remaining {
        assert last in all;
        assert k in all;
        var i :| 0 <= i < |all| && all[i] == k;
        assert i >= limit;
        assert rest[i - limit] == k;
      }
    }
    ListingIsUnique(lt, rest, Ordered(lt, remaining), remaining);
  }

  lemma RemainingShrinks<K(!new)>(lt: (K, K) -> bool, s: set<K>, after: Option<K>, limit: nat)
    requires StrictTotal(lt) && limit >= 1
    requires PageAfter(lt, s, after, limit).next.Some?
    ensures After(lt, s, PageAfter(lt, s, after, limit).next) < After(lt, s, after)
  {
    var all := Ordered(lt, After(lt, s, after));
    var last := all[limit - 1];
    assert last in all && last in After(lt, s, after);
    assert last !in After(lt, s, Some(last));
  }

  /** A client following the resume positions from `after` until there is none. */
  ghost function Walk<K(!new)>(lt: (K, K) -> bool, s: set<K>, after: Option<K>, limit: nat): seq<K>
    requires StrictTotal(lt) && limit >= 1
    decreases After(lt, s, after)
  {
    var page := PageAfter(lt, s, after, limit);
    if page.next.None? then page.items
    else
      RemainingShrinks(lt, s, after, limit);
      page.items + Walk(lt, s, page.next, limit)
  }

  /** The pages of an unchanging table concatenate to the one sorted query. */
  lemma {:induction false} WalkIsSortedQuery<K(!new)>(lt: (K, K) -> bool, s: set<K>, after: Option<K>, limit: nat)
    requires StrictTotal(lt) && limit >= 1
    ensures Walk(lt, s, after, limit) == Ordered(lt, After(lt, s, after))
    decreases After(lt, s, after)
  {
    hide StrictTotal, Lists;
    var all := Ordered(lt, After(lt, s, after));
    if |all| > limit {
      var next := PageAfter(lt, s, after, limit).next;
      RemainingShrinks(lt, s, after, limit);
      RestIsNextListing(lt, s, after, limit);
      WalkIsSortedQuery(lt, s, next, limit);
      assert all == all[..limit] + all[limit..];
      assert Walk(lt, s, after, limit) == all[..limit] + Walk(lt, s, next, limit);
    }
  }

  datatype LiveWalk<K> = LiveWalk(items: seq<K>, drained: bool)

  /** The same client while the table changes under it: request `i` sees `tables[i]`. */
  ghost function WalkLive<K(!new)>(lt: (K, K) -> bool, tables: seq<set<K>>, after: Option<K>, limit: nat): LiveWalk<K>
    requires StrictTotal(lt) && limit >= 1
  {
    if tables == [] then LiveWalk([], false)
    else
      var page := PageAfter(lt, tables[0], after, limit);
      if page.next.None? then LiveWalk(page.items, true)
      else
        var rest := WalkLive(lt, tables[1..], page.next, limit);
        LiveWalk(page.items + rest.items, rest.drained)
  }

  /** What a page holds: the first keys after the position, up to and including the resume position. */
  lemma PageHolds<K(!new)>(lt: (K, K) -> bool, s: set<K>, after: Option<K>, limit: nat, k: K)
    requires StrictTotal(lt) && limit >= 1
    ensures var page := PageAfter(lt, s, after, limit);
            && Ascending(lt, page.items)
            && (page.next.Some? ==> page.items != [] && page.next.value == page.items[|page.items| - 1]
                                    && page.next.value in After(lt, s, after))
            && (k in page.items <==> k in After(lt, s, after)
                                     && (page.next.Some? ==> k == page.next.value || lt(k, page.next.value)))
            && |page.items| <= limit && (page.next.Some? ==> |page.items| == limit)
  {
    var all := Ordered(lt, After(lt, s, after));
    var page := PageAfter(lt, s, after, limit);
    assert k in all <==> k in After(lt, s, after);
    if |all| > limit {
      var last := all[limit - 1];
      assert last in all;
      if k in all {
        var i :| 0 <= i < |all| && all[i] == k;
        assert i < limit ==> page.items[i] == k;
        assert i >= limit ==> lt(last, k);
      }
      if k in page.items {
        var i :| 0 <= i < limit && all[i] == k;
        assert i < limit - 1 ==> lt(k, last);
      }
    }
  }

  ghost predicate Reached<K>(lt: (K, K) -> bool, after: Option<K>, k: K) {
    after.Some? ==> lt(after.value, k)
  }

  lemma AscendingAppend<K(!new)>(lt: (K, K) -> bool, p: seq<K>, q: seq<K>)
    requires StrictTotal(lt) && Ascending(lt, p) && Ascending(lt, q)
    requires p != [] && forall k :: k in q ==> lt(p[|p| - 1], k)
    ensures Ascending(lt, p + q)
  {
    forall i, j | 0 <= i < j < |p + q| ensures lt((p + q)[i], (p + q)[j]) {
      if i < |p| <= j {
        assert q[j - |p|] in q;
      }
    }
  }

  /** A walk that makes more requests than there are keys left drains a table that stays as it is. */
  lemma {:induction false} WalkLiveDrains<K(!new)>(lt: (K, K) -> bool, tables: seq<set<K>>, s: set<K>,
                                                   after: Option<K>, limit: nat)
    requires StrictTotal(lt) && limit >= 1
    requires (forall t :: t in tables ==> t == s) && |tables| > |After(lt, s, after)|
    ensures WalkLive(lt, tables, after, limit).drained
  {
    assert tables[0] in tables;
    var page := PageAfter(lt, s, after, limit);
    if page.next.Some? {
      RemainingShrinks(lt, s, after, limit);
      SmallerSet(After(lt, s, page.next), After(lt, s, after));
      assert forall t :: t in tables[1..] ==> t in tables;
      WalkLiveDrains(lt, tables[1..], s, page.next, limit);
    }
  }

  lemma SmallerSet<K>(a: set<K>, b: set<K>)
    requires a < b
    ensures |a| < |b|
  {
    assert b == a + (b - a) && b - a != {};
  }

  /**
   * Whatever is inserted or removed between requests, no key is delivered twice, and a walk that
   * reaches its end has delivered every key that was in the table all along.
   */
  lemma {:induction false} WalkLiveIsStable<K(!new)>(
    lt: (K, K) -> bool, tables: seq<set<K>>, after: Option<K>, limit: nat)
    requires StrictTotal(lt) && limit >= 1
    ensures Ascending(lt, WalkLive(lt, tables, after, limit).items)
    ensures forall k :: k in WalkLive(lt, tables, after, limit).items
                        ==> Reached(lt, after, k) && exists t :: t in tables && k in t
    ensures WalkLive(lt, tables, after, limit).drained
            ==> forall k :: Reached(lt, after, k) && (forall t :: t in tables ==> k in t)
                            ==> k in WalkLive(lt, tables, after, limit).items
  {
    if tables != [] {
      var s := tables[0];
      assert s in tables;
      var page := PageAfter(lt, s, after, limit);
      forall k ensures k in page.items ==> k in After(lt, s, after) {
        PageHolds(lt, s, after, limit, k);
      }
      assert Ascending(lt, page.items);
      if page.next.Some? {
        var rest := WalkLive(lt, tables[1..], page.next, limit);
        WalkLiveIsStable(lt, tables[1..], page.next, limit);
        PageHolds(lt, s, after, limit, page.next.value);
        AscendingAppend(lt, page.items, rest.items);
        forall k | k in rest.items ensures Reached(lt, after, k) && exists t :: t in tables && k in t {
          var t :| t in tables[1..] && k in t;
          assert t in tables;
        }
        forall k | rest.drained && Reached(lt, after, k) && (forall t :: t in tables ==> k in t)
          ensures k in page.items + rest.items
        {
          PageHolds(lt, s, after, limit, k);
          assert forall t :: t in tables[1..] ==> t in tables;
        }
      } else {
        forall k | Reached(lt, after, k) && (forall t :: t in tables ==> k in t) ensures k in page.items {
          PageHolds(lt, s, after, limit, k);
        }
      }
    }
  }

  lemma InsertLists<K(!new)>(lt: (K, K) -> bool, q: seq<K>, s: set<K>, k: K, i: nat)
    requires StrictTotal(lt) && Lists(lt, q, s) && k !in s && i <= |q|
    requires forall j :: 0 <= j < i ==> lt(q[j], k)
    requires i < |q| ==> !lt(q[i], k)
    ensures Lists(lt, q[..i] + [k] + q[i..], s + {k})
  {
    InsertAscends(lt, q, k, i);
    hide StrictTotal, Ascending;
    assert q == q[..i] + q[i..];
    InsertHolds(q[..i], q[i..], k);
  }

  lemma InsertHolds<K>(head: seq<K>, tail: seq<K>, k: K)
    ensures forall x :: x in head + [k] + tail <==> x in head + tail || x == k
  {
  }

  lemma InsertAscends<K(!new)>(lt: (K, K) -> bool, q: seq<K>, k: K, i: nat)
    requires StrictTotal(lt) && Ascending(lt, q) && k !in q && i <= |q|
    requires forall j :: 0 <= j < i ==> lt(q[j], k)
    requires i < |q| ==> !lt(q[i], k)
    ensures Ascending(lt, q[..i] + [k] + q[i..])
  {
    assert forall j :: 0 <= j < |q| ==> q[j] in q;
    assert forall j :: i <= j < |q| ==> lt(k, q[j]);
  }

  /** Insert a key into an ordered listing, before the first greater one. */
  method InsertInOrder<K(!new,==)>(lt: (K, K) -> bool, q: seq<K>, ghost s: set<K>, k: K) returns (r: seq<K>)
    requires StrictTotal(lt) && Lists(lt, q, s) && k !in s
    ensures Lists(lt, r, s + {k})
  {
    hide Lists, StrictTotal;
    var i := 0;
    while i < |q| && lt(q[i], k)
      invariant i <= |q| && forall j :: 0 <= j < i ==> lt(q[j], k)
    {
      i := i + 1;
    }
    InsertLists(lt, q, s, k, i);
    r := q[..i] + [k] + q[i..];
  }

  lemma OneKeyMore<K(!new)>(lt: (K, K) -> bool, s: set<K>, todo: set<K>, k: K, after: Option<K>)
    requires todo <= s && k in todo
    ensures k !in After(lt, s - todo, after)
    ensures After(lt, s - (todo - {k}), after)
            == After(lt, s - todo, after) + if after.None? || lt(after.value, k) then {k} else {}
  {
  }

  lemma NoKeys<K(!new)>(lt: (K, K) -> bool, s: set<K>, after: Option<K>)
    ensures Lists(lt, [], After(lt, s - s, after)) && s - {} == s
  {
  }

  /** `ORDER BY ... LIMIT n` over the keys after a position. */
  method Fetch<K(!new,==)>(lt: (K, K) -> bool, s: set<K>, after: Option<K>, limit: nat) returns (q: seq<K>)
    requires StrictTotal(lt)
    ensures var all := Ordered(lt, After(lt, s, after)); q == if |all| > limit then all[..limit] else all
  {
    hide Lists, StrictTotal, After;
    q := [];
    var todo := s;
    NoKeys(lt, s, after);
    while todo != {}
      invariant todo <= s && Lists(lt, q, After(lt, s - todo, after))
      decreases |todo|
    {
      var k :| k in todo;
      OneKeyMore(lt, s, todo, k, after);
      if after.None? || lt(after.value, k) {
        q := InsertInOrder(lt, q, After(lt, s - todo, after), k);
      } else {
        assert After(lt, s - todo, after) + {} == After(lt, s - todo, after);
      }
      todo := todo - {k};
    }
    ListingIsUnique(lt, q, Ordered(lt, After(lt, s, after)), After(lt, s, after));
    if |q| > limit {
      q := q[..limit];
    }
  }

  /** A page request: fetch one row beyond the limit, cut it off again, resume after the last row kept. */
  method FetchPage<K(!new,==)>(lt: (K, K) -> bool, s: set<K>, after: Option<K>, limit: nat) returns (page: Page<K>)
    requires StrictTotal(lt) && limit >= 1
    ensures page == PageAfter(lt, s, after, limit)
  {
    var found := Fetch(lt, s, after, limit + 1);
    CutNeedsOneExtra(Ordered(lt, After(lt, s, after)), limit);
    var next: Option<K> := None;
    if |found| > limit {
      found := found[..limit];
      next := Some(found[|found| - 1]);
    }
    page := Page(found, next);
  }
}

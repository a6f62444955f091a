/**
 * Browsing the contacts list over opaque cursors, by (updated_at, id) or by (sort_name, id), in
 * either direction. `rows` are the live contacts left by the request's filters.
 */
module ContactList {
  import opened Wrappers
  import opened Text
  import opened Paging
  import CursorCodec
  import Decimal

  type Wire = CursorCodec.Wire

  datatype Contact = Contact(updatedAt: int, sortName: string)

  datatype TimeKey = TimeKey(updatedAt: int, id: nat)
  datatype NameKey = NameKey(sortName: string, id: nat)

  predicate TimeBefore(a: TimeKey, b: TimeKey) {
    a.updatedAt < b.updatedAt || (a.updatedAt == b.updatedAt && a.id < b.id)
  }

  /** SQLite's BINARY collation. */
  predicate TextBefore(a: string, b: string) {
    if a == "" then b != ""
    else b != "" && (a[0] < b[0] || (a[0] == b[0] && TextBefore(a[1..], b[1..])))
  }

  predicate NameBefore(a: NameKey, b: NameKey) {
    TextBefore(a.sortName, b.sortName) || (a.sortName == b.sortName && a.id < b.id)
  }

  predicate TimeAfter(a: TimeKey, b: TimeKey) {
    TimeBefore(b, a)
  }

  predicate NameAfter(a: NameKey, b: NameKey) {
    NameBefore(b, a)
  }

  lemma {:induction false} TextBeforeIrreflexive(a: string)
    ensures !TextBefore(a, a)
  {
    if a != "" {
      TextBeforeIrreflexive(a[1..]);
    }
  }

  lemma {:induction false} TextBeforeTotal(a: string, b: string)
    ensures a != b ==> TextBefore(a, b) || TextBefore(b, a)
  {
    if a != "" && b != "" && a[0] == b[0] {
      TextBeforeTotal(a[1..], b[1..]);
      assert a == [a[0]] + a[1..] && b == [b[0]] + b[1..];
    }
  }

  lemma {:induction false} TextBeforeTransitive(a: string, b: string, c: string)
    requires TextBefore(a, b) && TextBefore(b, c)
    ensures TextBefore(a, c)
  {
    if a != "" && a[0] == b[0] == c[0] {
      TextBeforeTransitive(a[1..], b[1..], c[1..]);
    }
  }

  /** Both list orders are strict and total, in both directions: the id breaks every tie. */
  lemma OrdersAreTotal()
    ensures StrictTotal(TimeBefore) && StrictTotal(TimeAfter)
    ensures StrictTotal(NameBefore) && StrictTotal(NameAfter)
  {
    forall a ensures !NameBefore(a, a) {
      TextBeforeIrreflexive(a.sortName);
    }
    forall a, b | a != b ensures NameBefore(a, b) || NameBefore(b, a) {
      TextBeforeTotal(a.sortName, b.sortName);
    }
    forall a, b, c | NameBefore(a, b) && NameBefore(b, c) ensures NameBefore(a, c) {
      if TextBefore(a.sortName, b.sortName) && TextBefore(b.sortName, c.sortName) {
        TextBeforeTransitive(a.sortName, b.sortName, c.sortName);
      }
    }
  }

  // Cursors on the wire

  function EncodeTimeKey(wire: Wire, k: TimeKey): string {
    CursorCodec.EncodeCursor(wire, k.updatedAt, Decimal.Render(k.id))
  }

  /** Decode a raw time cursor and re-type its id to the integer key column. */
  function DecodeTimeKey(wire: Wire, raw: string): Option<TimeKey> {
    match CursorCodec.DecodeCursor(wire, raw)
    case Err(_) => None
    case Ok(c) => var id :- Decimal.ParseUint(c.id); Some(TimeKey(c.updatedAt, id))
  }

  function EncodeNameKey(wire: Wire, k: NameKey): string {
    CursorCodec.EncodeNameCursor(wire, k.sortName, Decimal.Render(k.id))
  }

  function DecodeNameKey(wire: Wire, raw: string): Option<NameKey> {
    match CursorCodec.DecodeNameCursor(wire, raw)
    case Err(_) => None
    case Ok(c) => var id :- Decimal.ParseUint(c.id); Some(NameKey(c.sortName, id))
  }

  /** A time position survives the wire exactly when its id fits the key column. */
  lemma TimeKeyOnWire(wire: Wire, k: TimeKey)
    requires wire.Valid()
    ensures EncodeTimeKey(wire, k) != ""
    ensures DecodeTimeKey(wire, EncodeTimeKey(wire, k)) == Some(k) <==> k.id < Decimal.UINT64_LIMIT
  {
    CursorCodec.TimeCursorRoundTrip(wire, k.updatedAt, Decimal.Render(k.id));
    Decimal.ParseRender(k.id);
    assert (wire.formatTime(k.updatedAt) + "|" + Decimal.Render(k.id)) != "";
  }

  /** A name position survives exactly when, besides, the name is not empty and no timestamp. */
  lemma NameKeyOnWire(wire: Wire, k: NameKey)
    requires wire.Valid()
    ensures EncodeNameKey(wire, k) != ""
    ensures DecodeNameKey(wire, EncodeNameKey(wire, k)) == Some(k)
            <==> k.id < Decimal.UINT64_LIMIT && k.sortName != "" && wire.parseTime(k.sortName).None?
  {
    var id := Decimal.Render(k.id);
    assert '|' !in id by {
      assert !Decimal.IsDigit('|');
    }
    CursorCodec.NameCursorRoundTrip(wire, k.sortName, id);
    CursorCodec.SplitNameOfJoined(wire, k.sortName, id);
    Decimal.ParseRender(k.id);
    assert wire.decode64(EncodeNameKey(wire, k)) == Some(k.sortName + "|" + id);
    assert (k.sortName + "|" + id) != "";
  }

  ghost predicate OnWire<K(!new)>(s: set<K>, encode: K -> string, decode: string -> Option<K>) {
    forall k :: k in s ==> encode(k) != "" && decode(encode(k)) == Some(k)
  }

  /** A key's cursor is the key's, or is refused; it is never another key's. */
  ghost predicate Sound<K(!new)>(s: set<K>, encode: K -> string, decode: string -> Option<K>) {
    forall k :: k in s ==> encode(k) != "" && (decode(encode(k)) == Some(k) || decode(encode(k)) == None)
  }

  /** The position a raw cursor stands for; None when the cursor is refused. */
  function Position<K>(decode: string -> Option<K>, raw: string): Option<Option<K>> {
    if raw == "" then Some(None)
    else
      match decode(raw)
      case None => None
      case Some(k) => Some(Some(k))
  }

  /** A client following raw next_cursor strings; None when a request is refused. */
  ghost function WireWalk<K(!new)>(lt: (K, K) -> bool, s: set<K>, encode: K -> string,
                                   decode: string -> Option<K>, raw: string, limit: nat): Option<seq<K>>
    requires StrictTotal(lt) && limit >= 1 && Sound(s, encode, decode)
    decreases match Position(decode, raw) case None => {} case Some(p) => After(lt, s, p)
  {
    match Position(decode, raw)
    case None => None
    case Some(p) =>
      var page := PageAfter(lt, s, p, limit);
      if page.next.None? then Some(page.items)
      else
        RemainingShrinks(lt, s, p, limit);
        PageHolds(lt, s, p, limit, page.next.value);
        var rest :- WireWalk(lt, s, encode, decode, encode(page.next.value), limit);
        Some(page.items + rest)
  }

  /** Every page of the listing but the last ends on a key whose cursor is accepted. */
  predicate PageEndsOnWire<K(==)>(q: seq<K>, encode: K -> string, decode: string -> Option<K>, limit: nat)
    requires limit >= 1
    decreases |q|
  {
    || |q| <= limit
    || (decode(encode(q[limit - 1])) == Some(q[limit - 1]) && PageEndsOnWire(q[limit..], encode, decode, limit))
  }

  /**
   * Following raw next_cursor strings yields the one sorted query exactly when every page ends on a key
   * whose cursor is accepted, and otherwise runs into a refusal; it never yields anything else.
   */
  lemma {:induction false} WireWalkExactly<K(!new)>(lt: (K, K) -> bool, s: set<K>, encode: K -> string,
    decode: string -> Option<K>, raw: string, limit: nat)
    requires StrictTotal(lt) && limit >= 1 && Sound(s, encode, decode)
    requires Position(decode, raw).Some?
    ensures var all := Ordered(lt, After(lt, s, Position(decode, raw).value));
            WireWalk(lt, s, encode, decode, raw, limit)
            == if PageEndsOnWire(all, encode, decode, limit) then Some(all) else None
    decreases After(lt, s, Position(decode, raw).value)
  {
    hide StrictTotal, Lists;
    var p := Position(decode, raw).value;
    var all := Ordered(lt, After(lt, s, p));
    var page := PageAfter(lt, s, p, limit);
    if page.next.Some? {
      RemainingShrinks(lt, s, p, limit);
      PageHolds(lt, s, p, limit, page.next.value);
      RestIsNextListing(lt, s, p, limit);
      var raw' := encode(page.next.value);
      if Position(decode, raw').Some? {
        WireWalkExactly(lt, s, encode, decode, raw', limit);
        assert all == all[..limit] + all[limit..];
      }
    }
  }

  lemma {:induction false} EveryPageEndsOnWire<K(!new)>(q: seq<K>, s: set<K>, encode: K -> string,
    decode: string -> Option<K>, limit: nat)
    requires limit >= 1 && OnWire(s, encode, decode) && forall k :: k in q ==> k in s
    ensures PageEndsOnWire(q, encode, decode, limit)
    decreases |q|
  {
    if |q| > limit {
      EveryPageEndsOnWire(q[limit..], s, encode, decode, limit);
    }
  }

  /** In particular when every key survives the wire. */
  lemma WireWalkIsSortedQuery<K(!new)>(lt: (K, K) -> bool, s: set<K>, encode: K -> string,
    decode: string -> Option<K>, raw: string, limit: nat)
    requires StrictTotal(lt) && limit >= 1 && OnWire(s, encode, decode)
    requires Position(decode, raw).Some?
    ensures WireWalk(lt, s, encode, decode, raw, limit)
            == Some(Ordered(lt, After(lt, s, Position(decode, raw).value)))
  {
    hide StrictTotal, WireWalk;
    var all := Ordered(lt, After(lt, s, Position(decode, raw).value));
    WireWalkExactly(lt, s, encode, decode, raw, limit);
    EveryPageEndsOnWire(all, s, encode, decode, limit);
  }

  function TimeKeys(rows: map<nat, Contact>): set<TimeKey> {
    set id | id in rows :: TimeKey(rows[id].updatedAt, id)
  }

  function NameKeys(rows: map<nat, Contact>): set<NameKey> {
    set id | id in rows :: NameKey(rows[id].sortName, id)
  }

  function TimeOrder(desc: bool): (TimeKey, TimeKey) -> bool {
    if desc then TimeAfter else TimeBefore
  }

  function NameOrder(desc: bool): (NameKey, NameKey) -> bool {
    if desc then NameAfter else NameBefore
  }

  // What the listings say

  /** Texts agree up to some place, where the first ends or has the smaller character. */
  ghost predicate Precedes(a: string, b: string) {
    exists n: nat :: PrecedesAt(a, b, n)
  }

  predicate PrecedesAt(a: string, b: string, n: nat) {
    n <= |a| && n < |b| && a[..n] == b[..n] && (n == |a| || a[n] < b[n])
  }

  lemma {:induction false} TextBeforeExactly(a: string, b: string)
    ensures TextBefore(a, b) <==> Precedes(a, b)
  {
    if a == "" || b == "" || a[0] != b[0] {
      assert b != "" && (a == "" || a[0] < b[0]) ==> PrecedesAt(a, b, 0);
    } else {
      TextBeforeExactly(a[1..], b[1..]);
      assert forall n: nat :: n < |a| && n < |b| && a[..n + 1] == b[..n + 1] ==> a[1..][..n] == b[1..][..n];
      if n: nat :| PrecedesAt(a, b, n) {
        assert n > 0 && a[1..][..n - 1] == a[..n][1..] == b[..n][1..] == b[1..][..n - 1];
        assert PrecedesAt(a[1..], b[1..], n - 1);
      }
      if n: nat :| PrecedesAt(a[1..], b[1..], n) {
        assert a[..n + 1] == [a[0]] + a[1..][..n] && b[..n + 1] == [b[0]] + b[1..][..n];
        assert PrecedesAt(a, b, n + 1);
      }
    }
  }

  /**
   * The time listing holds every row once: descending the latest first, ascending the earliest, and rows of
   * one time by their id in the same direction.
   */
  lemma TimeListingReads(rows: map<nat, Contact>, desc: bool)
    ensures StrictTotal(TimeOrder(desc))
    ensures var q := Ordered(TimeOrder(desc), TimeKeys(rows));
            && (forall k :: k in q <==> k.id in rows && k.updatedAt == rows[k.id].updatedAt)
            && forall i, j :: 0 <= i < j < |q| ==>
                 if desc then q[i].updatedAt > q[j].updatedAt || (q[i].updatedAt == q[j].updatedAt && q[i].id > q[j].id)
                 else q[i].updatedAt < q[j].updatedAt || (q[i].updatedAt == q[j].updatedAt && q[i].id < q[j].id)
  {
    OrdersAreTotal();
    hide StrictTotal, Ordered;
    var q := Ordered(TimeOrder(desc), TimeKeys(rows));
    assert Lists(TimeOrder(desc), q, TimeKeys(rows));
  }

  /** The name listing likewise: ascending by the characters of the sort name, descending the other way round. */
  lemma NameListingReads(rows: map<nat, Contact>, desc: bool)
    ensures StrictTotal(NameOrder(desc))
    ensures var q := Ordered(NameOrder(desc), NameKeys(rows));
            && (forall k :: k in q <==> k.id in rows && k.sortName == rows[k.id].sortName)
            && forall i, j :: 0 <= i < j < |q| ==>
                 if desc then Precedes(q[j].sortName, q[i].sortName)
                              || (q[i].sortName == q[j].sortName && q[i].id > q[j].id)
                 else Precedes(q[i].sortName, q[j].sortName)
                      || (q[i].sortName == q[j].sortName && q[i].id < q[j].id)
  {
    OrdersAreTotal();
    hide StrictTotal, Ordered, TextBefore, Precedes;
    var q := Ordered(NameOrder(desc), NameKeys(rows));
    assert Lists(NameOrder(desc), q, NameKeys(rows));
    forall i, j | 0 <= i < j < |q|
      ensures TextBefore(q[i].sortName, q[j].sortName) <==> Precedes(q[i].sortName, q[j].sortName)
      ensures TextBefore(q[j].sortName, q[i].sortName) <==> Precedes(q[j].sortName, q[i].sortName)
    {
      TextBeforeExactly(q[i].sortName, q[j].sortName);
      TextBeforeExactly(q[j].sortName, q[i].sortName);
    }
  }

  ghost predicate IdsFit(rows: map<nat, Contact>) {
    forall id :: id in rows ==> id < Decimal.UINT64_LIMIT
  }

  /** Following next_cursor through the time-sorted list yields the one sorted query, in both directions. */
  lemma TimeBrowseIsSortedQuery(wire: Wire, rows: map<nat, Contact>, desc: bool, limit: nat)
    requires wire.Valid() && IdsFit(rows) && limit >= 1
    ensures StrictTotal(TimeOrder(desc))
    ensures OnWire(TimeKeys(rows), k => EncodeTimeKey(wire, k), raw => DecodeTimeKey(wire, raw))
    ensures WireWalk(TimeOrder(desc), TimeKeys(rows), k => EncodeTimeKey(wire, k), raw => DecodeTimeKey(wire, raw),
                     "", limit)
            == Some(Ordered(TimeOrder(desc), TimeKeys(rows)))
  {
    hide StrictTotal, TimeBefore, Ordered, EncodeTimeKey, DecodeTimeKey;
    OrdersAreTotal();
    var s := TimeKeys(rows);
    var encode, decode := (k: TimeKey) => EncodeTimeKey(wire, k), (raw: string) => DecodeTimeKey(wire, raw);
    forall k | k in s ensures encode(k) != "" && decode(encode(k)) == Some(k) {
      TimeKeyOnWire(wire, k);
    }
    WireWalkIsSortedQuery(TimeOrder(desc), s, encode, decode, "", limit);
    assert After(TimeOrder(desc), s, None) == s;
  }

  /** A sort name the name cursor can carry. */
  predicate NameUsable(wire: Wire, sortName: string) {
    sortName != "" && wire.parseTime(sortName).None?
  }

  /** Every page of the listing but the last ends on a contact with such a name. */
  predicate PageEndsUsable(wire: Wire, q: seq<NameKey>, limit: nat)
    requires limit >= 1
    decreases |q|
  {
    |q| <= limit || (NameUsable(wire, q[limit - 1].sortName) && PageEndsUsable(wire, q[limit..], limit))
  }

  lemma {:induction false} SamePageEnds(wire: Wire, q: seq<NameKey>, s: set<NameKey>, limit: nat)
    requires wire.Valid() && limit >= 1
    requires forall k :: k in q ==> k.id < Decimal.UINT64_LIMIT
    ensures PageEndsOnWire(q, k => EncodeNameKey(wire, k), raw => DecodeNameKey(wire, raw), limit)
            <==> PageEndsUsable(wire, q, limit)
    decreases |q|
  {
    hide EncodeNameKey, DecodeNameKey;
    if |q| > limit {
      NameKeyOnWire(wire, q[limit - 1]);
      SamePageEnds(wire, q[limit..], s, limit);
    }
  }

  lemma NameKeysAreSound(wire: Wire, rows: map<nat, Contact>)
    requires wire.Valid() && IdsFit(rows)
    ensures Sound(NameKeys(rows), k => EncodeNameKey(wire, k), raw => DecodeNameKey(wire, raw))
  {
    hide EncodeNameKey, DecodeNameKey;
    forall k | k in NameKeys(rows)
      ensures EncodeNameKey(wire, k) != ""
      ensures var back := DecodeNameKey(wire, EncodeNameKey(wire, k)); back == Some(k) || back == None
    {
      NameKeyOnWire(wire, k);
      UnusableNextCursor(wire, k);
    }
  }

  /**
   * Following next_cursor through the name-sorted list yields the one sorted query exactly when every page
   * but the last ends on a contact whose sort name is not empty and no timestamp; otherwise the server
   * refuses a cursor of its own.
   */
  lemma NameBrowseExactly(wire: Wire, rows: map<nat, Contact>, desc: bool, limit: nat)
    requires wire.Valid() && IdsFit(rows) && limit >= 1
    ensures StrictTotal(NameOrder(desc))
    ensures Sound(NameKeys(rows), k => EncodeNameKey(wire, k), raw => DecodeNameKey(wire, raw))
    ensures var all := Ordered(NameOrder(desc), NameKeys(rows));
            WireWalk(NameOrder(desc), NameKeys(rows), k => EncodeNameKey(wire, k), raw => DecodeNameKey(wire, raw),
                     "", limit)
            == if PageEndsUsable(wire, all, limit) then Some(all) else None
  {
    hide StrictTotal, NameBefore, Ordered, EncodeNameKey, DecodeNameKey, WireWalk, PageEndsOnWire, PageEndsUsable,
         Sound;
    OrdersAreTotal();
    NameKeysAreSound(wire, rows);
    var s := NameKeys(rows);
    var all := Ordered(NameOrder(desc), s);
    assert After(NameOrder(desc), s, None) == s;
    WireWalkExactly(NameOrder(desc), s, k => EncodeNameKey(wire, k), raw => DecodeNameKey(wire, raw), "", limit);
    SamePageEnds(wire, all, s, limit);
  }

  /** So it does whenever no sort name is empty or reads as a timestamp. */
  lemma NameBrowseIsSortedQuery(wire: Wire, rows: map<nat, Contact>, desc: bool, limit: nat)
    requires wire.Valid() && IdsFit(rows) && limit >= 1
    requires forall id :: id in rows ==> NameUsable(wire, rows[id].sortName)
    ensures StrictTotal(NameOrder(desc))
    ensures Sound(NameKeys(rows), k => EncodeNameKey(wire, k), raw => DecodeNameKey(wire, raw))
    ensures WireWalk(NameOrder(desc), NameKeys(rows), k => EncodeNameKey(wire, k), raw => DecodeNameKey(wire, raw),
                     "", limit)
            == Some(Ordered(NameOrder(desc), NameKeys(rows)))
  {
    hide StrictTotal, NameBefore, Ordered, EncodeNameKey, DecodeNameKey, WireWalk, NameUsable, Sound;
    NameBrowseExactly(wire, rows, desc, limit);
    AllUsable(wire, Ordered(NameOrder(desc), NameKeys(rows)), limit);
  }

  lemma {:induction false} AllUsable(wire: Wire, q: seq<NameKey>, limit: nat)
    requires limit >= 1 && forall k :: k in q ==> NameUsable(wire, k.sortName)
    ensures PageEndsUsable(wire, q, limit)
    decreases |q|
  {
    if |q| > limit {
      AllUsable(wire, q[limit..], limit);
    }
  }

  // Sort names as they are stored

  /** The last name, or else the first name, trimmed and in lower case. */
  function DeriveSortName(lastname: string, firstname: string): string {
    if TrimSpace(lastname) != "" then Lower(TrimSpace(lastname)) else Lower(TrimSpace(firstname))
  }

  /** Contacts sort by last name, those without one by first name; case and white space around do not count. */
  lemma SortNameIs(lastname: string, firstname: string)
    ensures TrimSpace(lastname) != "" ==> DeriveSortName(lastname, firstname) == Lower(TrimSpace(lastname))
    ensures TrimSpace(lastname) == "" ==> DeriveSortName(lastname, firstname) == Lower(TrimSpace(firstname))
  {
  }

  /**
   * RFC 3339 times are written with an upper-case "T", so a stored sort name never reads as one: it is
   * unusable exactly when both names are blank.
   */
  lemma StoredNameUsable(wire: Wire, lastname: string, firstname: string)
    requires forall s :: wire.parseTime(s).Some? ==> 'T' in s
    ensures NameUsable(wire, DeriveSortName(lastname, firstname))
            <==> TrimSpace(lastname) != "" || TrimSpace(firstname) != ""
  {
    hide TrimSpace;
    assert 'T' !in Lower(TrimSpace(lastname)) && 'T' !in Lower(TrimSpace(firstname));
  }

  /** Contact 5 without a name, alone on a page before another one: its cursor is refused. */
  lemma NamelessContactBlocksTheWalk(wire: Wire)
    requires wire.Valid()
    ensures DecodeNameKey(wire, EncodeNameKey(wire, NameKey("", 5))) == None
    ensures var q := [NameKey("", 5), NameKey("ada", 6)];
            Ascending(NameBefore, q) && !PageEndsUsable(wire, q, 1)
  {
    UnusableNextCursor(wire, NameKey("", 5));
  }

  // The handler

  datatype Response<K> = BadRequest | Listing(items: seq<K>, nextCursor: string)

  /** GET /contacts?sort=updated_at. */
  method BrowseByTime(wire: Wire, rows: map<nat, Contact>, desc: bool, cursor: string, limit: nat)
    returns (response: Response<TimeKey>)
    requires limit >= 1
    ensures response.BadRequest? <==> cursor != "" && DecodeTimeKey(wire, cursor).None?
    ensures response.Listing? ==> StrictTotal(TimeOrder(desc))
    ensures response.Listing? ==>
              var after := if cursor == "" then None else DecodeTimeKey(wire, cursor);
              var page := PageAfter(TimeOrder(desc), TimeKeys(rows), after, limit);
              && response.items == page.items
              && response.nextCursor == if page.next.Some? then EncodeTimeKey(wire, page.next.value) else ""
  {
    OrdersAreTotal();
    var after: Option<TimeKey> := None;
    if cursor != "" {
      after := DecodeTimeKey(wire, cursor);
      if after.None? {
        return BadRequest;
      }
    }
    var keys := set id | id in rows :: TimeKey(rows[id].updatedAt, id);
    var page := FetchPage(TimeOrder(desc), keys, after, limit);
    response := Listing(page.items, if page.next.Some? then EncodeTimeKey(wire, page.next.value) else "");
  }

  /** GET /contacts?sort=name. */
  method BrowseByName(wire: Wire, rows: map<nat, Contact>, desc: bool, cursor: string, limit: nat)
    returns (response: Response<NameKey>)
    requires limit >= 1
    ensures response.BadRequest? <==> cursor != "" && DecodeNameKey(wire, cursor).None?
    ensures response.Listing? ==> StrictTotal(NameOrder(desc))
    ensures response.Listing? ==>
              var after := if cursor == "" then None else DecodeNameKey(wire, cursor);
              var page := PageAfter(NameOrder(desc), NameKeys(rows), after, limit);
              && response.items == page.items
              && response.nextCursor == if page.next.Some? then EncodeNameKey(wire, page.next.value) else ""
  {
    OrdersAreTotal();
    var after: Option<NameKey> := None;
    if cursor != "" {
      after := DecodeNameKey(wire, cursor);
      if after.None? {
        return BadRequest;
      }
    }
    var keys := set id | id in rows :: NameKey(rows[id].sortName, id);
    var page := FetchPage(NameOrder(desc), keys, after, limit);
    response := Listing(page.items, if page.next.Some? then EncodeNameKey(wire, page.next.value) else "");
  }

  /**
   * Where the name-sorted walk breaks: a page that ends on a contact whose sort name is empty or
   * reads as a timestamp hands out a next_cursor the server itself refuses.
   */
  lemma UnusableNextCursor(wire: Wire, k: NameKey)
    requires wire.Valid() && k.id < Decimal.UINT64_LIMIT
    ensures DecodeNameKey(wire, EncodeNameKey(wire, k)).None?
            <==> k.sortName == "" || wire.parseTime(k.sortName).Some?
  {
    var id := Decimal.Render(k.id);
    assert '|' !in id by {
      assert !Decimal.IsDigit('|');
    }
    CursorCodec.SplitNameOfJoined(wire, k.sortName, id);
    Decimal.ParseRender(k.id);
    assert wire.decode64(EncodeNameKey(wire, k)) == Some(k.sortName + "|" + id);
  }
}

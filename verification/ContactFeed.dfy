/**
 * The contacts change feed: a replica resumes after its cursor in the order (updated_at, id),
 * deletes travel as tombstones, old tombstones are purged, and a resume from before the
 * retention window is refused.
 */
module ContactFeed {
  import opened Wrappers
  import opened Paging

  type Instant = int
  type Id = nat
  type Content = string

  /** The retention window of a whole number of days, in nanoseconds. */
  function Window(retentionDays: int): int {
    retentionDays * 86_400_000_000_000
  }

  datatype Key = Key(updatedAt: Instant, id: Id)

  /** Row-value comparison `(updated_at, id) < (?, ?)`. */
  predicate Before(a: Key, b: Key) {
    a.updatedAt < b.updatedAt || (a.updatedAt == b.updatedAt && a.id < b.id)
  }

  lemma BeforeIsStrictTotal()
    ensures StrictTotal(Before)
  {
  }

  datatype Row = Row(updatedAt: Instant, deletedAt: Option<Instant>, content: Content)

  /** What is remembered, for the proofs only, about a row the purge removed. */
  datatype Grave = Grave(deletedAt: Instant, updatedAt: Instant)

  datatype Server = Server(rows: map<Id, Row>, graves: map<Id, Grave>, clock: Instant)

  /** A replica: the contacts it holds and the last non-empty cursor it was given. */
  datatype Client = Client(held: map<Id, Content>, cursor: Key)

  datatype World = World(server: Server, client: Client)

  function KeyOf(rows: map<Id, Row>, id: Id): Key
    requires id in rows
  {
    Key(rows[id].updatedAt, id)
  }

  function Keys(rows: map<Id, Row>): set<Key> {
    set id | id in rows :: KeyOf(rows, id)
  }

  /** The live contacts: what an up-to-date replica holds. */
  function Live(rows: map<Id, Row>): map<Id, Content> {
    map id | id in rows && rows[id].deletedAt.None? :: rows[id].content
  }

  // Server steps

  /** One write statement: every row it touches gets the same, new stamp. */
  function Saved(rows: map<Id, Row>, contents: map<Id, Content>, now: Instant): map<Id, Row> {
    rows + map id | id in contents :: Row(now, None, contents[id])
  }

  /** A soft delete reads the clock twice: for deleted_at, then in the hook for updated_at. */
  function SoftDeleted(rows: map<Id, Row>, id: Id, deletedAt: Instant, now: Instant): map<Id, Row>
    requires id in rows
  {
    rows[id := rows[id].(deletedAt := Some(deletedAt), updatedAt := now)]
  }

  predicate Purgeable(row: Row, window: int, now: Instant) {
    window > 0 && row.deletedAt.Some? && row.deletedAt.value < now - window
  }

  function Purged(rows: map<Id, Row>, window: int, now: Instant): map<Id, Row> {
    map id | id in rows && !Purgeable(rows[id], window, now) :: rows[id]
  }

  function Buried(s: Server, window: int, now: Instant): map<Id, Grave> {
    s.graves + map id | id in s.rows && Purgeable(s.rows[id], window, now) ::
      Grave(s.rows[id].deletedAt.value, s.rows[id].updatedAt)
  }

  /** The age check on a feed cursor: a cursor stamped before the window is answered 410. */
  predicate Gone(since: Key, window: int, now: Instant) {
    since.updatedAt < now - window
  }

  ghost function FeedPage(rows: map<Id, Row>, since: Key, limit: nat): Page<Key>
    requires limit >= 1
  {
    BeforeIsStrictTotal();
    PageAfter(Before, Keys(rows), Some(since), limit)
  }

  /** What the feed says of a contact. */
  datatype FeedItem = FeedItem(id: Id, content: Content, deleted: bool)

  datatype FeedResponse = Refused | Feed(items: seq<FeedItem>, next: Option<Key>)

  function ItemOf(rows: map<Id, Row>, key: Key): FeedItem
    requires key.id in rows
  {
    FeedItem(key.id, rows[key.id].content, rows[key.id].deletedAt.Some?)
  }

  function ItemsOf(rows: map<Id, Row>, keys: seq<Key>): seq<FeedItem>
    requires forall k :: k in keys ==> k.id in rows
  {
    seq(|keys|, i requires 0 <= i < |keys| => assert keys[i] in keys; ItemOf(rows, keys[i]))
  }

  /** The answer to a feed request. */
  ghost function Answer(rows: map<Id, Row>, since: Key, limit: nat, window: int, now: Instant): FeedResponse
    requires limit >= 1
  {
    if Gone(since, window, now) then Refused
    else
      var page := FeedPage(rows, since, limit);
      PageItemsAreRows(rows, since, limit);
      Feed(ItemsOf(rows, page.items), page.next)
  }

  /** A replica applying one feed item: drop a tombstone, take anything else. */
  function ApplyItem(held: map<Id, Content>, item: FeedItem): map<Id, Content> {
    if item.deleted then held - {item.id} else held[item.id := item.content]
  }

  function ApplyItems(held: map<Id, Content>, items: seq<FeedItem>): map<Id, Content>
    decreases |items|
  {
    if items == [] then held else ApplyItems(ApplyItem(held, items[0]), items[1..])
  }

  /** The replica's side: a refusal changes nothing, an empty next_cursor keeps the old cursor. */
  function Took(c: Client, response: FeedResponse): Client {
    match response
    case Refused => c
    case Feed(items, next) => Client(ApplyItems(c.held, items), if next.Some? then next.value else c.cursor)
  }

  /** A pull: a request and what the replica makes of its answer. */
  ghost function Pulled(s: Server, c: Client, limit: nat, window: int, now: Instant): Client
    requires limit >= 1
  {
    Took(c, Answer(s.rows, c.cursor, limit, window, now))
  }

  lemma PageItemsAreRows(rows: map<Id, Row>, since: Key, limit: nat)
    requires limit >= 1
    ensures forall k :: k in FeedPage(rows, since, limit).items ==> k.id in rows && k == KeyOf(rows, k.id)
  {
    BeforeIsStrictTotal();
    forall k | k in FeedPage(rows, since, limit).items ensures k.id in rows && k == KeyOf(rows, k.id) {
      PageHolds(Before, Keys(rows), Some(since), limit, k);
    }
  }

  datatype Step =
    | Save(contents: map<Id, Content>, now: Instant)
    | SoftDelete(id: Id, deletedAt: Instant, now: Instant)
    | Purge(now: Instant)
    | Pull(limit: nat, now: Instant)

  /**
   * What may happen next: writes get stamps above everything seen so far, ids are never reused,
   * and only live rows are rewritten or deleted.
   */
  predicate Enabled(s: Server, step: Step) {
    match step
    case Save(contents, now) =>
      && now > s.clock
      && (forall id :: id in contents ==> id !in s.graves && (id in s.rows ==> s.rows[id].deletedAt.None?))
    case SoftDelete(id, deletedAt, now) =>
      s.clock < deletedAt <= now && id in s.rows && s.rows[id].deletedAt.None?
    case Purge(now) => now >= s.clock
    case Pull(limit, now) => now >= s.clock && limit >= 1
  }

  ghost function Next(w: World, step: Step, window: int): World
    requires Enabled(w.server, step)
  {
    var s := w.server;
    match step
    case Save(contents, now) => w.(server := s.(rows := Saved(s.rows, contents, now), clock := now))
    case SoftDelete(id, deletedAt, now) =>
      w.(server := s.(rows := SoftDeleted(s.rows, id, deletedAt, now), clock := now))
    case Purge(now) =>
      w.(server := Server(Purged(s.rows, window, now), Buried(s, window, now), now))
    case Pull(limit, now) => World(s.(clock := now), Pulled(s, w.client, limit, window, now))
  }

  // Invariant

  /** The delete of a row, whether its tombstone is still there or already purged. */
  function Death(s: Server, id: Id): Option<Grave> {
    if id in s.rows then
      if s.rows[id].deletedAt.Some? then Some(Grave(s.rows[id].deletedAt.value, s.rows[id].updatedAt)) else None
    else if id in s.graves then Some(s.graves[id])
    else None
  }

  /**
   * A stamp handed out as a cursor never falls between the two clock readings of a delete, and
   * meets the second one only as the cursor of the deleted row itself.
   */
  predicate Clear(cursor: Key, id: Id, death: Grave) {
    && death.deletedAt <= death.updatedAt
    && (cursor.updatedAt < death.deletedAt || cursor.updatedAt >= death.updatedAt)
    && (cursor.updatedAt == death.updatedAt ==> cursor.id == id)
  }

  ghost predicate ClearOfDeletes(s: Server, cursor: Key) {
    && cursor.updatedAt <= s.clock
    && forall id :: Death(s, id).Some? ==> Clear(cursor, id, Death(s, id).value)
  }

  ghost predicate ServerInv(s: Server, window: int) {
    && (forall id :: id in s.rows ==> ClearOfDeletes(s, KeyOf(s.rows, id)))
    && (forall id :: Death(s, id).Some? ==> Death(s, id).value.updatedAt <= s.clock)
    && (forall id :: id in s.graves ==> id !in s.rows)
    && (forall id :: id in s.graves ==> window > 0 && s.graves[id].deletedAt < s.clock - window)
  }

  ghost predicate Current(rows: map<Id, Row>, held: map<Id, Content>, id: Id)
    requires id in rows
  {
    if rows[id].deletedAt.Some? then id !in held else id in held && held[id] == rows[id].content
  }

  /**
   * The replica is consistent with its cursor: every row at or before the cursor is held in its
   * current version, and a held contact that is gone from the server was deleted after the cursor.
   */
  ghost predicate Consistent(s: Server, c: Client) {
    && ClearOfDeletes(s, c.cursor)
    && (forall id :: id in s.rows && !Before(c.cursor, KeyOf(s.rows, id)) ==> Current(s.rows, c.held, id))
    && (forall id :: id in c.held && id !in s.rows ==> id in s.graves && c.cursor.updatedAt < s.graves[id].updatedAt)
  }

  ghost predicate Inv(w: World, window: int) {
    ServerInv(w.server, window) && Consistent(w.server, w.client)
  }

  lemma SaveKeepsInv(w: World, contents: map<Id, Content>, now: Instant, window: int)
    requires Inv(w, window) && Enabled(w.server, Save(contents, now))
    ensures Inv(Next(w, Save(contents, now), window), window)
  {
    var s, c := w.server, w.client;
    var rows := Saved(s.rows, contents, now);
    var s' := s.(rows := rows, clock := now);
    assert forall id :: Death(s', id) == Death(s, id);
    forall id | id in rows ensures ClearOfDeletes(s', KeyOf(rows, id)) {
      assert id !in contents ==> ClearOfDeletes(s, KeyOf(s.rows, id));
    }
    forall id | id in rows && !Before(c.cursor, KeyOf(rows, id)) ensures Current(rows, c.held, id) {
      assert id !in contents;
      assert Current(s.rows, c.held, id);
    }
  }

  lemma SoftDeleteKeepsInv(w: World, id: Id, deletedAt: Instant, now: Instant, window: int)
    requires Inv(w, window) && Enabled(w.server, SoftDelete(id, deletedAt, now))
    ensures Inv(Next(w, SoftDelete(id, deletedAt, now), window), window)
  {
    var s, c := w.server, w.client;
    var rows := SoftDeleted(s.rows, id, deletedAt, now);
    var s' := s.(rows := rows, clock := now);
    assert forall other :: Death(s', other) == if other == id then Some(Grave(deletedAt, now)) else Death(s, other);
    forall other | other in rows ensures ClearOfDeletes(s', KeyOf(rows, other)) {
      assert ClearOfDeletes(s, KeyOf(s.rows, other));
    }
    forall other | other in rows && !Before(c.cursor, KeyOf(rows, other)) ensures Current(rows, c.held, other) {
      assert other != id;
      assert Current(s.rows, c.held, other);
    }
  }

  lemma PurgeKeepsInv(w: World, now: Instant, window: int)
    requires Inv(w, window) && Enabled(w.server, Purge(now))
    ensures Inv(Next(w, Purge(now), window), window)
  {
    var s, c := w.server, w.client;
    var rows := Purged(s.rows, window, now);
    var s' := Server(rows, Buried(s, window, now), now);
    assert forall id :: Death(s', id) == Death(s, id);
    forall id | id in rows ensures ClearOfDeletes(s', KeyOf(rows, id)) {
      assert ClearOfDeletes(s, KeyOf(s.rows, id));
    }
    forall id | id in c.held && id !in rows
      ensures id in s'.graves && c.cursor.updatedAt < s'.graves[id].updatedAt
    {
      if id in s.rows {
        assert Clear(c.cursor, id, Death(s, id).value);
        assert Before(c.cursor, KeyOf(s.rows, id)) || Current(s.rows, c.held, id);
      }
    }
  }

  /** Applying the items of a page brings exactly its rows up to date. */
  lemma {:induction false} ApplyItemsBringsCurrent(held: map<Id, Content>, rows: map<Id, Row>, keys: seq<Key>)
    requires forall k :: k in keys ==> k.id in rows
    ensures var after := ApplyItems(held, ItemsOf(rows, keys));
            && (forall k :: k in keys ==> Current(rows, after, k.id))
            && (forall id :: id in rows && Current(rows, held, id) ==> Current(rows, after, id))
            && (forall id :: (forall k :: k in keys ==> k.id != id)
                             ==> (id in after <==> id in held) && (id in held ==> after[id] == held[id]))
    decreases |keys|
  {
    if keys != [] {
      assert keys[0] in keys;
      var once := ApplyItem(held, ItemOf(rows, keys[0]));
      assert forall k :: k in keys[1..] ==> k in keys;
      assert ItemsOf(rows, keys)[1..] == ItemsOf(rows, keys[1..]);
      ApplyItemsBringsCurrent(once, rows, keys[1..]);
    }
  }

  // What each step does to the live contacts

  /** A save makes the given contents live, a delete ends one contact, and neither purge nor pull shows. */
  lemma StepChangesLive(w: World, step: Step, window: int)
    requires Enabled(w.server, step)
    ensures var live, live' := Live(w.server.rows), Live(Next(w, step, window).server.rows);
            match step
            case Save(contents, _) => live' == live + contents
            case SoftDelete(id, _, _) => id in live && live' == live - {id}
            case Purge(_) => live' == live
            case Pull(_, _) => live' == live
  {
  }

  /** A row a step writes is stamped with the time of the step; every other row that is left is as it was. */
  lemma StepStampsWrites(w: World, step: Step, window: int)
    requires Enabled(w.server, step)
    ensures var rows, rows' := w.server.rows, Next(w, step, window).server.rows;
            match step
            case Save(contents, now) =>
              && (forall id :: id in contents ==> id in rows' && rows'[id].updatedAt == now)
              && (forall id :: id !in contents ==>
                    (id in rows' <==> id in rows) && (id in rows ==> rows'[id] == rows[id]))
            case SoftDelete(id, deletedAt, now) =>
              && rows'.Keys == rows.Keys && rows'[id].updatedAt == now && rows'[id].deletedAt == Some(deletedAt)
              && rows'[id].content == rows[id].content
              && (forall other :: other in rows && other != id ==> rows'[other] == rows[other])
            case Purge(now) =>
              forall id :: (id in rows' <==> id in rows && !(window > 0 && rows[id].deletedAt.Some?
                                                            && rows[id].deletedAt.value < now - window))
                           && (id in rows' ==> rows'[id] == rows[id])
            case Pull(_, _) => rows' == rows
  {
  }

  /**
   * While a resume is accepted no delete has escaped it: a replica that could still hold a purged
   * contact has a cursor from before the window.
   */
  lemma AcceptedResumeHoldsNoGhost(w: World, now: Instant, window: int)
    requires Inv(w, window) && now >= w.server.clock
    requires !Gone(w.client.cursor, window, now)
    ensures forall id :: id in w.client.held ==> id in w.server.rows
  {
    forall id | id in w.client.held ensures id in w.server.rows {
      assert id !in w.server.rows ==> Death(w.server, id).Some?;
    }
  }

  /** A page brings up to date what lies at or before its next cursor, or everything when there is none. */
  lemma PageReaches(s: Server, c: Client, limit: nat, id: Id)
    requires Consistent(s, c) && limit >= 1 && id in s.rows
    requires var next := FeedPage(s.rows, c.cursor, limit).next;
             next.None? || !Before(next.value, KeyOf(s.rows, id))
    ensures forall k :: k in FeedPage(s.rows, c.cursor, limit).items ==> k.id in s.rows
    ensures Current(s.rows, ApplyItems(c.held, ItemsOf(s.rows, FeedPage(s.rows, c.cursor, limit).items)), id)
  {
    hide StrictTotal, PageAfter, ClearOfDeletes;
    BeforeIsStrictTotal();
    var page := FeedPage(s.rows, c.cursor, limit);
    PageItemsAreRows(s.rows, c.cursor, limit);
    ApplyItemsBringsCurrent(c.held, s.rows, page.items);
    var key := KeyOf(s.rows, id);
    PageHolds(Before, Keys(s.rows), Some(c.cursor), limit, key);
    assert key in Keys(s.rows);
    if !Before(c.cursor, key) {
      assert Current(s.rows, c.held, id);
    } else {
      assert key in page.items && key.id == id;
    }
  }

  /** What one accepted pull does to the replica. */
  lemma AcceptedPull(s: Server, c: Client, limit: nat, window: int, now: Instant)
    requires Inv(World(s, c), window) && now >= s.clock && limit >= 1
    requires !Gone(c.cursor, window, now)
    ensures var c' := Pulled(s, c, limit, window, now);
            && (forall id :: id in c'.held ==> id in s.rows)
            && (forall id :: id in s.rows && !Before(c'.cursor, KeyOf(s.rows, id)) ==> Current(s.rows, c'.held, id))
            && (c'.cursor == c.cursor || c'.cursor in Keys(s.rows))
            && (FeedPage(s.rows, c.cursor, limit).next.None? ==> c'.held == Live(s.rows))
  {
    hide StrictTotal, PageAfter, ClearOfDeletes;
    BeforeIsStrictTotal();
    AcceptedResumeHoldsNoGhost(World(s, c), now, window);
    var page := FeedPage(s.rows, c.cursor, limit);
    var c' := Pulled(s, c, limit, window, now);
    PageItemsAreRows(s.rows, c.cursor, limit);
    ApplyItemsBringsCurrent(c.held, s.rows, page.items);
    forall id | id in c'.held ensures id in s.rows {
      assert (exists k :: k in page.items && k.id == id) || id in c.held;
    }
    forall id | id in s.rows && (page.next.None? || !Before(c'.cursor, KeyOf(s.rows, id)))
      ensures Current(s.rows, c'.held, id)
    {
      PageReaches(s, c, limit, id);
    }
    if page.next.Some? {
      PageHolds(Before, Keys(s.rows), Some(c.cursor), limit, page.next.value);
    }
  }

  lemma PullKeepsInv(w: World, limit: nat, now: Instant, window: int)
    requires Inv(w, window) && Enabled(w.server, Pull(limit, now))
    ensures Inv(Next(w, Pull(limit, now), window), window)
  {
    var s, c := w.server, w.client;
    var s' := s.(clock := now);
    assert forall id :: Death(s', id) == Death(s, id);
    assert forall id :: id in s.rows ==> ClearOfDeletes(s, KeyOf(s.rows, id)) && ClearOfDeletes(s', KeyOf(s.rows, id));
    if !Gone(c.cursor, window, now) {
      AcceptedPull(s, c, limit, window, now);
      assert Consistent(s', Pulled(s, c, limit, window, now));
    }
  }

  lemma StepKeepsInv(w: World, step: Step, window: int)
    requires Inv(w, window) && Enabled(w.server, step)
    ensures Inv(Next(w, step, window), window)
  {
    match step
    case Save(contents, now) => SaveKeepsInv(w, contents, now, window);
    case SoftDelete(id, deletedAt, now) => SoftDeleteKeepsInv(w, id, deletedAt, now, window);
    case Purge(now) => PurgeKeepsInv(w, now, window);
    case Pull(limit, now) => PullKeepsInv(w, limit, now, window);
  }

  // Runs

  ghost predicate Runnable(w: World, steps: seq<Step>, window: int)
    decreases |steps|
  {
    steps == [] || (Enabled(w.server, steps[0]) && Runnable(Next(w, steps[0], window), steps[1..], window))
  }

  ghost function Run(w: World, steps: seq<Step>, window: int): World
    requires Runnable(w, steps, window)
    decreases |steps|
  {
    if steps == [] then w else Run(Next(w, steps[0], window), steps[1..], window)
  }

  lemma {:induction false} RunKeepsInv(w: World, steps: seq<Step>, window: int)
    requires Inv(w, window) && Runnable(w, steps, window)
    ensures Inv(Run(w, steps, window), window)
    decreases |steps|
  {
    if steps != [] {
      StepKeepsInv(w, steps[0], window);
      RunKeepsInv(Next(w, steps[0], window), steps[1..], window);
    }
  }

  /**
   * Feed convergence and no ghost rows: after any interleaving of writes, deletes, purges and
   * pulls, a pull that is not refused and reports no next cursor leaves the replica equal to the
   * live contacts of that instant, although it replays from the last non-empty cursor.
   */
  lemma DrainedReplicaEqualsServer(w: World, steps: seq<Step>, limit: nat, now: Instant, window: int)
    requires Inv(w, window) && Runnable(w, steps, window)
    requires Enabled(Run(w, steps, window).server, Pull(limit, now))
    ensures var s, c := Run(w, steps, window).server, Run(w, steps, window).client;
            !Gone(c.cursor, window, now) && FeedPage(s.rows, c.cursor, limit).next.None?
            ==> Pulled(s, c, limit, window, now).held == Live(s.rows)
  {
    RunKeepsInv(w, steps, window);
    var s, c := Run(w, steps, window).server, Run(w, steps, window).client;
    if !Gone(c.cursor, window, now) {
      AcceptedPull(s, c, limit, window, now);
    }
  }

  /** Pulling until there is no next cursor, the server standing still meanwhile. */
  ghost function Drain(s: Server, c: Client, limit: nat, window: int, now: Instant): Client
    requires limit >= 1 && !Gone(c.cursor, window, now)
    decreases After(Before, Keys(s.rows), Some(c.cursor))
  {
    BeforeIsStrictTotal();
    var c' := Pulled(s, c, limit, window, now);
    var next := FeedPage(s.rows, c.cursor, limit).next;
    if next.None? then c'
    else
      RemainingShrinks(Before, Keys(s.rows), Some(c.cursor), limit);
      CursorMovesForward(s.rows, c.cursor, limit);
      Drain(s, c', limit, window, now)
  }

  lemma CursorMovesForward(rows: map<Id, Row>, since: Key, limit: nat)
    requires limit >= 1
    ensures var next := FeedPage(rows, since, limit).next;
            next.Some? ==> Before(since, next.value)
  {
    BeforeIsStrictTotal();
    var next := FeedPage(rows, since, limit).next;
    if next.Some? {
      PageHolds(Before, Keys(rows), Some(since), limit, next.value);
    }
  }

  /** An accepted resume always drains, and then holds exactly the live contacts. */
  lemma {:induction false} DrainConverges(s: Server, c: Client, limit: nat, window: int, now: Instant)
    requires Inv(World(s, c), window) && now >= s.clock && limit >= 1
    requires !Gone(c.cursor, window, now)
    ensures Drain(s, c, limit, window, now).held == Live(s.rows)
    decreases After(Before, Keys(s.rows), Some(c.cursor))
  {
    hide StrictTotal, PageAfter, Current;
    BeforeIsStrictTotal();
    AcceptedPull(s, c, limit, window, now);
    var c' := Pulled(s, c, limit, window, now);
    if FeedPage(s.rows, c.cursor, limit).next.Some? {
      RemainingShrinks(Before, Keys(s.rows), Some(c.cursor), limit);
      CursorMovesForward(s.rows, c.cursor, limit);
      assert forall id :: id in s.rows ==> ClearOfDeletes(s, KeyOf(s.rows, id));
      assert Inv(World(s, c'), window);
      DrainConverges(s, c', limit, window, now);
    }
  }

  /** A drain never comes back to a row at or before its cursor. */
  lemma {:induction false} DrainLeavesEarlierRows(s: Server, c: Client, id: Id, limit: nat, window: int, now: Instant)
    requires limit >= 1 && !Gone(c.cursor, window, now)
    requires id in s.rows && !Before(c.cursor, KeyOf(s.rows, id)) && id in c.held
    ensures var held := Drain(s, c, limit, window, now).held;
            id in held && held[id] == c.held[id]
    decreases After(Before, Keys(s.rows), Some(c.cursor))
  {
    hide StrictTotal, PageAfter, Current;
    BeforeIsStrictTotal();
    PageItemsAreRows(s.rows, c.cursor, limit);
    var page := FeedPage(s.rows, c.cursor, limit);
    forall k | k in page.items ensures k.id != id {
      PageHolds(Before, Keys(s.rows), Some(c.cursor), limit, k);
    }
    ApplyItemsBringsCurrent(c.held, s.rows, page.items);
    if page.next.Some? {
      RemainingShrinks(Before, Keys(s.rows), Some(c.cursor), limit);
      CursorMovesForward(s.rows, c.cursor, limit);
      DrainLeavesEarlierRows(s, Pulled(s, c, limit, window, now), id, limit, window, now);
    }
  }

  /** A rewrite of a row's columns that leaves updated_at as it was. */
  function Rewritten(s: Server, id: Id, content: Content): Server
    requires id in s.rows
  {
    s.(rows := s.rows[id := s.rows[id].(content := content)])
  }

  /**
   * The rebuild of derived columns rewrites rows without a new stamp. A consistent client still drains to
   * the live contacts exactly when the rewrite changes nothing or the row is yet to come in its feed.
   */
  lemma RewriteReachesExactly(s: Server, c: Client, id: Id, content: Content, limit: nat, window: int, now: Instant)
    requires Inv(World(s, c), window) && now >= s.clock && limit >= 1
    requires !Gone(c.cursor, window, now)
    requires id in s.rows && s.rows[id].deletedAt.None?
    ensures Drain(Rewritten(s, id, content), c, limit, window, now).held == Live(Rewritten(s, id, content).rows)
            <==> content == s.rows[id].content || Before(c.cursor, KeyOf(s.rows, id))
  {
    hide StrictTotal, ClearOfDeletes, Drain;
    var s' := Rewritten(s, id, content);
    if content == s.rows[id].content {
      assert s'.rows == s.rows;
      DrainConverges(s, c, limit, window, now);
    } else if Before(c.cursor, KeyOf(s.rows, id)) {
      RewriteKeepsInv(s, c, id, content, window);
      DrainConverges(s', c, limit, window, now);
    } else {
      assert Current(s.rows, c.held, id);
      DrainLeavesEarlierRows(s', c, id, limit, window, now);
      assert Live(s'.rows)[id] == content;
    }
  }

  lemma RewriteKeepsInv(s: Server, c: Client, id: Id, content: Content, window: int)
    requires Inv(World(s, c), window) && id in s.rows && Before(c.cursor, KeyOf(s.rows, id))
    ensures Inv(World(Rewritten(s, id, content), c), window)
  {
    var s' := Rewritten(s, id, content);
    assert forall other :: other in s.rows ==> KeyOf(s'.rows, other) == KeyOf(s.rows, other);
    assert forall other :: Death(s', other) == Death(s, other);
  }

  /**
   * Retention 0 disables the purge, so no replica can miss a delete, yet every resume from a
   * past cursor is refused.
   */
  lemma ZeroRetentionRefusesEveryPastCursor(rows: map<Id, Row>, since: Key, now: Instant)
    ensures forall days :: Window(days) == days * (24 * 3_600 * 1_000_000_000)
    ensures Purged(rows, Window(0), now) == rows
    ensures Gone(since, Window(0), now) <==> since.updatedAt < now
  {
  }

  // What an answer is good for

  lemma WindowOf(days: int)
    ensures Window(days) == days * 86_400_000_000_000
  {
  }

  lemma AnswerSays(rows: map<Id, Row>, since: Key, limit: nat, window: int, now: Instant)
    requires limit >= 1
    ensures var response := Answer(rows, since, limit, window, now);
            && (response.Refused? <==> since.updatedAt < now - window)
            && (response.Feed? ==> forall item :: item in response.items ==>
                  && item.id in rows && item.content == rows[item.id].content
                  && (item.deleted <==> rows[item.id].deletedAt.Some?))
  {
    hide FeedPage;
    PageItemsAreRows(rows, since, limit);
    var keys := FeedPage(rows, since, limit).items;
    forall i | 0 <= i < |keys|
      ensures keys[i].id in rows && ItemsOf(rows, keys)[i] == ItemOf(rows, keys[i])
    {
      assert keys[i] in keys;
    }
  }

  /** A consistent replica that applies an answer has all it covers in its current version. */
  lemma AnswerServes(s: Server, c: Client, limit: nat, window: int, now: Instant, id: Id)
    requires limit >= 1 && Consistent(s, c) && id in s.rows
    ensures var response := Answer(s.rows, c.cursor, limit, window, now);
            response.Feed? && (response.next.None? || !Before(response.next.value, KeyOf(s.rows, id)))
            ==> Current(s.rows, ApplyItems(c.held, response.items), id)
  {
    hide FeedPage, Current, Consistent, Before;
    var next := FeedPage(s.rows, c.cursor, limit).next;
    if next.None? || !Before(next.value, KeyOf(s.rows, id)) {
      PageReaches(s, c, limit, id);
    }
  }

  /** With the last page it holds exactly the live contacts. */
  lemma AnswerDrains(s: Server, c: Client, limit: nat, window: int, now: Instant)
    requires limit >= 1 && Inv(World(s, c), window) && now >= s.clock
    ensures var response := Answer(s.rows, c.cursor, limit, window, now);
            response.Feed? && response.next.None? ==> ApplyItems(c.held, response.items) == Live(s.rows)
  {
    hide FeedPage, Inv;
    if !Gone(c.cursor, window, now) {
      AcceptedPull(s, c, limit, window, now);
    }
  }

  // The handlers over the stored rows

  class ContactStore {
    var rows: map<Id, Row>
    const retentionDays: int
    ghost var graves: map<Id, Grave>
    ghost var clock: Instant

    ghost function State(): Server
      reads this
    {
      Server(rows, graves, clock)
    }

    constructor (retentionDays: int, now: Instant)
      ensures State() == Server(map[], map[], now) && this.retentionDays == retentionDays
    {
      this.retentionDays := retentionDays;
      rows, graves, clock := map[], map[], now;
    }

    /** Create or update the given contacts in one statement. */
    method SaveContacts(contents: map<Id, Content>, now: Instant)
      requires Enabled(State(), Save(contents, now))
      modifies this
      ensures State() == Server(Saved(old(rows), contents, now), old(graves), now)
    {
      rows := rows + map id | id in contents :: Row(now, None, contents[id]);
      clock := now;
    }

    /** Set deleted_at, then advance updated_at from the hook so that the feed sees the tombstone. */
    method Delete(id: Id, deletedAt: Instant, now: Instant)
      requires Enabled(State(), SoftDelete(id, deletedAt, now))
      modifies this
      ensures State() == Server(SoftDeleted(old(rows), id, deletedAt, now), old(graves), now)
    {
      rows := rows[id := rows[id].(deletedAt := Some(deletedAt))];
      rows := rows[id := rows[id].(updatedAt := now)];
      clock := now;
    }

    /** The purge job: hard-delete the tombstones from before the window, unless it is disabled. */
    method PurgeSoftDeleted(now: Instant)
      requires Enabled(State(), Purge(now))
      modifies this
      ensures State() == Server(Purged(old(rows), Window(retentionDays), now),
                                Buried(old(State()), Window(retentionDays), now), now)
    {
      graves := Buried(State(), Window(retentionDays), now);
      clock := now;
      if retentionDays > 0 {
        var cutoff := now - retentionDays * 86_400_000_000_000;
        rows := map id | id in rows && !(rows[id].deletedAt.Some? && rows[id].deletedAt.value < cutoff) :: rows[id];
      }
      assert rows == Purged(old(rows), Window(retentionDays), now);
    }

    /** The items of found rows, marked as deleted where they are. */
    method ItemsFrom(found: seq<Key>) returns (items: seq<FeedItem>)
      requires forall k :: k in found ==> k.id in rows
      ensures items == ItemsOf(rows, found)
    {
      items := [];
      for i := 0 to |found|
        invariant items == ItemsOf(rows, found[..i])
      {
        assert found[i] in found && found[..i + 1] == found[..i] + [found[i]];
        var row := rows[found[i].id];
        items := items + [FeedItem(found[i].id, row.content, row.deletedAt.Some?)];
      }
      assert found[..|found|] == found;
    }

    method AnswerFeed(since: Key, limit: nat, now: Instant) returns (response: FeedResponse)
      requires limit >= 1
      ensures response == Answer(rows, since, limit, Window(retentionDays), now)
    {
      var cutoff := now - retentionDays * 86_400_000_000_000;
      if since.updatedAt < cutoff {
        return Refused;
      }
      hide StrictTotal, PageAfter, ItemsOf;
      BeforeIsStrictTotal();
      PageItemsAreRows(rows, since, limit);
      var keys := set id | id in rows :: KeyOf(rows, id);
      var page := FetchPage(Before, keys, Some(since), limit);
      var items := ItemsFrom(page.items);
      response := Feed(items, page.next);
    }

    /** One feed request: age check, rows after the cursor in order, one row beyond the limit. */
    method ChangeFeed(since: Key, limit: nat, now: Instant) returns (response: FeedResponse)
      requires limit >= 1
      ensures response == Answer(rows, since, limit, Window(retentionDays), now)
      ensures response.Refused? <==> since.updatedAt < now - retentionDays * 86_400_000_000_000
      ensures response.Feed? ==>
                forall item :: item in response.items ==>
                  && item.id in rows && item.content == rows[item.id].content
                  && (item.deleted <==> rows[item.id].deletedAt.Some?)
      ensures response.Feed? ==>
                forall held, id :: id in rows && Consistent(State(), Client(held, since)) ==>
                  var after := ApplyItems(held, response.items);
                  (response.next.None? || !Before(response.next.value, KeyOf(rows, id)) ==> Current(rows, after, id))
      ensures response.Feed? && response.next.None? ==>
                forall held :: Inv(World(State(), Client(held, since)), Window(retentionDays)) && now >= clock ==>
                  ApplyItems(held, response.items) == Live(rows)
    {
      response := AnswerFeed(since, limit, now);
      WindowOf(retentionDays);
      assert State().rows == rows && State().clock == clock;
      hide *;
      AnswerSays(rows, since, limit, Window(retentionDays), now);
      if response.Refused? {
        return;
      }
      forall held, id | id in rows && Consistent(State(), Client(held, since))
        ensures response.next.None? || !Before(response.next.value, KeyOf(rows, id))
                ==> Current(rows, ApplyItems(held, response.items), id)
      {
        AnswerServes(State(), Client(held, since), limit, Window(retentionDays), now, id);
      }
      forall held | Inv(World(State(), Client(held, since)), Window(retentionDays)) && now >= clock
        ensures response.next.None? ==> ApplyItems(held, response.items) == Live(rows)
      {
        AnswerDrains(State(), Client(held, since), limit, Window(retentionDays), now);
      }
    }
  }
}

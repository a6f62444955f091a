/** The relationship edges of two contacts that are merged: repointed, without self-loops and repeated facts. */
module RelationshipEdges {
  import opened Wrappers

  /** The vCard UID of a contact. */
  type Uid = string

  /** The registered relation types, and tokens that are not registered. */
  datatype Kind =
    | ParentOf | ChildOf | SpouseOf | SiblingOf | FriendOf | RoommateOf | CoworkerOf | PartnerOf | CoParentOf
    | MentorOf | MenteeOf | OwnedBy | Owns | GetsAlongWith | ConflictsWith | RelatedTo | Other(token: string)

  /**
   * One user's edge. Only the order of confidence, creation time and id counts; an edge that is not confirmed
   * is suggested.
   */
  datatype Edge = Edge(source: Uid, target: Uid, kind: Kind, confidence: int, confirmed: bool, created: int)

  /** The edges by id. */
  type Edges = map<nat, Edge>

  /** `InverseRelationType`. */
  function Inverse(kind: Kind): Option<Kind> {
    match kind
    case ParentOf => Some(ChildOf)
    case ChildOf => Some(ParentOf)
    case MentorOf => Some(MenteeOf)
    case MenteeOf => Some(MentorOf)
    case OwnedBy => Some(Owns)
    case Owns => Some(OwnedBy)
    case Other(_) => None
    case _ => Some(kind)
  }

  predicate SameKey(a: Edge, b: Edge) {
    a.source == b.source && a.target == b.target && a.kind == b.kind
  }

  /** `edgesConflict`: both edges state one fact, literally or from its two ends. */
  predicate Conflict(a: Edge, b: Edge) {
    || SameKey(a, b)
    || (Inverse(a.kind) == Some(b.kind) && a.source == b.target && a.target == b.source)
  }

  predicate Loop(e: Edge) {
    e.source == e.target
  }

  /** The authority of edges: confidence, then confirmed over suggested, then age, then the smaller id. */
  predicate Above(a: Edge, i: nat, b: Edge, j: nat) {
    || a.confidence > b.confidence
    || (a.confidence == b.confidence
        && (|| (a.confirmed && !b.confirmed)
            || (a.confirmed == b.confirmed && (a.created < b.created || (a.created == b.created && i < j)))))
  }

  /** `pickEdgeToDrop`, case by case: the id of the edge that goes. */
  function PickToDrop(a: Edge, i: nat, b: Edge, j: nat): nat {
    var keep :=
      if a.confidence != b.confidence then (if b.confidence > a.confidence then j else i)
      else if a.confirmed != b.confirmed then (if b.confirmed then j else i)
      else if a.created != b.created then (if b.created < a.created then j else i)
      else if j < i then j else i;
    if keep == i then j else i
  }

  lemma PickIsBelow(a: Edge, i: nat, b: Edge, j: nat)
    requires i != j
    ensures PickToDrop(a, i, b, j) == if Above(a, i, b, j) then j else i
    ensures Above(a, i, b, j) <==> !Above(b, j, a, i)
  {
  }

  /** Three pairs of registered types are each other's inverses; the other types are their own, or have none. */
  lemma InverseTable(kind: Kind)
    ensures Inverse(ParentOf) == Some(ChildOf) && Inverse(ChildOf) == Some(ParentOf)
    ensures Inverse(MentorOf) == Some(MenteeOf) && Inverse(MenteeOf) == Some(MentorOf)
    ensures Inverse(OwnedBy) == Some(Owns) && Inverse(Owns) == Some(OwnedBy)
    ensures Inverse(kind) == Some(kind)
            <==> kind in {SpouseOf, SiblingOf, FriendOf, RoommateOf, CoworkerOf, PartnerOf, CoParentOf, GetsAlongWith,
                          ConflictsWith, RelatedTo}
    ensures kind.Other? ==> Inverse(kind) == None
  {
  }

  // What the edges of merged contacts become

  function MovedEnd(end: Uid, gone: set<Uid>, keep: Uid): Uid {
    if end in gone then keep else end
  }

  function Moved(e: Edge, gone: set<Uid>, keep: Uid): Edge {
    e.(source := MovedEnd(e.source, gone, keep), target := MovedEnd(e.target, gone, keep))
  }

  predicate Touches(e: Edge, gone: set<Uid>, keep: Uid) {
    MovedEnd(e.source, gone, keep) == keep || MovedEnd(e.target, gone, keep) == keep
  }

  /** Another edge of the contacts states the same fact with more authority. */
  ghost predicate Beaten(edges: Edges, gone: set<Uid>, keep: Uid, i: nat)
    requires i in edges
  {
    exists j :: Beats(edges, gone, keep, j, i)
  }

  predicate Beats(edges: Edges, gone: set<Uid>, keep: Uid, j: nat, i: nat)
    requires i in edges
  {
    && j in edges && Touches(edges[j], gone, keep) && Above(edges[j], j, edges[i], i)
    && Conflict(Moved(edges[j], gone, keep), Moved(edges[i], gone, keep))
  }

  ghost predicate Stays(edges: Edges, gone: set<Uid>, keep: Uid, i: nat)
    requires i in edges
  {
    Touches(edges[i], gone, keep) ==> !Loop(Moved(edges[i], gone, keep)) && !Beaten(edges, gone, keep, i)
  }

  /** The edges once the contacts in `gone` are merged into one. */
  ghost function Settled(edges: Edges, gone: set<Uid>, keep: Uid): Edges {
    map i | i in edges && Stays(edges, gone, keep, i) :: Moved(edges[i], gone, keep)
  }

  // Facts

  /** Two edges state one fact when they agree in all, or one is the inverse of the other between swapped ends. */
  lemma ConflictExactly(a: Edge, b: Edge)
    ensures Conflict(a, b)
            <==> || (a.source == b.source && a.target == b.target && a.kind == b.kind)
                 || (a.source == b.target && a.target == b.source
                     && (|| (a.kind == b.kind && a.kind in {SpouseOf, SiblingOf, FriendOf, RoommateOf, CoworkerOf,
                                                            PartnerOf, CoParentOf, GetsAlongWith, ConflictsWith,
                                                            RelatedTo})
                         || (a.kind, b.kind) in {(ParentOf, ChildOf), (ChildOf, ParentOf), (MentorOf, MenteeOf),
                                                 (MenteeOf, MentorOf), (OwnedBy, Owns), (Owns, OwnedBy)}))
  {
  }

  /** An edge of a merged contact moves to the keeper, end by end, and keeps everything else. */
  lemma MovedExactly(e: Edge, gone: set<Uid>, keep: Uid)
    ensures Moved(e, gone, keep)
            == Edge(if e.source in gone then keep else e.source, if e.target in gone then keep else e.target, e.kind,
                    e.confidence, e.confirmed, e.created)
    ensures Touches(e, gone, keep) <==> e.source in gone + {keep} || e.target in gone + {keep}
  {
  }

  /** Stating the same fact is an equivalence, because inverting a registered type twice gives it back. */
  lemma ConflictIsEquivalence(a: Edge, b: Edge, c: Edge)
    ensures Conflict(a, a) && (Conflict(a, b) <==> Conflict(b, a))
    ensures Conflict(a, b) && Conflict(b, c) ==> Conflict(a, c)
    ensures Conflict(a, b) && Loop(a) ==> Loop(b)
  {
    InverseTwice(a.kind);
    InverseTwice(b.kind);
    hide Inverse;
  }

  lemma InverseTwice(kind: Kind)
    ensures Inverse(kind).Some? ==> Inverse(Inverse(kind).value) == Some(kind)
  {
  }

  lemma AboveIsTransitive(a: Edge, i: nat, b: Edge, j: nat, c: Edge, k: nat)
    requires Above(a, i, b, j) && Above(b, j, c, k)
    ensures Above(a, i, c, k)
  {
  }

  lemma AboveIgnoresEnds(a: Edge, i: nat, b: Edge, j: nat, gone: set<Uid>, keep: Uid)
    ensures Above(Moved(a, gone, keep), i, Moved(b, gone, keep), j) <==> Above(a, i, b, j)
  {
  }

  lemma MovedTwice(e: Edge, gone: set<Uid>, between: Uid, gone': set<Uid>, keep: Uid)
    requires between !in gone && keep !in gone && keep !in gone' && (between == keep || between in gone')
    ensures Moved(Moved(e, gone, between), gone', keep) == Moved(e, gone + gone', keep)
    ensures Touches(e, gone, between) ==> Touches(e, gone + gone', keep)
    ensures Touches(Moved(e, gone, between), gone', keep) <==> Touches(e, gone + gone', keep)
  {
  }

  /** A fact stays stated when more contacts are merged. */
  lemma ConflictIsMoved(a: Edge, b: Edge, gone: set<Uid>, keep: Uid)
    ensures Conflict(a, b) ==> Conflict(Moved(a, gone, keep), Moved(b, gone, keep))
    ensures Loop(a) ==> Loop(Moved(a, gone, keep))
  {
    hide Inverse;
  }

  lemma BeatsIsTransitive(edges: Edges, gone: set<Uid>, keep: Uid, k: nat, j: nat, i: nat)
    requires i in edges && Beats(edges, gone, keep, j, i) && Beats(edges, gone, keep, k, j)
    ensures Beats(edges, gone, keep, k, i) && k != i
  {
    ConflictIsEquivalence(Moved(edges[k], gone, keep), Moved(edges[j], gone, keep), Moved(edges[i], gone, keep));
    AboveIsTransitive(edges[k], k, edges[j], j, edges[i], i);
  }

  /** The edge of most authority that states a fact. */
  lemma {:induction false} TopEdge(edges: Edges, gone: set<Uid>, keep: Uid, i: nat) returns (top: nat)
    requires i in edges && Touches(edges[i], gone, keep)
    ensures top in edges && Touches(edges[top], gone, keep) && !Beaten(edges, gone, keep, top)
    ensures top == i || Beats(edges, gone, keep, top, i)
    decreases set j | j in edges && Beats(edges, gone, keep, j, i)
  {
    hide Above, Conflict, Moved, Touches;
    if Beaten(edges, gone, keep, i) {
      var j :| Beats(edges, gone, keep, j, i);
      var above := set k | k in edges && Beats(edges, gone, keep, k, i);
      var above' := set k | k in edges && Beats(edges, gone, keep, k, j);
      forall k | k in above' ensures k in above {
        BeatsIsTransitive(edges, gone, keep, k, j, i);
      }
      assert j !in above' by { NotAboveItself(edges, gone, keep, j); }
      top := TopEdge(edges, gone, keep, j);
      if top != j {
        BeatsIsTransitive(edges, gone, keep, top, j, i);
      }
    } else {
      top := i;
    }
  }

  lemma NotAboveItself(edges: Edges, gone: set<Uid>, keep: Uid, i: nat)
    requires i in edges
    ensures !Beats(edges, gone, keep, i, i)
  {
  }

  lemma StatesFact(edges: Edges, gone: set<Uid>, keep: Uid, top: nat, i: nat)
    requires i in edges && top in edges && (top == i || Beats(edges, gone, keep, top, i))
    ensures Conflict(Moved(edges[top], gone, keep), Moved(edges[i], gone, keep))
    ensures Loop(Moved(edges[top], gone, keep)) ==> Loop(Moved(edges[i], gone, keep))
  {
    var a, b := Moved(edges[top], gone, keep), Moved(edges[i], gone, keep);
    ConflictIsEquivalence(a, b, a);
  }

  /**
   * No fact is lost: each edge is still there, or one of more authority that states the same, unless the
   * merge turned it into a relation of the contact with itself.
   */
  lemma NoFactIsLost(edges: Edges, gone: set<Uid>, keep: Uid, i: nat)
    requires i in edges && keep !in gone
    ensures var e, after := Moved(edges[i], gone, keep), Settled(edges, gone, keep);
            if Touches(edges[i], gone, keep) && e.source == e.target then i !in after
            else exists top :: top in after && Conflict(after[top], e)
                               && (top == i || Above(edges[top], top, edges[i], i))
  {
    hide Above, Conflict;
    if !Touches(edges[i], gone, keep) {
      StatesFact(edges, gone, keep, i, i);
      assert i in Settled(edges, gone, keep);
    } else if !Loop(Moved(edges[i], gone, keep)) {
      var top := TopEdge(edges, gone, keep, i);
      StatesFact(edges, gone, keep, top, i);
      assert top in Settled(edges, gone, keep);
    }
  }

  // Keys

  /** The unique index on the natural key. */
  ghost predicate UniqueKeys(edges: Edges) {
    forall i, j :: i in edges && j in edges && i != j ==> !SameKey(edges[i], edges[j])
  }

  lemma TwoThatTouch(edges: Edges, gone: set<Uid>, keep: Uid, i: nat, j: nat)
    requires i in edges && j in edges && i != j && Touches(edges[i], gone, keep) && Touches(edges[j], gone, keep)
    requires Conflict(Moved(edges[i], gone, keep), Moved(edges[j], gone, keep))
    ensures !Stays(edges, gone, keep, i) || !Stays(edges, gone, keep, j)
  {
    PickIsBelow(edges[i], i, edges[j], j);
    ConflictIsEquivalence(Moved(edges[i], gone, keep), Moved(edges[j], gone, keep), Moved(edges[i], gone, keep));
    hide Above, Conflict;
    if Above(edges[i], i, edges[j], j) {
      assert Beats(edges, gone, keep, i, j);
    } else {
      assert Beats(edges, gone, keep, j, i);
    }
  }

  /** No repeats, no self-loops and nothing of the contacts that are gone; edges of others do not change. */
  lemma SettledIsClean(edges: Edges, gone: set<Uid>, keep: Uid)
    requires keep !in gone
    ensures var after := Settled(edges, gone, keep);
            && (forall i, j :: i in after && j in after && i != j && keep in {after[i].source, after[i].target}
                               ==> !Conflict(after[i], after[j]))
            && (forall i :: i in after && keep in {after[i].source, after[i].target}
                            ==> after[i].source != after[i].target)
            && (forall i :: i in after ==> after[i].source !in gone && after[i].target !in gone)
            && (forall i :: i in edges && !Touches(edges[i], gone, keep) ==> i in after && after[i] == edges[i])
  {
    hide Above, Beaten;
    var after := Settled(edges, gone, keep);
    forall i, j | i in after && j in after && i != j && keep in {after[i].source, after[i].target}
      ensures !Conflict(after[i], after[j])
    {
      if Conflict(after[i], after[j]) {
        TwoThatTouch(edges, gone, keep, i, j);
      }
    }
  }

  lemma SettledIsUnique(edges: Edges, gone: set<Uid>, keep: Uid)
    requires keep !in gone && UniqueKeys(edges)
    ensures UniqueKeys(Settled(edges, gone, keep))
  {
    SettledIsClean(edges, gone, keep);
    hide Stays;
    var after := Settled(edges, gone, keep);
    forall i, j | i in after && j in after && i != j ensures !SameKey(after[i], after[j]) {
      assert keep !in {after[i].source, after[i].target} ==> after[i] == edges[i];
      assert keep !in {after[j].source, after[j].target} ==> after[j] == edges[j];
    }
  }

  /** Each surviving row has some, all or none of its ends moved. */
  ghost predicate OnTheWay(edges: Edges, now: Edges, gone: set<Uid>, keep: Uid) {
    && now.Keys == Settled(edges, gone, keep).Keys
    && forall i :: i in now ==>
         && now[i] == edges[i].(source := now[i].source, target := now[i].target)
         && now[i].source in {edges[i].source, MovedEnd(edges[i].source, gone, keep)}
         && now[i].target in {edges[i].target, MovedEnd(edges[i].target, gone, keep)}
  }

  /** Once the dropped rows are deleted, no order of row updates ever meets the unique index. */
  lemma NoUpdateCollides(edges: Edges, now: Edges, gone: set<Uid>, keep: Uid)
    requires keep !in gone && UniqueKeys(edges) && OnTheWay(edges, now, gone, keep)
    ensures UniqueKeys(now)
  {
    SettledIsUnique(edges, gone, keep);
    hide Stays;
    var after := Settled(edges, gone, keep);
    forall i, j | i in now && j in now && i != j ensures !SameKey(now[i], now[j]) {
      assert i in after && j in after;
      assert SameKey(Moved(now[i], gone, keep), after[i]) && SameKey(Moved(now[j], gone, keep), after[j]);
    }
  }

  // Several merges

  /** What stays after two merges is what stays when all the contacts are merged at once. */
  lemma StaysTwice(edges: Edges, gone: set<Uid>, between: Uid, gone': set<Uid>, keep: Uid, i: nat)
    requires between !in gone && keep !in gone && keep !in gone' && (between == keep || between in gone')
    requires i in edges
    ensures var once := Settled(edges, gone, between);
            (i in once && Stays(once, gone', keep, i)) <==> Stays(edges, gone + gone', keep, i)
  {
    hide *;
    if Stays(edges, gone + gone', keep, i) {
      StaysInBoth(edges, gone, between, gone', keep, i);
    } else {
      BeatenInOne(edges, gone, between, gone', keep, i);
    }
  }

  lemma BeatsLater(edges: Edges, gone: set<Uid>, between: Uid, gone': set<Uid>, keep: Uid, j: nat, i: nat)
    requires between !in gone && keep !in gone && keep !in gone' && (between == keep || between in gone')
    requires i in edges
    ensures Beats(edges, gone, between, j, i) ==> Beats(edges, gone + gone', keep, j, i)
    ensures var once := Settled(edges, gone, between);
            i in once && j in once ==> (Beats(once, gone', keep, j, i) <==> Beats(edges, gone + gone', keep, j, i))
  {
    hide Stays, Conflict, Above;
    if j in edges {
      MovedTwice(edges[i], gone, between, gone', keep);
      MovedTwice(edges[j], gone, between, gone', keep);
      ConflictIsMoved(Moved(edges[j], gone, between), Moved(edges[i], gone, between), gone', keep);
      AboveIgnoresEnds(edges[j], j, edges[i], i, gone, between);
    }
  }

  lemma StaysInBoth(edges: Edges, gone: set<Uid>, between: Uid, gone': set<Uid>, keep: Uid, i: nat)
    requires between !in gone && keep !in gone && keep !in gone' && (between == keep || between in gone')
    requires i in edges && Stays(edges, gone + gone', keep, i)
    ensures var once := Settled(edges, gone, between);
            i in once && Stays(once, gone', keep, i)
  {
    var once := Settled(edges, gone, between);
    MovedTwice(edges[i], gone, between, gone', keep);
    ConflictIsMoved(Moved(edges[i], gone, between), Moved(edges[i], gone, between), gone', keep);
    hide Beats, Conflict, Above, Loop, Touches, Moved;
    forall j ensures Beats(edges, gone, between, j, i) ==> Beats(edges, gone + gone', keep, j, i) {
      BeatsLater(edges, gone, between, gone', keep, j, i);
    }
    assert i in once;
    forall j ensures Beats(once, gone', keep, j, i) ==> Beats(edges, gone + gone', keep, j, i) {
      if Beats(once, gone', keep, j, i) {
        BeaterIsThere(once, gone', keep, j, i);
        BeatsLater(edges, gone, between, gone', keep, j, i);
      }
    }
  }

  lemma BeaterIsThere(edges: Edges, gone: set<Uid>, keep: Uid, j: nat, i: nat)
    requires i in edges && Beats(edges, gone, keep, j, i)
    ensures j in edges && Touches(edges[j], gone, keep)
    ensures Conflict(Moved(edges[j], gone, keep), Moved(edges[i], gone, keep))
  {
  }

  lemma BeatenInOne(edges: Edges, gone: set<Uid>, between: Uid, gone': set<Uid>, keep: Uid, i: nat)
    requires between !in gone && keep !in gone && keep !in gone' && (between == keep || between in gone')
    requires i in edges && !Stays(edges, gone + gone', keep, i)
    ensures var once := Settled(edges, gone, between);
            i in once ==> !Stays(once, gone', keep, i)
  {
    var once := Settled(edges, gone, between);
    MovedTwice(edges[i], gone, between, gone', keep);
    hide Beats, Conflict, Above, Loop, Touches, Moved;
    if i in once && !Loop(Moved(edges[i], gone + gone', keep)) {
      var j :| Beats(edges, gone + gone', keep, j, i);
      BeaterIsThere(edges, gone + gone', keep, j, i);
      var top := BeaterAfterOnce(edges, gone, between, gone', keep, j, i);
      BeatsLater(edges, gone, between, gone', keep, top, i);
    }
  }

  /** What beats an edge at last is there after the first merge, or something that beats both. */
  lemma BeaterAfterOnce(edges: Edges, gone: set<Uid>, between: Uid, gone': set<Uid>, keep: Uid, j: nat, i: nat)
    returns (top: nat)
    requires between !in gone && keep !in gone && keep !in gone' && (between == keep || between in gone')
    requires i in edges && Beats(edges, gone + gone', keep, j, i) && !Loop(Moved(edges[i], gone + gone', keep))
    ensures top in Settled(edges, gone, between) && Beats(edges, gone + gone', keep, top, i)
  {
    BeaterIsThere(edges, gone + gone', keep, j, i);
    hide Beats, Conflict, Above, Loop, Touches, Moved;
    if Touches(edges[j], gone, between) {
      top := TopEdge(edges, gone, between, j);
      if top != j {
        BeatsLater(edges, gone, between, gone', keep, top, j);
        BeatsIsTransitive(edges, gone + gone', keep, top, j, i);
      }
      StatesFact(edges, gone + gone', keep, top, i);
      MovedTwice(edges[top], gone, between, gone', keep);
      ConflictIsMoved(Moved(edges[top], gone, between), Moved(edges[top], gone, between), gone', keep);
    } else {
      top := j;
    }
  }

  /**
   * Merging in two steps is merging at once: first some contacts into one, then that one, or others, or both
   * into the contact that is kept.
   */
  lemma SettledTwice(edges: Edges, gone: set<Uid>, between: Uid, gone': set<Uid>, keep: Uid)
    requires between !in gone && keep !in gone && keep !in gone' && (between == keep || between in gone')
    ensures Settled(Settled(edges, gone, between), gone', keep) == Settled(edges, gone + gone', keep)
  {
    hide Stays, Touches, Moved;
    var once := Settled(edges, gone, between);
    forall i | i in edges
      ensures (i in once && Stays(once, gone', keep, i)) <==> Stays(edges, gone + gone', keep, i)
      ensures Moved(Moved(edges[i], gone, between), gone', keep) == Moved(edges[i], gone + gone', keep)
    {
      StaysTwice(edges, gone, between, gone', keep, i);
      MovedTwice(edges[i], gone, between, gone', keep);
    }
  }

  /** One merge after the other into the same contact. */
  ghost function MergedInTurn(edges: Edges, losers: seq<Uid>, keep: Uid): Edges {
    if losers == [] then edges
    else Settled(MergedInTurn(edges, losers[..|losers| - 1], keep), {losers[|losers| - 1]}, keep)
  }

  lemma {:induction false} InTurnIsAtOnce(edges: Edges, losers: seq<Uid>, keep: Uid)
    requires losers != [] && keep !in losers
    ensures MergedInTurn(edges, losers, keep) == Settled(edges, (set u | u in losers), keep)
  {
    hide Settled;
    var n := |losers| - 1;
    assert losers == losers[..n] + [losers[n]];
    var first := set u | u in losers[..n];
    assert (set u | u in losers) == first + {losers[n]};
    if n == 0 {
      assert losers[..n] == [] && first + {losers[n]} == {losers[n]};
    } else {
      InTurnIsAtOnce(edges, losers[..n], keep);
      SettledTwice(edges, first, keep, {losers[n]}, keep);
    }
  }

  /** In whatever order contacts are merged into one, the same edges are left. */
  lemma OrderDoesNotMatter(edges: Edges, losers: seq<Uid>, losers': seq<Uid>, keep: Uid)
    requires keep !in losers && forall u :: u in losers <==> u in losers'
    ensures MergedInTurn(edges, losers, keep) == MergedInTurn(edges, losers', keep)
  {
    hide Settled, MergedInTurn;
    assert (set u | u in losers) == (set u | u in losers');
    assert losers' != [] ==> losers'[0] in losers;
    if losers != [] {
      assert losers[0] in losers';
      InTurnIsAtOnce(edges, losers, keep);
      InTurnIsAtOnce(edges, losers', keep);
    }
  }

  // The transaction

  /** `found` holds the ids of the edges a query returned, in the query's order. */
  ghost predicate Found(edges: Edges, found: seq<nat>, gone: set<Uid>, keep: Uid) {
    && (forall p, q :: 0 <= p < q < |found| ==> found[p] != found[q])
    && forall i :: i in found <==> i in edges && Touches(edges[i], gone, keep)
  }

  ghost predicate AllBeaten(moved: Edges, keep: Uid, dropped: set<nat>) {
    forall i :: i in dropped ==> i in moved && Beaten(moved, {}, keep, i)
  }

  /** One of the two edges is dropped, or they state different facts. */
  ghost predicate Decided(ids: seq<nat>, moved: Edges, dropped: set<nat>, p: nat, q: nat)
    requires p < |ids| && q < |ids| && ids[p] in moved && ids[q] in moved
  {
    ids[p] in dropped || ids[q] in dropped || !Conflict(moved[ids[p]], moved[ids[q]])
  }

  /** All pairs are decided up to those of the p-th edge with the ones from the q-th on. */
  ghost predicate AllDecided(ids: seq<nat>, moved: Edges, dropped: set<nat>, p: nat, q: nat)
    requires forall i :: i in ids ==> i in moved
  {
    forall x, y :: 0 <= x < y < |ids| && (x < p || (x == p && y < q)) ==> Decided(ids, moved, dropped, x, y)
  }

  lemma DecideOne(ids: seq<nat>, moved: Edges, dropped: set<nat>, dropped': set<nat>, p: nat, q: nat)
    requires forall i :: i in ids ==> i in moved
    requires p < q < |ids| && dropped <= dropped'
    requires AllDecided(ids, moved, dropped, p, q) && Decided(ids, moved, dropped', p, q)
    ensures AllDecided(ids, moved, dropped', p, q + 1)
  {
    hide Conflict;
    forall x, y | 0 <= x < y < |ids| && (x < p || (x == p && y < q)) ensures Decided(ids, moved, dropped', x, y) {
      assert Decided(ids, moved, dropped, x, y);
    }
  }

  lemma LoserIsBeaten(moved: Edges, keep: Uid, i: nat, j: nat)
    requires i in moved && j in moved && i != j && Conflict(moved[i], moved[j])
    requires Touches(moved[i], {}, keep) && Touches(moved[j], {}, keep)
    ensures var lower := PickToDrop(moved[i], i, moved[j], j);
            lower in {i, j} && Beaten(moved, {}, keep, lower)
  {
    PickIsBelow(moved[i], i, moved[j], j);
    ConflictIsEquivalence(moved[i], moved[j], moved[i]);
    assert Moved(moved[i], {}, keep) == moved[i] && Moved(moved[j], {}, keep) == moved[j];
    hide Conflict, Above, Touches, Moved;
    assert Beats(moved, {}, keep, i, j) || Beats(moved, {}, keep, j, i);
  }

  /** Once every pair is decided, what is left of each fact is the edge of most authority. */
  lemma MarkedExactly(ids: seq<nat>, moved: Edges, keep: Uid, dropped: set<nat>)
    requires moved.Keys == (set i | i in ids) && forall i :: i in moved ==> Touches(moved[i], {}, keep)
    requires AllBeaten(moved, keep, dropped)
    requires AllDecided(ids, moved, dropped, |ids|, 0)
    ensures forall i :: i in dropped <==> i in moved && Beaten(moved, {}, keep, i)
  {
    hide Above, Touches, Conflict, Moved;
    forall i | i in moved && Beaten(moved, {}, keep, i) ensures i in dropped {
      var top := TopEdge(moved, {}, keep, i);
      StatesFact(moved, {}, keep, top, i);
      MovedNowhere(moved[top], keep);
      MovedNowhere(moved[i], keep);
      ConflictIsEquivalence(moved[top], moved[i], moved[top]);
      assert i in ids && top in ids;
      var p :| 0 <= p < |ids| && ids[p] == i;
      var q :| 0 <= q < |ids| && ids[q] == top;
      assert if p < q then Decided(ids, moved, dropped, p, q) else Decided(ids, moved, dropped, q, p);
    }
  }

  lemma MovedTouches(e: Edge, lose: Uid, keep: Uid)
    ensures Touches(Moved(e, {lose}, keep), {}, keep) <==> Touches(e, {lose}, keep)
  {
  }

  lemma MovedNowhere(e: Edge, keep: Uid)
    ensures Moved(e, {}, keep) == e
  {
  }

  /** Self-loops and beaten edges of the query are the edges that do not stay. */
  lemma GoneExactly(edges: Edges, found: seq<nat>, lose: Uid, keep: Uid, moved: Edges, loops: set<nat>,
      beaten: set<nat>)
    requires keep != lose && Found(edges, found, {lose}, keep)
    requires forall i :: i in moved <==> i in found && !Loop(Moved(edges[i], {lose}, keep))
    requires forall i :: i in moved ==> moved[i] == Moved(edges[i], {lose}, keep)
    requires forall i :: i in loops <==> i in found && Loop(Moved(edges[i], {lose}, keep))
    requires forall i :: i in beaten <==> i in moved && Beaten(moved, {}, keep, i)
    ensures forall i :: i in loops + beaten <==> i in edges && !Stays(edges, {lose}, keep, i)
  {
    hide Beats, Loop, Touches, Moved;
    forall i, j | i in moved ensures Beats(moved, {}, keep, j, i) <==> Beats(edges, {lose}, keep, j, i) {
      SameBeats(edges, found, lose, keep, moved, j, i);
    }
  }

  lemma SameBeats(edges: Edges, found: seq<nat>, lose: Uid, keep: Uid, moved: Edges, j: nat, i: nat)
    requires keep != lose && Found(edges, found, {lose}, keep)
    requires forall k :: k in moved <==> k in found && !Loop(Moved(edges[k], {lose}, keep))
    requires forall k :: k in moved ==> moved[k] == Moved(edges[k], {lose}, keep)
    requires i in moved
    ensures Beats(moved, {}, keep, j, i) <==> Beats(edges, {lose}, keep, j, i)
  {
    MovedNowhere(moved[i], keep);
    if j in edges {
      AboveIgnoresEnds(edges[j], j, edges[i], i, {lose}, keep);
      ConflictIsEquivalence(Moved(edges[j], {lose}, keep), moved[i], Moved(edges[j], {lose}, keep));
      if j in moved {
        MovedNowhere(moved[j], keep);
      }
    }
    hide Above, Conflict;
  }

  /** Deleting the edges that do not stay and moving the others settles the table. */
  lemma RestIsSettled(before: Edges, gone: set<nat>, lose: Uid, keep: Uid, after: Edges)
    requires forall i :: i in gone <==> i in before && !Stays(before, {lose}, keep, i)
    requires after == map i | i in before && i !in gone :: Moved(before[i], {lose}, keep)
    ensures after == Settled(before, {lose}, keep) && |gone| == |before| - |after|
  {
    hide Stays, Moved;
    assert before.Keys == after.Keys + gone;
    assert |before.Keys| == |before| && |after.Keys| == |after|;
  }

  class EdgeTable {
    var edges: Edges

    constructor (edges: Edges)
      ensures this.edges == edges
    {
      this.edges := edges;
    }

    method MoveEnds(edge: Edge, lose: Uid, keep: Uid) returns (e: Edge)
      ensures e == Moved(edge, {lose}, keep)
    {
      e := edge;
      if e.source == lose {
        e := e.(source := keep);
      }
      if e.target == lose {
        e := e.(target := keep);
      }
    }

    /** The edges after repointing, in the query's order, and the self-loops among them. */
    method Repoint(found: seq<nat>, lose: Uid, keep: Uid) returns (repointed: seq<nat>, moved: Edges, loops: set<nat>)
      requires keep != lose && Found(edges, found, {lose}, keep)
      ensures forall p, q :: 0 <= p < q < |repointed| ==> repointed[p] != repointed[q]
      ensures forall i :: i in repointed <==> i in found && !Loop(Moved(edges[i], {lose}, keep))
      ensures moved.Keys == set i | i in repointed
      ensures forall i :: i in repointed ==> moved[i] == Moved(edges[i], {lose}, keep)
      ensures forall i :: i in loops <==> i in found && Loop(Moved(edges[i], {lose}, keep))
      ensures forall i :: i in moved ==> Touches(moved[i], {}, keep)
    {
      hide Moved, Touches;
      repointed, moved, loops := [], map[], {};
      for n := 0 to |found|
        invariant forall p, q :: 0 <= p < q < |repointed| ==> repointed[p] != repointed[q]
        invariant forall i :: i in repointed <==> i in found[..n] && !Loop(Moved(edges[i], {lose}, keep))
        invariant moved.Keys == set i | i in repointed
        invariant forall i :: i in repointed ==> moved[i] == Moved(edges[i], {lose}, keep)
        invariant forall i :: i in loops <==> i in found[..n] && Loop(Moved(edges[i], {lose}, keep))
      {
        assert found[..n + 1] == found[..n] + [found[n]] && found[n] in found;
        var e := MoveEnds(edges[found[n]], lose, keep);
        if e.source == e.target {
          loops := loops + {found[n]};
        } else {
          repointed, moved := repointed + [found[n]], moved[found[n] := e];
        }
      }
      assert found[..|found|] == found;
      forall i | i in moved ensures Touches(moved[i], {}, keep) {
        MovedTouches(edges[i], lose, keep);
      }
    }

    /** `repointRelationshipEdges`: how many edges were dropped. */
    method RepointEdges(found: seq<nat>, lose: Uid, keep: Uid) returns (dropped: nat)
      requires keep != lose && Found(edges, found, {lose}, keep)
      modifies this
      ensures edges == Settled(old(edges), {lose}, keep)
      ensures dropped == |old(edges)| - |edges|
    {
      hide *;
      var before := edges;
      var repointed, moved, loops := Repoint(found, lose, keep);
      var beaten := MarkBeaten(repointed, moved, keep);
      var gone := loops + beaten;
      assert forall i :: i in moved <==> i in repointed;
      GoneExactly(before, found, lose, keep, moved, loops, beaten);
      DeleteAndUpdate(gone, lose, keep);
      RestIsSettled(before, gone, lose, keep, edges);
      return |gone|;
    }

    /** Delete the dropped rows, then rewrite the ends of the others. */
    method DeleteAndUpdate(gone: set<nat>, lose: Uid, keep: Uid)
      requires keep != lose
      modifies this
      ensures edges == map i | i in old(edges) && i !in gone :: Moved(old(edges)[i], {lose}, keep)
    {
      edges := map i | i in edges && i !in gone :: edges[i];
      edges := map i | i in edges :: if edges[i].source == lose then edges[i].(source := keep) else edges[i];
      edges := map i | i in edges :: if edges[i].target == lose then edges[i].(target := keep) else edges[i];
    }
  }

  /** The pairwise comparison marks exactly the edges that another one beats, whatever order they are in. */
  method MarkBeaten(ids: seq<nat>, moved: Edges, keep: Uid) returns (dropped: set<nat>)
    requires forall p, q :: 0 <= p < q < |ids| ==> ids[p] != ids[q]
    requires moved.Keys == set i | i in ids
    requires forall i :: i in moved ==> Touches(moved[i], {}, keep)
    ensures forall i :: i in dropped <==> i in moved && Beaten(moved, {}, keep, i)
  {
    hide Conflict, Above, Touches, PickToDrop, Beaten;
    dropped := {};
    for p := 0 to |ids|
      invariant AllBeaten(moved, keep, dropped)
      invariant AllDecided(ids, moved, dropped, p, 0)
    {
      if ids[p] !in dropped {
        for q := p + 1 to |ids|
          invariant AllBeaten(moved, keep, dropped)
          invariant AllDecided(ids, moved, dropped, p, q)
        {
          ghost var before := dropped;
          if ids[q] !in dropped && Conflict(moved[ids[p]], moved[ids[q]]) {
            LoserIsBeaten(moved, keep, ids[p], ids[q]);
            dropped := dropped + {PickToDrop(moved[ids[p]], ids[p], moved[ids[q]], ids[q])};
          }
          DecideOne(ids, moved, before, dropped, p, q);
        }
      }
    }
    MarkedExactly(ids, moved, keep, dropped);
  }
}
